/** src/configuration.c: the reader that cuts words out of a reused line buffer in place. */
module Configuration {
  import opened CStrings
  import opened Wrappers
  import opened Memory
  import opened ConfigGrammar
  import opened LineBuffers
  import ContentTypes

  // ----- words in the line buffer -----

  /** cutNextToken: where the next word of the string at from begins and ends. */
  method CutNextToken(buffer: array<char>, from: nat) returns (startOfWord: nat, endOfWord: nat)
    requires Terminated(buffer[..], from) && |CStr(buffer[..], from)| < MAX_LINE_LENGTH
    ensures var t := CStr(buffer[..], from);
      && startOfWord == from + SkipBlanks(t)
      && endOfWord == from + FirstOf(t, SkipBlanks(t), {' ', '\t', LF})
  {
    ghost var t := CStr(buffer[..], from);
    startOfWord := from;
    var index := 0;
    while buffer[startOfWord] == ' ' || buffer[startOfWord] == '\t'
      invariant startOfWord == from + index && index <= SkipBlanks(t)
      decreases |t| - index
    {
      assert CharAt(buffer[..], from, index);
      startOfWord := startOfWord + 1;
      assert index < MAX_LINE_LENGTH;
      index := index + 1;
    }
    assert CharAt(buffer[..], from, index);
    endOfWord := startOfWord;
    while buffer[endOfWord] != ' ' && buffer[endOfWord] != '\t' && buffer[endOfWord] != NUL && buffer[endOfWord] != LF
      invariant startOfWord <= endOfWord <= from + FirstOf(t, SkipBlanks(t), {' ', '\t', LF})
      decreases |t| - (endOfWord - from)
    {
      assert CharAt(buffer[..], from, endOfWord - from);
      endOfWord := endOfWord + 1;
    }
    assert CharAt(buffer[..], from, endOfWord - from);
  }

  /** The character k places into a C string, or its terminator. */
  ghost predicate CharAt(s: seq<char>, from: nat, k: nat)
    requires Terminated(s, from) && k <= |CStr(s, from)|
  {
    s[from + k] == if k < |CStr(s, from)| then CStr(s, from)[k] else NUL
  }

  /** The step every reader repeats: cut the next word, terminate it in place, move behind it. */
  method NextWord(buffer: array<char>, from: nat) returns (word: nat, next: nat)
    requires Terminated(buffer[..], from) && |CStr(buffer[..], from)| < MAX_LINE_LENGTH
    modifies buffer
    ensures var t := TokenAt(old(buffer[..]), from);
      && word == t.at && next == t.next && buffer[..] == t.buffer
      && Terminated(buffer[..], word) && CStr(buffer[..], word) == t.word
  {
    ghost var before := buffer[..];
    var endOfToken;
    word, endOfToken := CutNextToken(buffer, from);
    TokenIsString(before, from);
    hide FirstOf, SkipBlanks, CStr, Terminated;
    buffer[endOfToken] := NUL;
    next := endOfToken + 1;
    assert buffer[..] == before[endOfToken := NUL];
  }

  method NextTwoWords(buffer: array<char>, from: nat) returns (first: nat, second: nat)
    requires buffer.Length == MAX_LINE_LENGTH + 1 && from > 0 && Terminated(buffer[..], from)
    requires var t := TokenAt(buffer[..], from); Terminated(t.buffer, t.next)
    modifies buffer
    ensures var t := TokenAt(old(buffer[..]), from); var u := TokenAt(t.buffer, t.next);
      && buffer[..] == u.buffer
      && Terminated(buffer[..], first) && CStr(buffer[..], first) == t.word
      && Terminated(buffer[..], second) && CStr(buffer[..], second) == u.word
  {
    ghost var before := buffer[..];
    var next;
    first, next := NextWord(buffer, from);
    TokenKept(before, from);
    hide TokenAt;
    second, next := NextWord(buffer, next);
  }

  // ----- the configuration -----

  /** struct EldritchConfig. Its setter is that of the content-type database. */
  class EldritchConfig {
    const maxStringLength: nat
    const interface: array<char>
    const port: array<char>
    const documentRoot: array<char>
    const logFile: array<char>
    const types: ContentTypes.Database
    /** The calls of the setter so far, and the types there were before the first. */
    ghost var calls: seq<(string, string)>
    ghost const initialTypes: map<string, string>

    ghost function Arrays(): set<object> {
      {interface, port, documentRoot, logFile}
    }

    /** The four strings are terminated and have their own arrays. */
    ghost predicate Strings()
      reads interface, port, documentRoot, logFile
    {
      && interface.Length == port.Length == documentRoot.Length == logFile.Length == maxStringLength + 1
      && Terminated(interface[..], 0) && Terminated(port[..], 0)
      && Terminated(documentRoot[..], 0) && Terminated(logFile[..], 0)
      && interface != port && interface != documentRoot && interface != logFile
      && port != documentRoot && port != logFile && documentRoot != logFile
    }

    /** The database holds what the calls of the setter amount to. */
    ghost predicate Served()
      reads this, types, types.contentTypeHash, types.Repr(), types.mem
    {
      && types.Valid() && types.Repr() <= types.mem.live
      && ContentTypes.Texts(types.types) == ContentTypes.AfterSettings(initialTypes, calls)
    }

    /** The configuration is not part of the database. */
    ghost predicate Outside()
      reads types, types.contentTypeHash
    {
      this !in types.Repr() && Arrays() !! types.Repr()
    }

    /** Nor is a line buffer part of either. */
    ghost predicate Apart(buffer: array<char>)
      reads types, types.contentTypeHash
    {
      Outside() && buffer !in Arrays() && buffer !in types.Repr()
    }

    ghost function Current(): Settings
      requires Strings()
      reads this, interface, port, documentRoot, logFile
    {
      Settings(CStr(interface[..], 0), CStr(port[..], 0), CStr(documentRoot[..], 0), CStr(logFile[..], 0), calls)
    }

    /** configuration_initializeConfigStructure, with every string empty to begin with. */
    constructor (maxStringLength: nat, types: ContentTypes.Database)
      requires types.Valid() && types.Repr() <= types.mem.live
      modifies types.mem
      ensures Strings() && Served() && Outside() && fresh(Arrays()) && types.mem.live == old(types.mem.live) + Arrays()
      ensures this.maxStringLength == maxStringLength && this.types == types
      ensures Current() == Settings("", "", "", "", []) && initialTypes == ContentTypes.Texts(types.types)
    {
      hide types.Valid, ContentTypes.TypeBlocks, ContentTypes.Texts, CStr, Terminated, StrEnd;
      types.LedgerApart();
      this.maxStringLength, this.types := maxStringLength, types;
      var interfaceCopy := EmptyString(types.mem, maxStringLength);
      var portCopy := EmptyString(types.mem, maxStringLength);
      var rootCopy := EmptyString(types.mem, maxStringLength);
      var logCopy := EmptyString(types.mem, maxStringLength);
      interface, port, documentRoot, logFile := interfaceCopy, portCopy, rootCopy, logCopy;
      calls, initialTypes := [], ContentTypes.Texts(types.types);
    }

    /** configuration_clearConfigStructure */
    method Clear()
      requires Arrays() <= types.mem.live && Strings()
      modifies types.mem
      ensures types.mem.live == old(types.mem.live) - Arrays()
    {
      types.mem.Free(interface);
      types.mem.Free(port);
      types.mem.Free(documentRoot);
      types.mem.Free(logFile);
    }

    /** readContentType */
    method ReadContentType(buffer: array<char>, line: nat)
      requires Strings() && Served() && Apart(buffer) && buffer.Length == MAX_LINE_LENGTH + 1
      requires line > 0 && Terminated(buffer[..], line)
      requires var t := TokenAt(buffer[..], line); Terminated(t.buffer, t.next)
      modifies this`calls, buffer, types`types, types.contentTypeHash.Repr(), types.mem
      ensures Strings() && Served() && Apart(buffer)
      ensures forall o :: o in types.contentTypeHash.Repr() ==> o in old(types.contentTypeHash.Repr()) || fresh(o)
      ensures var t := TokenAt(old(buffer[..]), line); var u := TokenAt(t.buffer, t.next);
        buffer[..] == u.buffer && Current() == Apply(old(Current()), ContentType(t.word, u.word), maxStringLength)
      ensures types.mem.live - types.Repr() == old(types.mem.live) - old(types.Repr())
    {
      hide types.Valid, ContentTypes.TypeBlocks, ContentTypes.Texts, ContentTypes.AfterSettings;
      hide TokenAt, CStr, Terminated, Cut;
      var fileEnding, type_ := NextTwoWords(buffer, line);
      ghost var call := (CStr(buffer[..], fileEnding), CStr(buffer[..], type_));
      types.Set(buffer, fileEnding, buffer, type_);
      ContentTypes.OneMoreSetting(initialTypes, calls, call);
      calls := calls + [call];
    }

    /** readListen */
    method ReadListen(buffer: array<char>, line: nat)
      requires Strings() && Served() && Apart(buffer) && buffer.Length == MAX_LINE_LENGTH + 1
      requires line > 0 && Terminated(buffer[..], line)
      requires var t := TokenAt(buffer[..], line); Terminated(t.buffer, t.next)
      modifies buffer, interface, port
      ensures Strings() && Served()
      ensures var t := TokenAt(old(buffer[..]), line); var u := TokenAt(t.buffer, t.next);
        buffer[..] == u.buffer && Current() == Apply(old(Current()), Listen(t.word, u.word), maxStringLength)
    {
      hide types.Valid, ContentTypes.TypeBlocks, ContentTypes.Texts, TokenAt, StrEnd;
      var interfaceWord, portWord := NextTwoWords(buffer, line);
      hide CStr, Terminated, Cut;
      CopyInto(interface, maxStringLength, buffer, interfaceWord);
      CopyInto(port, maxStringLength, buffer, portWord);
    }

    /** readNextToken */
    method ReadNextToken(buffer: array<char>, line: nat, target: array<char>)
      requires Strings() && Served() && Apart(buffer) && target in {documentRoot, logFile}
      requires buffer.Length == MAX_LINE_LENGTH + 1 && line > 0 && Terminated(buffer[..], line)
      modifies buffer, target
      ensures Strings() && Served()
      ensures var t := TokenAt(old(buffer[..]), line);
        && buffer[..] == t.buffer
        && Current() == Apply(old(Current()), if target == logFile then LogFile(t.word) else DocumentRoot(t.word),
                              maxStringLength)
    {
      hide types.Valid, ContentTypes.TypeBlocks, ContentTypes.Texts, TokenAt;
      var path, _ := NextWord(buffer, line);
      hide CStr, Terminated, Cut;
      CopyInto(target, maxStringLength, buffer, path);
    }

    /** interpretLine. A word that is missing is looked for in what earlier lines have left behind the line;
        only where nothing terminates that either, the code would read behind the buffer. */
    method InterpretLine(buffer: array<char>) returns (code: int)
      requires Strings() && Served() && Apart(buffer) && buffer.Length == MAX_LINE_LENGTH + 1
      requires Terminated(buffer[..], 0) && |CStr(buffer[..], 0)| < MAX_LINE_LENGTH
      requires LineIn(buffer[..]).line != Overrun
      modifies this`calls, interface, port, documentRoot, logFile
      modifies buffer, types`types, types.contentTypeHash.Repr(), types.mem
      ensures Strings() && Served() && Apart(buffer)
      ensures forall o :: o in types.contentTypeHash.Repr() ==> o in old(types.contentTypeHash.Repr()) || fresh(o)
      ensures buffer[..] == LineIn(old(buffer[..])).buffer
      ensures match LineIn(old(buffer[..])).line {
        case Says(d) => code == 0 && Current() == Apply(old(Current()), d, maxStringLength)
        case _ => code == -1 && Current() == old(Current())
      }
      ensures types.mem.live - types.Repr() == old(types.mem.live) - old(types.Repr())
    {
      hide types.Valid, ContentTypes.TypeBlocks, ContentTypes.Texts, ContentTypes.AfterSettings, TokenAt, StrEnd;
      var beginning, end := NextWord(buffer, 0);
      var keyword := CStr(buffer[..], beginning);
      hide CStr, Terminated;
      if keyword == "contenttype" {
        ReadContentType(buffer, end);
        return 0;
      }
      if keyword == "listen" {
        ReadListen(buffer, end);
        return 0;
      }
      if keyword == "documentroot" {
        ReadNextToken(buffer, end, documentRoot);
        return 0;
      }
      if keyword == "logfile" {
        ReadNextToken(buffer, end, logFile);
        return 0;
      }
      return -1;
    }

    /** readStream on a stream of these characters, which ends there or in a read error. What malloc hands out
        holds any characters to begin with. */
    method ReadStream(file: string, readError: bool, garbage: string) returns (code: int)
      requires Strings() && Served() && Outside()
      requires |garbage| == MAX_LINE_LENGTH + 1 && ReadIn(Current(), garbage, file, maxStringLength).Done?
      modifies this`calls, interface, port, documentRoot, logFile
      modifies types`types, types.contentTypeHash.Repr(), types.mem
      ensures Strings() && Served() && Outside()
      ensures var reading := ReadIn(old(Current()), garbage, file, maxStringLength);
        Current() == reading.settings && code == if reading.ok && !readError then 0 else -1
      ensures types.mem.live - types.Repr() == old(types.mem.live) - old(types.Repr())
    {
      hide types.Valid, ContentTypes.TypeBlocks, ContentTypes.Texts, ContentTypes.AfterSettings, ReadIn, CStr, Terminated;
      types.LedgerApart();
      var buffer := new char[MAX_LINE_LENGTH + 1](i requires 0 <= i < |garbage| => garbage[i]);
      assert buffer[..] == garbage;
      types.mem.Malloc(buffer);
      assert types.mem.live - types.Repr() == old(types.mem.live - types.Repr()) + {buffer};
      var ok := ReadLines(buffer, file);
      assert buffer in types.mem.live - types.Repr();
      types.LedgerApart();
      types.mem.Free(buffer);
      return if ok && !readError then 0 else -1;
    }

    /** The loop of readStream. */
    method ReadLines(buffer: array<char>, file: string) returns (ok: bool)
      requires Strings() && Served() && Apart(buffer) && buffer.Length == MAX_LINE_LENGTH + 1
      requires ReadIn(Current(), buffer[..], file, maxStringLength).Done?
      modifies this`calls, interface, port, documentRoot, logFile
      modifies buffer, types`types, types.contentTypeHash.Repr(), types.mem
      ensures Strings() && Served() && Apart(buffer)
      ensures Done(ok, Current()) == ReadIn(old(Current()), old(buffer[..]), file, maxStringLength)
      ensures types.mem.live - types.Repr() == old(types.mem.live) - old(types.Repr())
    {
      hide types.Valid, ContentTypes.TypeBlocks, ContentTypes.Texts, ContentTypes.AfterSettings;
      hide ReadIn, Loaded, LineIn, FgetsCount, CStr, Terminated;
      var position := 0;
      assert file[0..] == file;
      while position < |file|
        invariant position <= |file| && Strings() && Served() && Apart(buffer)
        invariant forall o :: o in types.contentTypeHash.Repr() ==> o in old(types.contentTypeHash.Repr()) || fresh(o)
        invariant types.mem.live - types.Repr() == old(types.mem.live) - old(types.Repr())
        invariant ReadIn(Current(), buffer[..], file[position..], maxStringLength) ==
          ReadIn(old(Current()), old(buffer[..]), file, maxStringLength)
      {
        ReadOn(Current(), buffer[..], file, position, maxStringLength);
        var n := Fgets(buffer, file, position);
        position := position + n;
        var interpreted := InterpretLine(buffer);
        if interpreted != 0 {
          return false;
        }
      }
      ReadAll(Current(), buffer[..], file, maxStringLength);
      return true;
    }
  }

  /** Reading from a position: one line, then the rest. */
  lemma ReadOn(c: Settings, b: seq<char>, file: string, position: nat, max: nat)
    requires |b| == MAX_LINE_LENGTH + 1 && position < |file|
    ensures var n := FgetsCount(file[position..]);
      && position + n <= |file|
      && var r := LineIn(Loaded(b, file[position..position + n]));
      ReadIn(c, b, file[position..], max) == match r.line
        case Overrun => Undefined
        case Malformed => Done(false, c)
        case Says(d) => ReadIn(Apply(c, d, max), r.buffer, file[position + n..], max)
  {
    hide ReadIn, LineIn, Loaded, FgetsCount, Apply;
    ReadFirst(c, b, file[position..], max);
    var n := FgetsCount(file[position..]);
    assert file[position..][..n] == file[position..position + n] && file[position..][n..] == file[position + n..];
  }

  /** At the end of the file its settings stand. */
  lemma ReadAll(c: Settings, b: seq<char>, file: string, max: nat)
    requires |b| == MAX_LINE_LENGTH + 1
    ensures ReadIn(c, b, file[|file|..], max) == Done(true, c)
  {
  }

  method EmptyString(mem: Ledger, max: nat) returns (a: array<char>)
    modifies mem
    ensures fresh(a) && a.Length == max + 1 && Terminated(a[..], 0) && CStr(a[..], 0) == []
    ensures mem.live == old(mem.live) + {a}
  {
    a := new char[max + 1](_ => NUL);
    mem.Malloc(a);
    assert a[..][0] == NUL;
  }

  /** fgets: the rest of the line, or as much of it as the buffer takes. */
  method Fgets(buffer: array<char>, file: string, position: nat) returns (n: nat)
    requires buffer.Length == MAX_LINE_LENGTH + 1 && position < |file|
    modifies buffer
    ensures n == FgetsCount(file[position..])
    ensures buffer[..] == Loaded(old(buffer[..]), file[position..position + n])
    ensures Terminated(buffer[..], 0) && |CStr(buffer[..], 0)| < MAX_LINE_LENGTH
  {
    n := FgetsCount(file[position..]);
    ghost var before := buffer[..];
    for i := 0 to n
      invariant buffer[..i] == file[position..position + i]
      invariant buffer[n..] == before[n..]
    {
      buffer[i] := file[position + i];
    }
    buffer[n] := NUL;
    assert buffer[..] == Loaded(before, file[position..position + n]);
    LoadedIs(before, file[position..position + n]);
  }

  /** strnlen, memcpy and the terminator: at most max characters of a string go into the target. */
  method CopyInto(target: array<char>, max: nat, buffer: array<char>, from: nat)
    requires target.Length == max + 1 && target != buffer && Terminated(buffer[..], from)
    modifies target
    ensures Terminated(target[..], 0) && CStr(target[..], 0) == Cut(CStr(buffer[..], from), max)
  {
    var length := |Cut(CStr(buffer[..], from), max)|;
    ghost var t := Cut(CStr(buffer[..], from), max);
    for i := 0 to length
      invariant target[..i] == t[..i]
    {
      target[i] := buffer[from + i];
    }
    target[length] := NUL;
    assert target[..][0..0 + |t|] == t;
    CStrIs(target[..], 0, t);
  }
}
