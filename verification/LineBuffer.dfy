/** The line buffer of src/configuration.c: what a line says when its words are cut in place in a buffer that
    still holds the ends of earlier lines. */
module LineBuffers {
  import opened CStrings
  import opened Wrappers
  import opened ConfigGrammar

  /** A word, where it stands, the buffer with the word terminated, and the place behind it. */
  datatype Token = Token(word: string, at: nat, buffer: seq<char>, next: nat)

  /** The next word of the string at from. */
  ghost function TokenAt(b: seq<char>, from: nat): (t: Token)
    requires Terminated(b, from)
    ensures |t.buffer| == |b| && from <= t.at && t.next == t.at + |t.word| + 1 <= |b|
  {
    var s := CStr(b, from);
    var start, end := SkipBlanks(s), FirstOf(s, SkipBlanks(s), {' ', '\t', LF});
    Token(s[start..end], from + start, b[from + end := NUL], from + end + 1)
  }

  datatype LineRead = LineRead(line: Line, buffer: seq<char>)

  /** What the line in a buffer says, and the buffer afterwards. Each word is looked for behind the one before
      it, whether the line has ended there or not; Overrun means behind the buffer. */
  ghost function LineIn(b: seq<char>): (r: LineRead)
    requires Terminated(b, 0)
    ensures |r.buffer| == |b|
  {
    var k := TokenAt(b, 0);
    if Arity(k.word) == 0 then LineRead(Malformed, k.buffer)
    else if !Terminated(k.buffer, k.next) then LineRead(Overrun, k.buffer)
    else
      var first := TokenAt(k.buffer, k.next);
      if Arity(k.word) == 1 then LineRead(Says(WithWord(k.word, first.word)), first.buffer)
      else if !Terminated(first.buffer, first.next) then LineRead(Overrun, first.buffer)
      else
        var second := TokenAt(first.buffer, first.next);
        LineRead(Says(WithWords(k.word, first.word, second.word)), second.buffer)
  }

  /** The buffer once fgets has put a piece of the file into it. */
  function Loaded(b: seq<char>, piece: string): (r: seq<char>)
    requires |piece| < |b|
    ensures |r| == |b| && Terminated(r, 0)
  {
    assert (piece + [NUL] + b[|piece| + 1..])[|piece|] == NUL;
    piece + [NUL] + b[|piece| + 1..]
  }

  /** Reading a file through a buffer. */
  ghost function ReadIn(c: Settings, b: seq<char>, file: string, max: nat): Reading
    requires |b| == MAX_LINE_LENGTH + 1
    decreases |file|
  {
    if file == [] then Done(true, c) else
      var n := FgetsCount(file);
      var r := LineIn(Loaded(b, file[..n]));
      match r.line
      case Overrun => Undefined
      case Malformed => Done(false, c)
      case Says(d) => ReadIn(Apply(c, d, max), r.buffer, file[n..], max)
  }

  lemma ReadFirst(c: Settings, b: seq<char>, file: string, max: nat)
    requires |b| == MAX_LINE_LENGTH + 1 && file != []
    ensures var n := FgetsCount(file); var r := LineIn(Loaded(b, file[..n]));
      ReadIn(c, b, file, max) == match r.line
        case Overrun => Undefined
        case Malformed => Done(false, c)
        case Says(d) => ReadIn(Apply(c, d, max), r.buffer, file[n..], max)
  {
    hide LineIn, Loaded, FgetsCount, Apply;
  }

  /** What the line in a buffer is, by the words found there. */
  lemma LineInBy(b: seq<char>)
    requires Terminated(b, 0)
    ensures var k := TokenAt(b, 0);
      && (LineIn(b).line.Malformed? <==> k.word !in {"contenttype", "listen", "documentroot", "logfile"})
      && (LineIn(b).line.Says? ==> Terminated(k.buffer, k.next) && var first := TokenAt(k.buffer, k.next);
            match LineIn(b).line.directive
            case ContentType(ending, type_) =>
              && k.word == "contenttype" && ending == first.word
              && Terminated(first.buffer, first.next) && type_ == TokenAt(first.buffer, first.next).word
            case Listen(interface, port) =>
              && k.word == "listen" && interface == first.word
              && Terminated(first.buffer, first.next) && port == TokenAt(first.buffer, first.next).word
            case DocumentRoot(path) => k.word == "documentroot" && path == first.word
            case LogFile(path) => k.word == "logfile" && path == first.word)
  {
    hide TokenAt, Terminated;
  }

  // ----- words are C strings -----

  /** A string that ends before n does not change with what stands from n on. */
  lemma EarlierString(s: seq<char>, s': seq<char>, i: nat, n: nat)
    requires Terminated(s, i) && StrEnd(s, i) < n <= |s| && n <= |s'| && s[..n] == s'[..n]
    ensures Terminated(s', i) && CStr(s', i) == CStr(s, i)
  {
    var t := CStr(s, i);
    assert forall k :: 0 <= k < n ==> s[k] == s[..n][k] == s'[..n][k] == s'[k];
    assert s'[i..i + |t|] == t;
    CStrIs(s', i, t);
  }

  /** Terminating a string early leaves two strings, unless that is where it ended. */
  lemma CutAt(s: seq<char>, from: nat, i: nat, j: nat)
    requires Terminated(s, from) && i <= j <= |CStr(s, from)|
    ensures from + j < |s| && Terminated(s[from + j := NUL], from + i) && StrEnd(s[from + j := NUL], from + i) == from + j
    ensures CStr(s[from + j := NUL], from + i) == CStr(s, from)[i..j]
    ensures j < |CStr(s, from)| ==>
      && Terminated(s[from + j := NUL], from + j + 1)
      && CStr(s[from + j := NUL], from + j + 1) == CStr(s, from)[j + 1..]
  {
    CStrStands(s, from);
    hide CStr, Terminated, StrEnd;
    var t := CStr(s, from);
    SliceString(s, s[from + j := NUL], from, t, i, j);
    if j < |t| {
      assert t[j + 1..|t|] == t[j + 1..];
      SliceString(s, s[from + j := NUL], from, t, j + 1, |t|);
    }
  }

  /** A slice of a string, where it stands unchanged and terminated, is a string. */
  lemma SliceString(s: seq<char>, s': seq<char>, from: nat, t: string, i: nat, j: nat)
    requires i <= j <= |t| && NUL !in t && from + |t| < |s| == |s'| && s[from..from + |t|] == t
    requires s'[from + j] == NUL && forall k :: from + i <= k < from + j ==> s'[k] == s[k]
    ensures Terminated(s', from + i) && StrEnd(s', from + i) == from + j && CStr(s', from + i) == t[i..j]
  {
    assert forall k :: from <= k < from + |t| ==> s[k] == t[k - from];
    assert s'[from + i..from + i + (j - i)] == t[i..j];
    CStrIs(s', from + i, t[i..j]);
  }

  lemma CStrStands(s: seq<char>, i: nat)
    requires Terminated(s, i)
    ensures var t := CStr(s, i);
      i + |t| < |s| && s[i..i + |t|] == t && s[i + |t|] == NUL && StrEnd(s, i) == i + |t|
  {
  }

  /** The word that has been cut is a C string in the buffer. */
  lemma TokenIsString(b: seq<char>, from: nat)
    requires Terminated(b, from)
    ensures var t := TokenAt(b, from); var (w, rest) := TakeToken(CStr(b, from));
      && t.word == w && Terminated(t.buffer, t.at) && CStr(t.buffer, t.at) == w && StrEnd(t.buffer, t.at) == t.next - 1
      && (rest.Some? ==> Terminated(t.buffer, t.next) && CStr(t.buffer, t.next) == rest.value)
  {
    var s := CStr(b, from);
    CutAt(b, from, SkipBlanks(s), FirstOf(s, SkipBlanks(s), {' ', '\t', LF}));
    hide FirstOf, SkipBlanks, CStr, Terminated, StrEnd;
  }

  /** And it stays one when the next word is cut. */
  lemma TokenKept(b: seq<char>, from: nat)
    requires Terminated(b, from) && var t := TokenAt(b, from); Terminated(t.buffer, t.next)
    ensures var t := TokenAt(b, from); var u := TokenAt(t.buffer, t.next);
      Terminated(u.buffer, t.at) && CStr(u.buffer, t.at) == t.word
  {
    TokenIsString(b, from);
    var t := TokenAt(b, from);
    var u := TokenAt(t.buffer, t.next);
    TokenAhead(t.buffer, t.next);
    hide TokenAt;
    EarlierString(t.buffer, u.buffer, t.at, t.next);
  }

  lemma TokenAhead(b: seq<char>, from: nat)
    requires Terminated(b, from)
    ensures TokenAt(b, from).buffer[..from] == b[..from]
  {
    hide FirstOf, SkipBlanks;
  }

  // ----- the buffer does not matter where no word is missing -----

  /** A line that lacks no word says in any buffer what it says alone. */
  lemma LineInIs(b: seq<char>)
    requires Terminated(b, 0) && ParseLine(CStr(b, 0)) != Overrun
    ensures LineIn(b).line == ParseLine(CStr(b, 0))
  {
    var k := TokenAt(b, 0);
    var (keyword, rest) := TakeToken(CStr(b, 0));
    hide TokenAt, TakeToken, CStr, Terminated, StrEnd, Arity, WithWord, WithWords;
    TokenIsString(b, 0);
    if rest.Some? {
      TokenIsString(k.buffer, k.next);
      var first, rest1 := TokenAt(k.buffer, k.next), TakeToken(rest.value).1;
      if rest1.Some? {
        TokenIsString(first.buffer, first.next);
      }
    }
  }

  lemma LoadedIs(b: seq<char>, piece: string)
    requires |piece| < |b|
    ensures CStr(Loaded(b, piece), 0) == TextOf(piece)
  {
    var r, e := Loaded(b, piece), FirstOf(piece, 0, {NUL});
    assert r[0..0 + e] == TextOf(piece);
    assert r[e] == NUL;
    CStrIs(r, 0, TextOf(piece));
  }

  /** A file whose lines lack no word is read in any buffer as what it says. */
  lemma {:induction false} ReadInIs(c: Settings, b: seq<char>, file: string, max: nat)
    requires |b| == MAX_LINE_LENGTH + 1 && ReadFile(c, file, max).Done?
    ensures ReadIn(c, b, file, max) == ReadFile(c, file, max)
    decreases |file|
  {
    if file != [] {
      var n := FgetsCount(file);
      var loaded := Loaded(b, file[..n]);
      LoadedIs(b, file[..n]);
      LineInIs(loaded);
      hide LineIn, ParseLine, Loaded, FgetsCount, TextOf, CStr;
      match LineIn(loaded).line
      case Says(d) => ReadInIs(Apply(c, d, max), LineIn(loaded).buffer, file[n..], max);
      case _ =>
    }
  }

  // ----- where a word is missing, earlier lines supply it -----

  /** A word that stands at from, before a delimiter or a terminator, is the token there. */
  lemma TokenIs(b: seq<char>, from: nat, w: string)
    requires Word(w) && from + |w| < |b| && b[from..from + |w|] == w
    requires b[from + |w|] == NUL || (b[from + |w|] in {' ', '\t', LF} && Terminated(b, from + |w|))
    ensures Terminated(b, from) && TokenAt(b, from) == Token(w, from, b[from + |w| := NUL], from + |w| + 1)
  {
    assert forall k :: from <= k < from + |w| ==> b[k] == w[k - from];
    assert Terminated(b, from);
    var e := StrEnd(b, from);
    assert forall k :: from <= k < from + |w| ==> b[k] != NUL;
    var s := CStr(b, from);
    assert forall k :: 0 <= k < |s| ==> s[k] == b[from + k];
    assert SkipBlanks(s) == 0;
    FirstOfIs(s, 0, {' ', '\t', LF}, |w|);
    assert s[..|w|] == w;
  }

  /** A last line that only says listen takes the two words that stand behind it: here the end of the keyword
      and the argument of the line before. */
  lemma MissingWords(c: Settings, garbage: seq<char>, path: string, max: nat)
    requires |garbage| == MAX_LINE_LENGTH + 1 && Word(path) && |path| <= 240
    ensures ReadIn(c, garbage, "documentroot " + path + [LF] + "listen", max) ==
      Done(true, Apply(Apply(c, DocumentRoot(path), max), Listen("troot", path), max))
    ensures ReadFile(c, "documentroot " + path + [LF] + "listen", max).Undefined?
  {
    var piece, file := "documentroot " + path + [LF], "documentroot " + path + [LF] + "listen";
    var r := LineIn(Loaded(garbage, piece));
    DocumentRootIn(garbage, path);
    ListenIn(r.buffer, path);
    TwoPieces(path);
    assert file[..|piece|] == piece && file[|piece|..] == "listen" && "listen"[..6] == "listen" && "listen"[6..] == "";
    hide LineIn, Loaded, FgetsCount, ParseLine, TextOf, Apply;
    var c1 := Apply(c, DocumentRoot(path), max);
    assert ReadIn(c, garbage, file, max) == ReadIn(c1, r.buffer, "listen", max);
    assert ReadFile(c, file, max) == ReadFile(c1, "listen", max);
  }

  lemma TwoPieces(path: string)
    requires Word(path) && |path| <= 240
    ensures FgetsCount("documentroot " + path + [LF] + "listen") == |path| + 14 && FgetsCount("listen") == 6
    ensures ParseLine(TextOf("documentroot " + path + [LF])) == Says(DocumentRoot(path))
    ensures ParseLine(TextOf("listen")) == Overrun
  {
    var d, l := DocumentRoot(path), Layout("", " ", " ", [LF]);
    var line := "documentroot " + path + [LF];
    assert PrintLine(d, l) == line;
    LineReadsBack(d, l, false);
    TakesWholeLine(d, l, false, "listen");
    LoneKeyword();
  }

  lemma LoneKeyword()
    ensures FgetsCount("listen") == 6 && ParseLine(TextOf("listen")) == Overrun
  {
    FirstOfIs("listen", 0, {LF}, 6);
    FirstOfIs("listen", 0, {NUL}, 6);
    assert "listen"[..6] == "listen";
    FirstOfIs("listen", 0, {' ', '\t', LF}, 6);
    assert "listen"[0..6] == "listen" && TakeToken("listen") == ("listen", None);
  }

  lemma TerminatedBy(b: seq<char>, from: nat, at: nat)
    requires from <= at < |b| && b[at] == NUL
    ensures Terminated(b, from)
  {
  }

  lemma SaysPath(b: seq<char>, k: Token, p: Token)
    requires Terminated(b, 0) && TokenAt(b, 0) == k && k.word == "documentroot"
    requires Terminated(k.buffer, k.next) && TokenAt(k.buffer, k.next) == p
    ensures LineIn(b) == LineRead(Says(DocumentRoot(p.word)), p.buffer)
  {
    hide TokenAt;
  }

  lemma SaysWords(b: seq<char>, k: Token, t: Token, u: Token)
    requires Terminated(b, 0) && TokenAt(b, 0) == k && k.word == "listen"
    requires Terminated(k.buffer, k.next) && TokenAt(k.buffer, k.next) == t
    requires Terminated(t.buffer, t.next) && TokenAt(t.buffer, t.next) == u
    ensures LineIn(b) == LineRead(Says(Listen(t.word, u.word)), u.buffer)
  {
    hide TokenAt;
  }

  /** What a documentroot line leaves behind the place of a shorter keyword. */
  ghost predicate LeftBehind(b: seq<char>, path: string) {
    && |b| == MAX_LINE_LENGTH + 1 && |path| <= 240
    && b[7..12] == "troot" && b[12] == NUL && b[13..13 + |path|] == path && b[13 + |path|] == NUL
  }

  lemma DocumentRootIn(b: seq<char>, path: string)
    requires |b| == MAX_LINE_LENGTH + 1 && Word(path) && |path| <= 240
    ensures var r := LineIn(Loaded(b, "documentroot " + path + [LF]));
      r.line == Says(DocumentRoot(path)) && LeftBehind(r.buffer, path)
  {
    hide LineIn, TokenAt, Terminated, Word;
    var line := "documentroot " + path + [LF];
    var b0 := Loaded(b, line);
    assert b0[..|line|] == line && b0[|line|] == NUL;
    hide Loaded;
    assert line[..12] == "documentroot" && line[12] == ' ' && line[7..12] == "troot";
    assert line[13..13 + |path|] == path && line[13 + |path|] == LF;
    assert b0[0..12] == b0[..|line|][..12] && b0[12] == b0[..|line|][12] && b0[7..12] == b0[..|line|][7..12];
    assert b0[13..13 + |path|] == b0[..|line|][13..13 + |path|] && b0[13 + |path|] == b0[..|line|][13 + |path|];
    DocumentRootCut(b0, path);
  }

  lemma DocumentRootCut(b0: seq<char>, path: string)
    requires |b0| == MAX_LINE_LENGTH + 1 && Word(path) && |path| <= 240
    requires b0[0..12] == "documentroot" && b0[7..12] == "troot" && b0[12] == ' '
    requires b0[13..13 + |path|] == path && b0[13 + |path|] == LF && b0[|path| + 14] == NUL && Terminated(b0, 0)
    ensures LineIn(b0).line == Says(DocumentRoot(path)) && LeftBehind(LineIn(b0).buffer, path)
  {
    hide LineIn, TokenAt, Terminated;
    assert Word("documentroot");
    hide Word;
    TerminatedBy(b0, 12, |path| + 14);
    TokenIs(b0, 0, "documentroot");
    var b1 := b0[12 := NUL];
    assert b1[13..13 + |path|] == b0[13..13 + |path|];
    TerminatedBy(b1, 13 + |path|, |path| + 14);
    TokenIs(b1, 13, path);
    SaysPath(b0, TokenAt(b0, 0), TokenAt(b1, 13));
    var b2 := b1[13 + |path| := NUL];
    assert b2[7..12] == b0[7..12] && b2[13..13 + |path|] == b0[13..13 + |path|];
  }

  /** And what listen finds there. */
  lemma ListenIn(b: seq<char>, path: string)
    requires LeftBehind(b, path) && Word(path)
    ensures LineIn(Loaded(b, "listen")).line == Says(Listen("troot", path))
  {
    hide LineIn, TokenAt, Terminated;
    var r := Loaded(b, "listen");
    assert r[0..6] == "listen" && r[6] == NUL && forall k :: 7 <= k < |r| ==> r[k] == b[k];
    hide Loaded;
    assert r[7..12] == b[7..12] && r[13..13 + |path|] == b[13..13 + |path|];
    assert Word("listen") && Word("troot");
    hide Word;
    TokenIs(r, 0, "listen");
    assert r[6 := NUL] == r;
    TokenIs(r, 7, "troot");
    assert r[12 := NUL] == r;
    TokenIs(r, 13, path);
    SaysWords(r, TokenAt(r, 0), TokenAt(r, 7), TokenAt(r, 13));
  }
}
