/** src/contenttype.c: the content-type database over the hash table. */
module ContentTypes {
  import opened CStrings
  import opened Memory
  import opened HashTables

  const MAX_TYPE_STRING_LENGTH := 255
  const HASH_SIZE := 15
  const FILE_EXTENSION_SEPARATOR: char := '.'

  const DEFAULT_TYPE := "text/html"
  const JPG_TYPE := "image/jpeg"

  datatype ContentEncoding = None | Base64

  // ----- the database as a map -----

  /** The types that remain after a list of settings: the last one for an ending wins. */
  function AfterSettings(types: map<string, string>, settings: seq<(string, string)>): map<string, string> {
    if settings == [] then types else
      var (ending, type_) := settings[|settings| - 1];
      AfterSettings(types, settings[..|settings| - 1])[ending := Cut(type_, MAX_TYPE_STRING_LENGTH)]
  }

  lemma OneMoreSetting(types: map<string, string>, settings: seq<(string, string)>, setting: (string, string))
    ensures AfterSettings(types, settings + [setting]) ==
      AfterSettings(types, settings)[setting.0 := Cut(setting.1, MAX_TYPE_STRING_LENGTH)]
  {
    assert (settings + [setting])[..|settings|] == settings;
  }

  const INITIAL_TYPES: map<string, string> := map["jpg" := JPG_TYPE]

  /** The position of the last separator among the first n characters of a path, or -1. */
  function LastDot(path: string, n: nat): (i: int)
    requires n <= |path|
    ensures -1 <= i < n
    ensures i >= 0 ==> path[i] == FILE_EXTENSION_SEPARATOR
    ensures forall k :: i < k < n ==> path[k] != FILE_EXTENSION_SEPARATOR
  {
    if n == 0 then -1 else if path[n - 1] == FILE_EXTENSION_SEPARATOR then n - 1 else LastDot(path, n - 1)
  }

  const SIZE_RANGE := 0x1_0000_0000_0000_0000

  /** How the scan of contenttype_get ends: at a separator, or by leaving the path. */
  datatype Scan = Found(at: nat) | RunsOff

  /** The scan as the code has it, downwards with an index of type size_t: below 0 it goes on at the far end
      of the range. */
  function ScanFrom(path: string, index: nat): Scan
    requires |path| < SIZE_RANGE
    decreases if index < |path| then index + 1 else 0
  {
    if index >= |path| then RunsOff
    else if path[index] == FILE_EXTENSION_SEPARATOR then Found(index)
    else ScanFrom(path, if index == 0 then SIZE_RANGE - 1 else index - 1)
  }

  /** The index the scan of the first n characters begins at. */
  function FirstIndex(n: nat): nat {
    if n == 0 then SIZE_RANGE - 1 else n - 1
  }

  /** The scan stays inside the path exactly when there is a separator among the characters it is to look
      at, and then finds the last one; otherwise it leaves the path. */
  lemma {:induction false} ScanInsideIff(path: string, n: nat)
    requires n <= |path| < SIZE_RANGE
    ensures ScanFrom(path, FirstIndex(n)).Found? <==> FILE_EXTENSION_SEPARATOR in path[..n]
    ensures ScanFrom(path, FirstIndex(n)) == if LastDot(path, n) >= 0 then Found(LastDot(path, n)) else RunsOff
  {
    if n > 0 {
      ScanInsideIff(path, n - 1);
      assert path[..n] == path[..n - 1] + [path[n - 1]];
    }
  }

  /** The type of a path: what is set for the text behind its last dot, the default otherwise. */
  function TypeOf(types: map<string, string>, path: string, maxPathLength: nat): string {
    var dot := LastDot(path, |Cut(path, maxPathLength)|);
    if dot >= 0 && path[dot + 1..] in types then types[path[dot + 1..]] else DEFAULT_TYPE
  }

  /** The setting of an ending that is decisive: the last one in the list. */
  ghost predicate LastSetting(settings: seq<(string, string)>, ending: string, i: nat) {
    i < |settings| && settings[i].0 == ending && forall j :: i < j < |settings| ==> settings[j].0 != ending
  }

  /** After any settings, an ending has the type last set for it, cut to 255 characters. */
  lemma {:induction false} LastSettingWins(types: map<string, string>, settings: seq<(string, string)>, ending: string,
                                           i: nat)
    requires LastSetting(settings, ending, i)
    ensures TypeOfEnding(AfterSettings(types, settings), ending) == Cut(settings[i].1, MAX_TYPE_STRING_LENGTH)
  {
    if i < |settings| - 1 {
      LastSettingWins(types, settings[..|settings| - 1], ending, i);
    }
  }

  ghost predicate NeverSet(settings: seq<(string, string)>, ending: string) {
    forall j :: 0 <= j < |settings| ==> settings[j].0 != ending
  }

  /** Without a setting of its own an ending keeps what it had. */
  lemma {:induction false} UnsetUnchanged(types: map<string, string>, settings: seq<(string, string)>, ending: string)
    requires NeverSet(settings, ending)
    ensures TypeOfEnding(AfterSettings(types, settings), ending) == TypeOfEnding(types, ending)
  {
    if settings != [] {
      UnsetUnchanged(types, settings[..|settings| - 1], ending);
    }
  }

  /** What a path with a dot is served as after any settings: the type last set for the text behind its
      last dot, or what it was served as before when there is none. */
  lemma ServedAs(types: map<string, string>, settings: seq<(string, string)>, path: string, i: nat)
    requires LastDot(path, |path|) >= 0
    ensures LastSetting(settings, Ending(path), i) ==>
      TypeOf(AfterSettings(types, settings), path, |path|) == Cut(settings[i].1, 255)
    ensures NeverSet(settings, Ending(path)) ==>
      TypeOf(AfterSettings(types, settings), path, |path|) == TypeOf(types, path, |path|)
  {
    WholePath(AfterSettings(types, settings), path);
    WholePath(types, path);
    var ending := Ending(path);
    hide TypeOf, TypeOfEnding, AfterSettings, LastDot, LastSetting, NeverSet, Ending;
    if LastSetting(settings, ending, i) {
      LastSettingWins(types, settings, ending, i);
    }
    if NeverSet(settings, ending) {
      UnsetUnchanged(types, settings, ending);
    }
  }

  /** At the start a jpg is served as image/jpeg, anything else as text/html. */
  lemma InitiallyServedAs(path: string)
    requires LastDot(path, |path|) >= 0
    ensures TypeOf(INITIAL_TYPES, path, |path|) == if Ending(path) == "jpg" then "image/jpeg" else "text/html"
  {
    WholePath(INITIAL_TYPES, path);
  }

  /** The text behind the last dot. */
  function Ending(path: string): string
    requires LastDot(path, |path|) >= 0
  {
    path[LastDot(path, |path|) + 1..]
  }

  function TypeOfEnding(types: map<string, string>, ending: string): string {
    if ending in types then types[ending] else DEFAULT_TYPE
  }

  lemma WholePath(types: map<string, string>, path: string)
    ensures LastDot(path, |path|) >= 0 ==> TypeOf(types, path, |path|) == TypeOfEnding(types, Ending(path))
  {
    hide LastDot, TypeOf, TypeOfEnding, Cut;
    TypeByDot(types, path, |path|);
    assert Cut(path, |path|) == path;
  }

  // ----- the objects -----

  /** ContentType: owns a terminated copy of its type string. */
  class ContentType {
    const typeString: array<char>
    const encoding: ContentEncoding
    ghost const text: string

    constructor (typeString: array<char>, encoding: ContentEncoding, ghost text: string)
      ensures this.typeString == typeString && this.encoding == encoding && this.text == text
    {
      this.typeString, this.encoding, this.text := typeString, encoding, text;
    }

    ghost predicate Valid()
      reads typeString
    {
      NUL !in text && |text| <= MAX_TYPE_STRING_LENGTH && typeString[..] == text + [NUL]
    }

    ghost function Blocks(): set<object> {
      {this, typeString}
    }
  }

  /** contenttype_create */
  method Create(mem: Ledger, type_: array<char>, off: nat, encoding: ContentEncoding) returns (t: ContentType)
    requires Terminated(type_[..], off)
    modifies mem
    ensures fresh(t) && fresh(t.typeString) && t.Valid() && t.encoding == encoding
    ensures t.text == Cut(CStr(type_[..], off), MAX_TYPE_STRING_LENGTH)
    ensures mem.live == old(mem.live) + t.Blocks()
  {
    var typeStringLength := |Cut(CStr(type_[..], off), MAX_TYPE_STRING_LENGTH)|;
    var copyOfTypeString := CopyOf(type_, off, typeStringLength);
    t := new ContentType(copyOfTypeString, encoding, Cut(CStr(type_[..], off), MAX_TYPE_STRING_LENGTH));
    mem.Malloc(t);
    mem.Malloc(copyOfTypeString);
  }

  /** contenttype_create for a string constant. */
  method CreateNamed(mem: Ledger, type_: string) returns (t: ContentType)
    requires NUL !in type_ && |type_| <= MAX_TYPE_STRING_LENGTH
    modifies mem
    ensures fresh(t.Blocks()) && t.Valid() && t.text == type_ && mem.live == old(mem.live) + t.Blocks()
  {
    var typeString := Literal(type_);
    t := Create(mem, typeString, 0, None);
  }

  /** contenttype_dispose */
  method Dispose(mem: Ledger, toDispose: ContentType?)
    requires toDispose != null ==> toDispose.Blocks() <= mem.live
    modifies mem
    ensures mem.live == old(mem.live) - if toDispose != null then toDispose.Blocks() else {}
  {
    if toDispose != null {
      mem.Free(toDispose.typeString);
      mem.Free(toDispose);
    }
  }

  // ----- the database -----

  /** The blocks of a set of stored types. */
  ghost function TypeBlocks(types: map<string, ContentType>): set<object> {
    set k, o | k in types && o in types[k].Blocks() :: o
  }

  /** Different endings have different objects with different strings, and none is the default. */
  ghost predicate Separate(types: map<string, ContentType>, default_: ContentType) {
    && (forall k, k' :: k in types && k' in types && k != k' ==>
          types[k] != types[k'] && types[k].typeString != types[k'].typeString)
    && (forall k :: k in types ==> types[k] != default_ && types[k].typeString != default_.typeString)
  }

  ghost function Texts(types: map<string, ContentType>): map<string, string> {
    map k | k in types :: types[k].text
  }

  lemma OneType(k: string, t: ContentType, default_: ContentType)
    requires t.Blocks() !! default_.Blocks()
    ensures TypeBlocks(map[k := t]) == t.Blocks() && Texts(map[k := t]) == map[k := t.text]
    ensures Separate(map[k := t], default_)
  {
    assert k in map[k := t];
    assert t in t.Blocks() && t.typeString in t.Blocks();
  }

  class Database {
    const mem: Ledger
    const contentTypeHash: HashTable
    const defaultContentType: ContentType
    /** The stored objects, by ending. */
    ghost var types: map<string, ContentType>

    /** Everything the database has allocated and not yet freed. */
    ghost function Repr(): set<object>
      reads this, contentTypeHash
    {
      contentTypeHash.Repr() + TypeBlocks(types) + defaultContentType.Blocks()
    }

    ghost predicate Valid()
      reads this, contentTypeHash, Repr()
    {
      && contentTypeHash.Valid() && contentTypeHash.mem == mem
      && mem !in Repr() && this !in Repr()
      && contentTypeHash.view.content == types
      && (forall k :: k in types ==> types[k].typeString in types[k].Blocks() && types[k].Valid())
      && defaultContentType.Valid() && defaultContentType.text == DEFAULT_TYPE
      && Separate(types, defaultContentType)
      && contentTypeHash.Repr() !! TypeBlocks(types) + defaultContentType.Blocks()
    }

    /** The books are not part of the database. */
    lemma LedgerApart()
      requires Valid()
      ensures mem !in Repr()
    {
    }

    /** contenttype_initialize */
    constructor (mem: Ledger)
      modifies mem
      ensures Valid() && this.mem == mem && fresh(Repr())
      ensures Texts(types) == INITIAL_TYPES
      ensures mem.live == old(mem.live) + Repr()
    {
      hide HashTable.Valid, TypeBlocks, Bucket, HashTable.Repr, Texts, Separate, Terminated, AllBlocks;
      this.mem := mem;
      var table := new HashTable(mem, HASH_SIZE, k => Bucket(k, HASH_SIZE));
      var jpg := CreateNamed(mem, JPG_TYPE);
      var key := Literal("jpg");
      var previous := table.Set(key, 0, jpg);
      var html := CreateNamed(mem, DEFAULT_TYPE);
      contentTypeHash, defaultContentType := table, html;
      types := map["jpg" := jpg];
      ghost var blocks := table.Repr() + jpg.Blocks() + html.Blocks();
      assert fresh(blocks) && mem.live == old(mem.live) + blocks;
      OneType("jpg", jpg, html);
      new;
      assert Repr() == blocks;
    }

    /** contenttype_set: the type it replaces is disposed of at once. */
    method Set(fileEnding: array<char>, endingOff: nat, type_: array<char>, typeOff: nat)
      requires Valid() && Repr() <= mem.live
      requires Terminated(fileEnding[..], endingOff) && Terminated(type_[..], typeOff)
      modifies this`types, contentTypeHash.Repr(), mem
      ensures Valid() && forall o :: o in Repr() ==> o in old(Repr()) || fresh(o)
      ensures forall o :: o in contentTypeHash.Repr() ==> o in old(contentTypeHash.Repr()) || fresh(o)
      ensures Texts(types) == old(Texts(types))[old(CStr(fileEnding[..], endingOff)) :=
        Cut(old(CStr(type_[..], typeOff)), MAX_TYPE_STRING_LENGTH)]
      ensures mem.live == old(mem.live) - old(Repr()) + Repr()
    {
      hide Valid, TypeBlocks, Texts;
      LedgerApart();
      var contentType := Create(mem, type_, typeOff, None);
      ghost var gone;
      var previous;
      previous, gone := Store(fileEnding, endingOff, contentType);
      LedgerApart();
      Dispose(mem, previous);
    }

    /** hashTableSet of contenttype_set: the type it replaces no longer belongs to the database. */
    method Store(fileEnding: array<char>, endingOff: nat, contentType: ContentType)
      returns (previous: ContentType?, ghost gone: set<object>)
      requires Valid() && Repr() <= mem.live && Terminated(fileEnding[..], endingOff)
      requires contentType.Valid() && contentType.Blocks() <= mem.live - Repr() && mem !in contentType.Blocks()
      requires this !in contentType.Blocks()
      modifies this`types, contentTypeHash.Repr(), mem
      ensures var k := old(CStr(fileEnding[..], endingOff)); previous == if k in old(types) then old(types)[k] else null
      ensures Valid() && gone == (if previous != null then previous.Blocks() else {})
      ensures forall o :: o in Repr() ==> o in old(Repr()) + contentType.Blocks() || fresh(o)
      ensures forall o :: o in contentTypeHash.Repr() ==> o in old(contentTypeHash.Repr()) || fresh(o)
      ensures Texts(types) == old(Texts(types))[old(CStr(fileEnding[..], endingOff)) := contentType.text]
      ensures gone <= old(Repr()) && mem.live - Repr() == old(mem.live) - old(Repr()) - contentType.Blocks() + gone
      ensures Repr() <= mem.live
    {
      hide HashTable.Valid, HashTable.Repr, TypeBlocks, AllBlocks, Texts, Separate;
      ghost var k := CStr(fileEnding[..], endingOff);
      gone := if k in types then types[k].Blocks() else {};
      StoredBlocks(types, defaultContentType);
      var found: object? := contentTypeHash.Set(fileEnding, endingOff, contentType);
      previous := if found == null then null else found as ContentType;
      TypeBlocksSet(types, defaultContentType, k, contentType);
      SeparateSet(types, defaultContentType, k, contentType);
      TextsSet(types, k, contentType);
      types := types[k := contentType];
    }

    /** contenttype_get, with its index read as signed: a live type, never null. Where the scan of the code
        leaves the path this is the default type. */
    method Get(filePath: array<char>, off: nat, maxPathLength: nat) returns (contentType: ContentType)
      requires Valid() && Repr() <= mem.live && Terminated(filePath[..], off)
      ensures contentType.Valid() && contentType.Blocks() <= Repr()
      ensures contentType.text == TypeOf(Texts(types), CStr(filePath[..], off), maxPathLength)
    {
      hide HashTable.Valid, HashTable.Repr, TypeBlocks, Separate, TypeOf, LastDot, Texts;
      TypeByDot(Texts(types), CStr(filePath[..], off), maxPathLength);
      var pathLength := |Cut(CStr(filePath[..], off), maxPathLength)|;
      var index := LastSeparator(filePath, off, pathLength);
      if index < 0 {
        StoredBlocks(types, defaultContentType);
        return defaultContentType;
      }
      SuffixString(filePath[..], off, index + 1);
      contentType := OfEnding(filePath, off + index + 1);
    }

    /** The end of contenttype_get: what is stored for an ending, or the default. */
    method OfEnding(filePath: array<char>, at: nat) returns (contentType: ContentType)
      requires Valid() && Repr() <= mem.live && Terminated(filePath[..], at)
      ensures contentType.Valid() && contentType.Blocks() <= Repr()
      ensures contentType.text == TypeOfEnding(Texts(types), CStr(filePath[..], at))
    {
      hide HashTable.Valid, HashTable.Repr, TypeBlocks, Separate, CStr, Terminated;
      StoredBlocks(types, defaultContentType);
      var found: object? := contentTypeHash.Get(filePath, at);
      contentType := if found == null then defaultContentType else found as ContentType;
    }

    /** contenttype_close: everything the database owns is freed; the list of keys it asked for is not. */
    method Close() returns (keys: array<array?<char>>)
      requires Valid() && Repr() <= mem.live
      modifies mem
      ensures fresh(keys)
      ensures mem.live == old(mem.live) - old(Repr()) + {keys}
    {
      hide HashTable.Valid, HashTable.Repr, TypeBlocks, AllBlocks, Separate;
      StoredBlocks(types, defaultContentType);
      ghost var names;
      keys, names := contentTypeHash.KeyList();
      Dispose(mem, defaultContentType);
      DisposeStored(keys, names);
      contentTypeHash.Dispose();
    }

    /** The loop of contenttype_close over the list of keys. */
    method DisposeStored(keys: array<array?<char>>, ghost names: seq<string>)
      requires contentTypeHash.Valid() && mem !in contentTypeHash.Repr()
      requires contentTypeHash.view.content == types && Separate(types, defaultContentType)
      requires TypeBlocks(types) <= mem.live
      requires Distinct(names) && forall k :: k in names <==> k in types
      requires keys.Length == |names| + 1 && keys[|names|] == null
      requires forall x :: 0 <= x < |names| ==> keys[x] != null && NUL !in names[x] && keys[x][..] == names[x] + [NUL]
      modifies mem
      ensures contentTypeHash.Valid() && mem.live == old(mem.live) - TypeBlocks(types)
    {
      hide HashTable.Valid, TypeBlocks, AllBlocks, Separate;
      StoredBlocks(types, defaultContentType);
      var i := 0;
      while keys[i] != null
        invariant i <= |names| && contentTypeHash.Valid()
        invariant mem.live == old(mem.live) - NamedBlocks(types, names[..i])
        decreases |names| - i
      {
        assert names[i] !in names[..i];
        NamedApart(types, defaultContentType, names[..i], names[i]);
        NextNamed(types, names, i);
        CStrOfCopy(names[i]);
        var contentType: object? := contentTypeHash.Get(keys[i], 0);
        Dispose(mem, contentType as ContentType);
        contentTypeHash.LedgerOnly();
        i := i + 1;
      }
      assert names[..i] == names;
      AllNamed(types, names);
    }
  }

  /** The scan of contenttype_get. */
  method LastSeparator(filePath: array<char>, off: nat, pathLength: nat) returns (index: int)
    requires Terminated(filePath[..], off) && pathLength <= |CStr(filePath[..], off)|
    ensures index == LastDot(CStr(filePath[..], off), pathLength)
  {
    hide LastDot;
    ghost var path := CStr(filePath[..], off);
    index := pathLength - 1;
    while index >= 0
      invariant -1 <= index < pathLength
      invariant LastDot(path, pathLength) == LastDot(path, index + 1)
    {
      OneStep(path, index);
      assert filePath[off + index] == path[index];
      if FILE_EXTENSION_SEPARATOR == filePath[off + index] {
        return;
      }
      index := index - 1;
    }
    OneStep(path, -1);
  }

  /** What the character at an index does to the scan. */
  lemma OneStep(path: string, index: int)
    requires -1 <= index < |path|
    ensures LastDot(path, index + 1) ==
      if index < 0 then -1 else if path[index] == FILE_EXTENSION_SEPARATOR then index else LastDot(path, index)
  {
  }

  lemma TypeByDot(types: map<string, string>, path: string, maxPathLength: nat)
    ensures var dot := LastDot(path, |Cut(path, maxPathLength)|);
      TypeOf(types, path, maxPathLength) == if dot >= 0 then TypeOfEnding(types, path[dot + 1..]) else DEFAULT_TYPE
  {
    hide LastDot, Cut;
  }

  /** The string behind a position of a C string. */
  lemma SuffixString(s: seq<char>, off: nat, i: nat)
    requires Terminated(s, off) && i <= |CStr(s, off)|
    ensures Terminated(s, off + i) && CStr(s, off + i) == CStr(s, off)[i..]
  {
    var t := CStr(s, off);
    var e := StrEnd(s, off);
    assert s[off..e] == t && e == off + |t|;
    assert s[off + i..off + i + |t[i..]|] == t[i..];
    CStrIs(s, off + i, t[i..]);
  }

  /** The blocks of the types with these names. */
  ghost function NamedBlocks(types: map<string, ContentType>, names: seq<string>): set<object> {
    if names == [] then {} else
      NamedBlocks(types, names[..|names| - 1])
      + if names[|names| - 1] in types then types[names[|names| - 1]].Blocks() else {}
  }

  /** A type is none of those named before it. */
  lemma {:induction false} NamedApart(types: map<string, ContentType>, default_: ContentType, names: seq<string>, k: string)
    requires Separate(types, default_) && k in types && k !in names
    ensures types[k].Blocks() !! NamedBlocks(types, names)
  {
    if names != [] {
      var init, last := names[..|names| - 1], names[|names| - 1];
      assert last in names && forall n :: n in init ==> n in names;
      NamedApart(types, default_, init, k);
      assert types[k].Blocks() == {types[k], types[k].typeString};
    }
  }

  /** Naming every ending names every stored block. */
  lemma AllNamed(types: map<string, ContentType>, names: seq<string>)
    requires forall k :: k in names <==> k in types
    ensures NamedBlocks(types, names) == TypeBlocks(types)
  {
    forall o | o in NamedBlocks(types, names) ensures o in TypeBlocks(types) {
      NamedBlock(types, names, o);
    }
    forall o | o in TypeBlocks(types) ensures o in NamedBlocks(types, names) {
      NamedBlock(types, names, o);
    }
  }

  lemma {:induction false} NamedBlock(types: map<string, ContentType>, names: seq<string>, o: object)
    ensures o in NamedBlocks(types, names) <==> exists k :: k in names && k in types && o in types[k].Blocks()
  {
    if names != [] {
      NamedBlock(types, names[..|names| - 1], o);
      assert forall n :: n in names <==> n in names[..|names| - 1] || n == names[|names| - 1];
    }
  }

  lemma NextNamed(types: map<string, ContentType>, names: seq<string>, i: nat)
    requires i < |names|
    ensures NamedBlocks(types, names[..i + 1]) ==
      NamedBlocks(types, names[..i]) + if names[i] in types then types[names[i]].Blocks() else {}
  {
    assert names[..i + 1][..i] == names[..i];
  }

  lemma StoredBlocks(types: map<string, ContentType>, default_: ContentType)
    requires Separate(types, default_)
    ensures forall k :: k in types ==> types[k].Blocks() <= TypeBlocks(types) && types[k].Blocks() !! default_.Blocks()
    ensures TypeBlocks(types) !! default_.Blocks()
  {
  }

  /** An object that shares nothing with the stored ones may be stored. */
  lemma SeparateSet(types: map<string, ContentType>, default_: ContentType, k: string, t: ContentType)
    requires Separate(types, default_) && t.Blocks() !! TypeBlocks(types) + default_.Blocks()
    ensures Separate(types[k := t], default_)
  {
    NotStored(types, t);
    hide TypeBlocks;
    assert t in t.Blocks() && t.typeString in t.Blocks();
    var types' := types[k := t];
    forall a, b | a in types' && b in types' && a != b
      ensures types'[a] != types'[b] && types'[a].typeString != types'[b].typeString
    {
      assert a != k ==> a in types && types'[a] == types[a];
      assert b != k ==> b in types && types'[b] == types[b];
    }
  }

  lemma NotStored(types: map<string, ContentType>, t: ContentType)
    requires t.Blocks() !! TypeBlocks(types)
    ensures forall k :: k in types ==> types[k] != t && types[k].typeString != t.typeString
  {
    assert t in t.Blocks() && t.typeString in t.Blocks();
    forall k | k in types ensures types[k] != t && types[k].typeString != t.typeString {
      assert types[k] in types[k].Blocks() && types[k].typeString in types[k].Blocks();
    }
  }

  lemma TextsSet(types: map<string, ContentType>, k: string, t: ContentType)
    ensures Texts(types[k := t]) == Texts(types)[k := t.text]
  {
  }

  /** Setting an ending exchanges exactly the blocks of its type. */
  lemma TypeBlocksSet(types: map<string, ContentType>, default_: ContentType, k: string, t: ContentType)
    requires Separate(types, default_)
    ensures TypeBlocks(types[k := t]) == (TypeBlocks(types) - if k in types then types[k].Blocks() else {}) + t.Blocks()
  {
    var types' := types[k := t];
    assert types'[k] == t;
    forall o | o in TypeBlocks(types) && (k in types ==> o !in types[k].Blocks()) ensures o in TypeBlocks(types') {
      var k' :| k' in types && o in types[k'].Blocks();
      assert types'[k'] == types[k'];
    }
  }
}
