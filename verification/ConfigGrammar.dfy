/** The configuration language of src/configuration.c: what a line says, what a file amounts to, and how
    directives are written down. */
module ConfigGrammar {
  import opened CStrings
  import opened Wrappers

  const MAX_LINE_LENGTH := 255

  datatype Directive =
    | ContentType(ending: string, type_: string)
    | Listen(interface: string, port: string)
    | DocumentRoot(path: string)
    | LogFile(path: string)

  // ----- one line -----

  function SkipBlanks(t: string): (k: nat)
    ensures k <= |t| && (k < |t| ==> t[k] !in {' ', '\t'})
    ensures forall i :: 0 <= i < k ==> t[i] in {' ', '\t'}
  {
    if t != [] && t[0] in {' ', '\t'} then 1 + SkipBlanks(t[1..]) else 0
  }

  /** The next word of a text, and the text behind the character that ends it, if there is one. */
  function TakeToken(t: string): (r: (string, Option<string>))
    ensures r.1.Some? ==> |r.1.value| < |t|
  {
    var start := SkipBlanks(t);
    var end := FirstOf(t, start, {' ', '\t', LF});
    (t[start..end], if end < |t| then Some(t[end + 1..]) else None)
  }

  /** What a line is: a directive, a line that is refused, or one whose interpretation would read beyond
      its end because an argument is missing. */
  datatype Line = Says(directive: Directive) | Malformed | Overrun

  /** How many words a keyword asks for; no keyword, none. */
  function Arity(keyword: string): nat {
    if keyword == "contenttype" || keyword == "listen" then 2
    else if keyword == "documentroot" || keyword == "logfile" then 1
    else 0
  }

  function WithWord(keyword: string, path: string): Directive {
    if keyword == "logfile" then LogFile(path) else DocumentRoot(path)
  }

  function WithWords(keyword: string, first: string, second: string): Directive {
    if keyword == "listen" then Listen(first, second) else ContentType(first, second)
  }

  function ParseLine(s: string): Line {
    var (keyword, rest) := TakeToken(s);
    if Arity(keyword) == 0 then Malformed
    else if rest.None? then Overrun
    else
      var (first, rest1) := TakeToken(rest.value);
      if Arity(keyword) == 1 then Says(WithWord(keyword, first))
      else if rest1.None? then Overrun
      else Says(WithWords(keyword, first, TakeToken(rest1.value).0))
  }

  /** Every text is blanks, its next word, and then nothing or a delimiter and the rest. */
  lemma TokenSplits(t: string) returns (k: nat, end: nat)
    ensures k <= end <= |t| && TakeToken(t) == (t[k..end], if end < |t| then Some(t[end + 1..]) else None)
    ensures forall i :: 0 <= i < k ==> t[i] in {' ', '\t'}
    ensures forall i :: k <= i < end ==> t[i] !in {' ', '\t', LF}
    ensures (k < |t| ==> t[k] !in {' ', '\t'}) && (end < |t| ==> t[end] in {' ', '\t', LF})
  {
    hide SkipBlanks, FirstOf;
    k := SkipBlanks(t);
    end := FirstOf(t, k, {' ', '\t', LF});
  }

  /** What each line is, by its words: without one of the four keywords it is malformed; with one it says the
      directive of that keyword with the words that follow, or overruns where one of these is missing. */
  lemma LineIs(s: string)
    ensures var (keyword, rest) := TakeToken(s);
      && (ParseLine(s).Malformed? <==> keyword !in {"contenttype", "listen", "documentroot", "logfile"})
      && (ParseLine(s).Overrun? <==>
            || (keyword in {"documentroot", "logfile"} && rest.None?)
            || (keyword in {"contenttype", "listen"} && (rest.None? || TakeToken(rest.value).1.None?)))
      && (ParseLine(s).Says? ==> rest.Some? && var (first, rest1) := TakeToken(rest.value);
            match ParseLine(s).directive
            case ContentType(ending, type_) =>
              keyword == "contenttype" && rest1.Some? && ending == first && type_ == TakeToken(rest1.value).0
            case Listen(interface, port) =>
              keyword == "listen" && rest1.Some? && interface == first && port == TakeToken(rest1.value).0
            case DocumentRoot(path) => keyword == "documentroot" && path == first
            case LogFile(path) => keyword == "logfile" && path == first)
  {
    hide TakeToken;
  }

  // ----- a whole file -----

  /** The four strings of the configuration and the content-type settings made so far. */
  datatype Settings = Settings(interface: string, port: string, documentRoot: string, logFile: string,
                               types: seq<(string, string)>)

  function Apply(c: Settings, d: Directive, max: nat): Settings {
    match d
    case ContentType(ending, type_) => c.(types := c.types + [(ending, type_)])
    case Listen(interface, port) => c.(interface := Cut(interface, max), port := Cut(port, max))
    case DocumentRoot(path) => c.(documentRoot := Cut(path, max))
    case LogFile(path) => c.(logFile := Cut(path, max))
  }

  function ApplyAll(c: Settings, ds: seq<Directive>, max: nat): Settings
    decreases |ds|
  {
    if ds == [] then c else ApplyAll(Apply(c, ds[0], max), ds[1..], max)
  }

  /** How many characters fgets takes: up to the end of the line, but at most MAX_LINE_LENGTH - 1. */
  function FgetsCount(file: string): (n: nat)
    ensures n <= |file| && n < MAX_LINE_LENGTH && (file != [] ==> n > 0)
  {
    var lf := FirstOf(file, 0, {LF});
    var line := if lf < |file| then lf + 1 else lf;
    if line < MAX_LINE_LENGTH then line else MAX_LINE_LENGTH - 1
  }

  /** The C string in a buffer that holds these characters and a terminator. */
  function TextOf(line: string): (t: string)
    ensures NUL !in t && t <= line
  {
    var t := line[..FirstOf(line, 0, {NUL})];
    assert forall i :: 0 <= i < |t| ==> t[i] == line[i];
    t
  }

  /** Reading a file: the settings it leaves behind and whether it was accepted, unless a line overruns. */
  datatype Reading = Done(ok: bool, settings: Settings) | Undefined

  function ReadFile(c: Settings, file: string, max: nat): Reading
    decreases |file|
  {
    if file == [] then Done(true, c) else
      var n := FgetsCount(file);
      match ParseLine(TextOf(file[..n]))
      case Overrun => Undefined
      case Malformed => Done(false, c)
      case Says(d) => ReadFile(Apply(c, d, max), file[n..], max)
  }

  // ----- writing directives down -----

  /** The blanks around the words of a line, and what follows the last word. */
  datatype Layout = Layout(lead: string, gap1: string, gap2: string, tail: string)

  function Keyword(d: Directive): string {
    match d
    case ContentType(_, _) => "contenttype"
    case Listen(_, _) => "listen"
    case DocumentRoot(_) => "documentroot"
    case LogFile(_) => "logfile"
  }

  /** A line up to its last argument. */
  function PrintWords(d: Directive, l: Layout): string {
    var command := l.lead + Keyword(d) + l.gap1;
    match d
    case ContentType(ending, type_) => command + ending + l.gap2 + type_
    case Listen(interface, port) => command + interface + l.gap2 + port
    case DocumentRoot(path) => command + path
    case LogFile(path) => command + path
  }

  function PrintLine(d: Directive, l: Layout): string {
    PrintWords(d, l) + l.tail
  }

  predicate Blank(s: string) {
    forall i :: 0 <= i < |s| ==> s[i] in {' ', '\t'}
  }

  /** A word that can stand on a line. */
  predicate Word(s: string) {
    s != [] && forall i :: 0 <= i < |s| ==> s[i] !in {' ', '\t', LF, NUL}
  }

  /** A line ends in a newline; the last line of a file may do without one. Further text may follow the
      last argument behind a blank. */
  predicate Tail(s: string, last: bool) {
    || (s == [] && last)
    || (s != [] && s[0] in {' ', '\t', LF} && s[|s| - 1] == LF
        && forall i :: 0 <= i < |s| - 1 ==> s[i] !in {LF, NUL})
  }

  predicate WellFormed(d: Directive, l: Layout, last: bool) {
    && Blank(l.lead) && Blank(l.gap1) && l.gap1 != [] && Blank(l.gap2) && l.gap2 != [] && Tail(l.tail, last)
    && (match d
        case ContentType(ending, type_) => Word(ending) && Word(type_)
        case Listen(interface, port) => Word(interface) && Word(port)
        case DocumentRoot(path) => Word(path)
        case LogFile(path) => Word(path))
    && |PrintLine(d, l)| < MAX_LINE_LENGTH
  }

  function PrintFile(ds: seq<Directive>, ls: seq<Layout>): string
    requires |ds| == |ls|
  {
    if ds == [] then [] else PrintLine(ds[0], ls[0]) + PrintFile(ds[1..], ls[1..])
  }

  ghost predicate AllWellFormed(ds: seq<Directive>, ls: seq<Layout>)
    requires |ds| == |ls|
  {
    forall i :: 0 <= i < |ds| ==> WellFormed(ds[i], ls[i], i == |ds| - 1)
  }

  // ----- what is written is read back -----

  lemma {:induction false} SkipBlanksOf(blank: string, t: string)
    requires Blank(blank) && (t != [] ==> t[0] !in {' ', '\t'})
    ensures SkipBlanks(blank + t) == |blank|
  {
    if blank == [] {
      assert blank + t == t;
    } else {
      assert (blank + t)[1..] == blank[1..] + t;
      SkipBlanksOf(blank[1..], t);
    }
  }

  /** A word between blanks and a delimiter is the token that is taken. */
  lemma TakeWord(blank: string, word: string, t: string)
    requires Blank(blank) && Word(word) && (t != [] ==> t[0] in {' ', '\t', LF})
    ensures TakeToken(blank + (word + t)) == (word, if t != [] then Some(t[1..]) else None)
  {
    var s := blank + (word + t);
    SkipBlanksOf(blank, word + t);
    assert forall i :: |blank| <= i < |blank| + |word| ==> s[i] == word[i - |blank|];
    var end := FirstOf(s, |blank|, {' ', '\t', LF});
    assert t != [] ==> s[|blank| + |word|] == t[0];
    assert end == |blank| + |word|;
    assert s[|blank|..end] == word;
    assert t != [] ==> s[end + 1..] == t[1..];
  }

  /** A line reads back as the directive it was written for. */
  lemma LineReadsBack(d: Directive, l: Layout, last: bool)
    requires WellFormed(d, l, last)
    ensures ParseLine(PrintLine(d, l)) == Says(d)
  {
    hide TakeToken, Word, Blank;
    KeywordIsWord(d);
    match d
    case ContentType(first, second) =>
      TwoArguments(l, Keyword(d), first, second);
    case Listen(first, second) =>
      TwoArguments(l, Keyword(d), first, second);
    case DocumentRoot(path) =>
      OneArgument(l, Keyword(d), path);
    case LogFile(path) =>
      OneArgument(l, Keyword(d), path);
  }

  lemma KeywordIsWord(d: Directive)
    ensures Word(Keyword(d))
  {
  }

  lemma OneArgument(l: Layout, keyword: string, path: string)
    requires Blank(l.lead) && Blank(l.gap1) && l.gap1 != []
    requires Word(keyword) && Word(path) && (l.tail != [] ==> l.tail[0] in {' ', '\t', LF})
    ensures var (k, rest) := TakeToken(l.lead + keyword + l.gap1 + path + l.tail);
      k == keyword && rest.Some? && TakeToken(rest.value).0 == path
  {
    var t1 := path + l.tail;
    assert l.lead + keyword + l.gap1 + path + l.tail == l.lead + (keyword + (l.gap1 + t1));
    TakeWord(l.lead, keyword, l.gap1 + t1);
    assert (l.gap1 + t1)[1..] == l.gap1[1..] + t1;
    TakeWord(l.gap1[1..], path, l.tail);
  }

  lemma TwoArguments(l: Layout, keyword: string, first: string, second: string)
    requires Blank(l.lead) && Blank(l.gap1) && l.gap1 != [] && Blank(l.gap2) && l.gap2 != []
    requires Word(keyword) && Word(first) && Word(second) && (l.tail != [] ==> l.tail[0] in {' ', '\t', LF})
    ensures var (k, rest) := TakeToken(l.lead + keyword + l.gap1 + first + l.gap2 + second + l.tail);
      && k == keyword && rest.Some?
      && var (f, rest1) := TakeToken(rest.value); f == first && rest1.Some? && TakeToken(rest1.value).0 == second
  {
    hide TakeToken;
    var t2 := second + l.tail;
    var t1 := first + (l.gap2 + t2);
    assert Blank(l.gap1[1..]) && Blank(l.gap2[1..]) && l.gap1[0] in {' ', '\t'} && l.gap2[0] in {' ', '\t'};
    hide Blank, Word;
    assert l.lead + keyword + l.gap1 + first + l.gap2 + second + l.tail == l.lead + (keyword + (l.gap1 + t1));
    TakeWord(l.lead, keyword, l.gap1 + t1);
    assert (l.gap1 + t1)[1..] == l.gap1[1..] + t1;
    TakeWord(l.gap1[1..], first, l.gap2 + t2);
    assert (l.gap2 + t2)[1..] == l.gap2[1..] + t2;
    TakeWord(l.gap2[1..], second, l.tail);
  }

  /** fgets takes a written line whole. */
  lemma TakesWholeLine(d: Directive, l: Layout, last: bool, rest: string)
    requires WellFormed(d, l, last) && (last ==> rest == [])
    ensures FgetsCount(PrintLine(d, l) + rest) == |PrintLine(d, l)|
    ensures TextOf(PrintLine(d, l)) == PrintLine(d, l)
  {
    PlainWords(d, l);
    EndOfLine(PrintWords(d, l), l.tail, rest);
  }

  predicate Plain(s: string) {
    forall i :: 0 <= i < |s| ==> s[i] != LF && s[i] != NUL
  }

  lemma PlainPlus(a: string, b: string)
    requires Plain(a) && Plain(b)
    ensures Plain(a + b)
  {
  }

  /** Before its tail a written line holds no newline and no NUL. */
  lemma PlainWords(d: Directive, l: Layout)
    requires WellFormed(d, l, true) || WellFormed(d, l, false)
    ensures Plain(PrintWords(d, l))
  {
    var command := l.lead + Keyword(d);
    PlainPlus(l.lead, Keyword(d));
    PlainPlus(command, l.gap1);
    if d.ContentType? || d.Listen? {
      var first := if d.Listen? then d.interface else d.ending;
      var second := if d.Listen? then d.port else d.type_;
      assert Plain(first) && Plain(second);
      hide Plain;
      PlainPlus(command + l.gap1, first);
      PlainPlus(command + l.gap1 + first, l.gap2);
      PlainPlus(command + l.gap1 + first + l.gap2, second);
    } else {
      var path := d.path;
      assert Plain(path);
      hide Plain;
      PlainPlus(command + l.gap1, path);
    }
  }

  lemma EndOfLine(words: string, tail: string, rest: string)
    requires Plain(words) && |words + tail| < MAX_LINE_LENGTH && words != []
    requires Tail(tail, true) && (tail == [] ==> rest == [])
    ensures FgetsCount(words + tail + rest) == |words + tail| && TextOf(words + tail) == words + tail
  {
    var line := words + tail;
    var file := line + rest;
    assert forall i :: 0 <= i < |words| ==> file[i] == words[i] && line[i] == words[i];
    assert forall i :: |words| <= i < |line| ==> file[i] == tail[i - |words|] && line[i] == tail[i - |words|];
    assert FirstOf(line, 0, {NUL}) == |line|;
    var lf := FirstOf(file, 0, {LF});
    if tail == [] {
      assert file == words && lf == |file|;
    } else {
      assert file[|line| - 1] == LF && lf == |line| - 1;
    }
  }

  /** Any list of directives, written one per line in any layout, reads back as these directives. */
  lemma {:induction false} FileReadsBack(c: Settings, ds: seq<Directive>, ls: seq<Layout>, max: nat)
    requires |ds| == |ls| && AllWellFormed(ds, ls)
    ensures ReadFile(c, PrintFile(ds, ls), max) == Done(true, ApplyAll(c, ds, max))
    decreases |ds|
  {
    if ds != [] {
      var d, l, rest := ds[0], ls[0], PrintFile(ds[1..], ls[1..]);
      assert WellFormed(d, l, |ds| == 1);
      LineReadsBack(d, l, |ds| == 1);
      TakesWholeLine(d, l, |ds| == 1, rest);
      forall i | 0 <= i < |ds[1..]| ensures WellFormed(ds[1..][i], ls[1..][i], i == |ds[1..]| - 1) {
        assert WellFormed(ds[i + 1], ls[i + 1], i + 1 == |ds| - 1);
      }
      hide PrintLine, ParseLine, FgetsCount, TextOf, WellFormed;
      var line := PrintLine(d, l);
      assert (line + rest)[..|line|] == line && (line + rest)[|line|..] == rest;
      FileReadsBack(Apply(c, d, max), ds[1..], ls[1..], max);
    }
  }

  // ----- which files are accepted -----

  /** What successive calls of fgets take off a file. */
  function Pieces(file: string): seq<string>
    decreases |file|
  {
    if file == [] then [] else [file[..FgetsCount(file)]] + Pieces(file[FgetsCount(file)..])
  }

  /** A piece is a line with its end, or as much of one as fits the buffer, or the rest of the file. */
  lemma PieceIs(file: string)
    requires file != []
    ensures var n := FgetsCount(file);
      && (forall i :: 0 <= i < n - 1 ==> file[i] != LF)
      && (file[n - 1] == LF || n == MAX_LINE_LENGTH - 1 || n == |file|)
  {
  }

  /** What the pieces of a file say. */
  function Lines(file: string): (lines: seq<Line>)
    ensures |lines| == |Pieces(file)|
    ensures forall i :: 0 <= i < |lines| ==> lines[i] == ParseLine(TextOf(Pieces(file)[i]))
  {
    var ps := Pieces(file);
    seq(|ps|, i requires 0 <= i < |ps| => ParseLine(TextOf(ps[i])))
  }

  /** How many lines are directives before the first that is none. */
  function Good(lines: seq<Line>): (k: nat)
    ensures k <= |lines| && (k < |lines| ==> !lines[k].Says?)
    ensures forall i :: 0 <= i < k ==> lines[i].Says?
  {
    if lines == [] || !lines[0].Says? then 0 else 1 + Good(lines[1..])
  }

  function Directives(lines: seq<Line>): seq<Directive>
    requires forall i :: 0 <= i < |lines| ==> lines[i].Says?
  {
    seq(|lines|, i requires 0 <= i < |lines| => lines[i].directive)
  }

  /** A file is accepted exactly when each piece that fgets takes of it is a directive; otherwise the first
      piece that is none decides whether it is refused or overruns. The directives before it are in force. */
  lemma {:induction false} AcceptedIff(c: Settings, file: string, max: nat)
    ensures var r, lines := ReadFile(c, file, max), Lines(file); var k := Good(lines);
      && (r.Done? && r.ok <==> k == |lines|)
      && (r.Done? && !r.ok <==> k < |lines| && lines[k].Malformed?)
      && (r.Undefined? <==> k < |lines| && lines[k].Overrun?)
      && (r.Done? ==> r.settings == ApplyAll(c, Directives(lines[..k]), max))
    decreases |file|
  {
    if file != [] {
      var n, lines, rest := FgetsCount(file), Lines(file), Lines(file[FgetsCount(file)..]);
      var first := ParseLine(TextOf(file[..n]));
      LinesNext(file);
      hide ParseLine, TextOf, FgetsCount, Lines;
      if first.Says? {
        var c1 := Apply(c, first.directive, max);
        assert ReadFile(c, file, max) == ReadFile(c1, file[n..], max);
        AcceptedIff(c1, file[n..], max);
        GoodNext(first, rest);
        hide ReadFile, Good, Directives;
        DirectivesNext(c, first, rest, Good(rest), max);
      } else {
        assert Good(lines) == 0 && Directives(lines[..0]) == [];
      }
    }
  }

  lemma DirectivesNext(c: Settings, first: Line, rest: seq<Line>, k: nat, max: nat)
    requires first.Says? && k <= |rest| && forall i :: 0 <= i < k ==> rest[i].Says?
    ensures var lines := ([first] + rest)[..k + 1];
      && (forall i :: 0 <= i < k + 1 ==> lines[i].Says?)
      && ApplyAll(c, Directives(lines), max) == ApplyAll(Apply(c, first.directive, max), Directives(rest[..k]), max)
  {
    hide Apply;
    assert ([first] + rest)[..k + 1] == [first] + rest[..k];
    assert Directives([first] + rest[..k])[1..] == Directives(rest[..k]);
  }

  lemma LinesNext(file: string)
    requires file != []
    ensures var n := FgetsCount(file); Lines(file) == [ParseLine(TextOf(file[..n]))] + Lines(file[n..])
  {
    hide ParseLine, TextOf, FgetsCount;
  }

  lemma GoodNext(first: Line, rest: seq<Line>)
    requires first.Says?
    ensures Good([first] + rest) == Good(rest) + 1
  {
    assert ([first] + rest)[1..] == rest;
  }

  /** Directives written on whole lines are read before whatever follows them. */
  lemma {:induction false} ReadsOn(c: Settings, ds: seq<Directive>, ls: seq<Layout>, more: string, max: nat)
    requires |ds| == |ls| && forall i :: 0 <= i < |ds| ==> WellFormed(ds[i], ls[i], false)
    ensures ReadFile(c, PrintFile(ds, ls) + more, max) == ReadFile(ApplyAll(c, ds, max), more, max)
    decreases |ds|
  {
    if ds == [] {
      assert PrintFile(ds, ls) + more == more;
    } else {
      var d, l, rest := ds[0], ls[0], PrintFile(ds[1..], ls[1..]) + more;
      LineReadsBack(d, l, false);
      TakesWholeLine(d, l, false, rest);
      hide PrintLine, ParseLine, FgetsCount, TextOf, WellFormed;
      var line := PrintLine(d, l);
      assert PrintFile(ds, ls) + more == line + rest;
      assert (line + rest)[..|line|] == line && (line + rest)[|line|..] == rest;
      ReadsOn(Apply(c, d, max), ds[1..], ls[1..], more, max);
    }
  }

  /** A blank line, anywhere behind directives, makes the file malformed: nothing behind it is read. */
  lemma BlankLineRefuses(c: Settings, ds: seq<Directive>, ls: seq<Layout>, blank: string, more: string, max: nat)
    requires |ds| == |ls| && forall i :: 0 <= i < |ds| ==> WellFormed(ds[i], ls[i], false)
    requires Blank(blank) && |blank| < MAX_LINE_LENGTH - 1
    ensures ReadFile(c, PrintFile(ds, ls) + (blank + [LF] + more), max) == Done(false, ApplyAll(c, ds, max))
  {
    ReadsOn(c, ds, ls, blank + [LF] + more, max);
    BlankPiece(blank, more);
    hide FgetsCount, TextOf, ParseLine;
  }

  lemma BlankPiece(blank: string, more: string)
    requires Blank(blank) && |blank| < MAX_LINE_LENGTH - 1
    ensures var file := blank + [LF] + more;
      FgetsCount(file) == |blank| + 1 && ParseLine(TextOf(file[..|blank| + 1])) == Malformed
  {
    WholeLine(blank, more);
    var line := blank + [LF];
    assert forall i :: 0 <= i < |blank| ==> line[i] == blank[i];
    SkipBlanksOf(blank, [LF]);
    FirstOfIs(line, |blank|, {' ', '\t', LF}, |blank|);
    assert TakeToken(line).0 == [];
  }

  /** So does any line whose first word is not one of the four keywords: a misspelt one, or a comment. */
  lemma UnknownKeywordRefuses(c: Settings, ds: seq<Directive>, ls: seq<Layout>, line: string, more: string, max: nat)
    requires |ds| == |ls| && forall i :: 0 <= i < |ds| ==> WellFormed(ds[i], ls[i], false)
    requires Plain(line) && |line| < MAX_LINE_LENGTH - 1
    requires TakeToken(line + [LF]).0 !in {"contenttype", "listen", "documentroot", "logfile"}
    ensures ReadFile(c, PrintFile(ds, ls) + (line + [LF] + more), max) == Done(false, ApplyAll(c, ds, max))
  {
    ReadsOn(c, ds, ls, line + [LF] + more, max);
    LineIs(line + [LF]);
    WholeLine(line, more);
    hide FgetsCount, TextOf, ParseLine, TakeToken;
  }

  lemma WholeLine(line: string, more: string)
    requires Plain(line) && |line| < MAX_LINE_LENGTH - 1
    ensures var file := line + [LF] + more;
      FgetsCount(file) == |line| + 1 && TextOf(file[..|line| + 1]) == line + [LF]
  {
    var file, whole := line + [LF] + more, line + [LF];
    assert forall i :: 0 <= i < |line| ==> file[i] == line[i] && whole[i] == line[i];
    FirstOfIs(file, 0, {LF}, |line|);
    FirstOfIs(whole, 0, {NUL}, |whole|);
    assert file[..|line| + 1] == whole;
  }

  /** A documentroot of more than 253 characters makes the file malformed: the characters that do not fit
      the line buffer are taken for the keyword of a new line. */
  lemma LongPathRefuses(c: Settings, path: string, more: string, max: nat)
    requires Word(path) && |path| > 253
    ensures ReadFile(c, "documentroot " + path + [LF] + more, max) ==
      Done(false, Apply(c, DocumentRoot(path[..241]), max))
  {
    var file := "documentroot " + path + [LF] + more;
    var head, tail := "documentroot " + path[..241], path[241..] + [LF] + more;
    assert file == head + tail;
    LongHead(path[..241], tail);
    LongTail(path[241..], more);
    hide FgetsCount, TextOf, ParseLine, Word;
    assert (head + tail)[..254] == head && (head + tail)[254..] == tail;
  }

  lemma LongHead(path: string, tail: string)
    requires Word(path) && |path| == 241
    ensures var head := "documentroot " + path;
      FgetsCount(head + tail) == 254 && ParseLine(TextOf(head)) == Says(DocumentRoot(path))
  {
    var d, l := DocumentRoot(path), Layout("", " ", " ", "");
    assert PrintLine(d, l) == "documentroot " + path;
    LineReadsBack(d, l, true);
    PlainWords(d, l);
    assert PrintWords(d, l) == "documentroot " + path;
    hide *;
    LongPiece("documentroot " + path, tail);
  }

  lemma LongPiece(head: string, tail: string)
    requires Plain(head) && |head| == MAX_LINE_LENGTH - 1
    ensures FgetsCount(head + tail) == |head| && TextOf(head) == head
  {
    FirstOfIs(head, 0, {NUL}, |head|);
    assert forall i :: 0 <= i < |head| ==> (head + tail)[i] == head[i];
  }

  lemma LongTail(word: string, more: string)
    requires Word(word) && |word| > 12
    ensures var file := word + [LF] + more;
      ParseLine(TextOf(file[..FgetsCount(file)])) == Malformed
  {
    var file := word + [LF] + more;
    assert forall i :: 0 <= i < |word| ==> file[i] == word[i];
    FirstOfIs(file, 0, {LF}, |word|);
    var n := FgetsCount(file);
    var piece := file[..n];
    FirstOfIs(piece, 0, {NUL}, n);
    assert TextOf(piece) == piece && n > 12;
    var end := if |word| < n then |word| else n;
    assert SkipBlanks(piece) == 0;
    FirstOfIs(piece, 0, {' ', '\t', LF}, end);
    assert |TakeToken(piece).0| == end > 12;
  }

  // ----- what a list of directives amounts to -----

  /** The content-type settings among the directives, in order. */
  function TypeSettings(ds: seq<Directive>): seq<(string, string)> {
    if ds == [] then [] else
      Setting(ds[0]) + TypeSettings(ds[1..])
  }

  function Setting(d: Directive): seq<(string, string)> {
    if d.ContentType? then [(d.ending, d.type_)] else []
  }

  /** Directive i is the last of its kind. */
  ghost predicate LastOf(ds: seq<Directive>, i: nat) {
    i < |ds| && forall j :: i < j < |ds| ==> Keyword(ds[j]) != Keyword(ds[i])
  }

  /** The content types are all passed on, in order. */
  lemma {:induction false} TypesInOrder(c: Settings, ds: seq<Directive>, max: nat)
    ensures ApplyAll(c, ds, max).types == c.types + TypeSettings(ds)
    decreases |ds|
  {
    if ds == [] {
      assert c.types + [] == c.types;
    } else {
      var c1 := Apply(c, ds[0], max);
      assert c1.types == c.types + Setting(ds[0]) && ApplyAll(c, ds, max) == ApplyAll(c1, ds[1..], max);
      TypesInOrder(c1, ds[1..], max);
      var first, rest := Setting(ds[0]), TypeSettings(ds[1..]);
      assert TypeSettings(ds) == first + rest;
      hide *;
      assert c.types + first + rest == c.types + (first + rest);
    }
  }

  /** The last listen, documentroot and logfile directives win. */
  lemma {:induction false} LastWins(c: Settings, ds: seq<Directive>, max: nat, i: nat)
    requires LastOf(ds, i)
    ensures var r := ApplyAll(c, ds, max);
      match ds[i]
      case Listen(interface, port) => r.interface == Cut(interface, max) && r.port == Cut(port, max)
      case DocumentRoot(path) => r.documentRoot == Cut(path, max)
      case LogFile(path) => r.logFile == Cut(path, max)
      case ContentType(_, _) => true
    decreases |ds|
  {
    if i > 0 {
      LastWins(Apply(c, ds[0], max), ds[1..], max, i - 1);
    } else {
      Untouched(Apply(c, ds[0], max), ds[1..], max, Keyword(ds[0]));
    }
  }

  /** What no directive names keeps its value. */
  lemma {:induction false} Untouched(c: Settings, ds: seq<Directive>, max: nat, keyword: string)
    requires forall j :: 0 <= j < |ds| ==> Keyword(ds[j]) != keyword
    ensures var r := ApplyAll(c, ds, max);
      && (keyword == "listen" ==> r.interface == c.interface && r.port == c.port)
      && (keyword == "documentroot" ==> r.documentRoot == c.documentRoot)
      && (keyword == "logfile" ==> r.logFile == c.logFile)
      && (keyword == "contenttype" ==> r.types == c.types)
    decreases |ds|
  {
    if ds != [] {
      Untouched(Apply(c, ds[0], max), ds[1..], max, keyword);
    }
  }

  /** A content type that fits on a line has at most 240 characters. */
  lemma ConfiguredTypeFits(line: string)
    requires |line| < MAX_LINE_LENGTH && forall i :: 0 <= i < |line| - 1 ==> line[i] != LF
    ensures ParseLine(line).Says? && ParseLine(line).directive.ContentType? ==> |ParseLine(line).directive.type_| <= 240
  {
    var (keyword, rest) := TakeToken(line);
    if keyword == "contenttype" && rest.Some? {
      var (ending, rest1) := TakeToken(rest.value);
      assert |rest.value| <= |line| - 12;
      if rest1.Some? {
        assert |rest1.value| <= |rest.value| - |ending| - 1;
        if ending == [] {
          var k := SkipBlanks(rest.value);
          assert rest.value[k] == LF == line[|line| - |rest.value| + k];
        }
      }
    }
  }
}
