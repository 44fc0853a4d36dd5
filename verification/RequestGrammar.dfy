/** The requests that src/http.c accepts, as a grammar over the byte stream. */
module RequestGrammar {
  import opened CStrings
  import opened Wrappers

  const CR: char := '\r'
  const SPACE: char := ' '
  const CRLF: string := [CR, LF]

  const MAX_TOKEN_LENGTH := 65536

  datatype Kind = GET | HEAD

  function MethodName(kind: Kind): string {
    match kind case GET => "GET" case HEAD => "HEAD"
  }

  /** toupper in the C locale. */
  function ToUpper(c: char): char {
    if 'a' <= c <= 'z' then c - 'a' + 'A' else c
  }

  function Upper(s: string): (u: string)
    ensures |u| == |s| && forall i :: 0 <= i < |s| ==> u[i] == ToUpper(s[i])
  {
    seq(|s|, i requires 0 <= i < |s| => ToUpper(s[i]))
  }

  // ----- letters in either case -----

  /** The character is this one or, if this is a capital letter, the small one: 32 further on. */
  predicate SpellsLetter(c: char, letter: char) {
    c == letter || (65 <= letter as int <= 90 && c as int == letter as int + 32)
  }

  /** The text is this word, each letter in either case. */
  predicate Spells(s: string, word: string) {
    |s| == |word| && forall i :: 0 <= i < |s| ==> SpellsLetter(s[i], word[i])
  }

  /** Two characters differ at most in case. */
  predicate SameLetter(a: char, b: char) {
    || a == b
    || (65 <= a as int <= 90 && b as int == a as int + 32)
    || (65 <= b as int <= 90 && a as int == b as int + 32)
  }

  predicate SameButCase(s: string, t: string) {
    |s| == |t| && forall i :: 0 <= i < |s| ==> SameLetter(s[i], t[i])
  }

  predicate NoSmallLetter(word: string) {
    forall i :: 0 <= i < |word| ==> !(97 <= word[i] as int <= 122)
  }

  /** Raising a text yields a word without small letters exactly when it is a spelling of that word. */
  lemma UpperIff(s: string, word: string)
    requires NoSmallLetter(word)
    ensures Upper(s) == word <==> Spells(s, word)
  {
    if |s| == |word| {
      assert forall i :: 0 <= i < |s| ==> (Upper(s)[i] == word[i] <==> SpellsLetter(s[i], word[i]));
    }
  }

  // ----- the parts of a request -----

  /** Everything a request is made of, as it stands in the stream. */
  datatype Parts = Parts(breaks: string, word: string, url: string, scheme: string,
                         majVersion: char, minVersion: char, headers: string)

  /** The bytes of a request. */
  function Join(p: Parts): string {
    p.breaks + (p.word + [SPACE] + (p.url + [SPACE] +
      (p.scheme + [p.majVersion] + ['.'] + [p.minVersion] + CRLF + p.headers)))
  }

  /** The header part is read up to and including the first empty line. */
  ghost predicate EndsAtEmptyLine(headers: string) {
    && EndsWith(CRLF + headers, CRLF + CRLF)
    && NoneEarlier(CRLF, headers)
  }

  predicate EndsWith(s: string, suffix: string) {
    |s| >= |suffix| && s[|s| - |suffix|..] == suffix
  }

  /** Any run of CR and LF, GET or HEAD in any case, a space, a target of at most limit characters, a
      space, HTTP/x.y with any two characters, CRLF, and the header part. */
  ghost predicate WellFormed(p: Parts, kind: Kind, limit: int) {
    && (forall i :: 0 <= i < |p.breaks| ==> p.breaks[i] in {CR, LF})
    && Spells(p.word, if kind == GET then "GET" else "HEAD")
    && |p.url| <= limit && (forall i :: 0 <= i < |p.url| ==> p.url[i] !in {SPACE, CR, LF})
    && Spells(p.scheme, "HTTP/")
    && EndsAtEmptyLine(p.headers)
  }

  // ----- the deterministic reading of a stream -----

  function SkipBreaks(s: string): string {
    if s != [] && s[0] in {CR, LF} then SkipBreaks(s[1..]) else s
  }

  function AfterMethod(s: string): Option<(Kind, string)> {
    var t := SkipBreaks(s);
    if |t| >= 4 && Upper(t[..4]) == "GET " then Some((GET, t[4..]))
    else if |t| >= 5 && Upper(t[..5]) == "HEAD " then Some((HEAD, t[5..]))
    else None
  }

  function AfterToken(s: string, limit: int): Option<(string, string)> {
    var b := FirstOf(s, 0, {SPACE, CR, LF});
    if b < |s| && s[b] == SPACE && b <= limit then Some((s[..b], s[b + 1..])) else None
  }

  function AfterVersion(s: string): Option<(char, char, string)> {
    if |s| >= 10 && Upper(s[..5]) == "HTTP/" && s[6] == '.' && s[8] == CR && s[9] == LF then
      Some((s[5], s[7], s[10..]))
    else None
  }

  /** What is left of s once the text w read so far, counted from the last CRLF, ends in an empty line. */
  function HeadersFrom(w: string, s: string): Option<string>
    decreases |s|
  {
    if EndsWith(w, CRLF + CRLF) then Some(s)
    else if s == [] then None
    else HeadersFrom(w + [s[0]], s[1..])
  }

  datatype Request = Request(kind: Kind, url: string, majVersion: char, minVersion: char)

  /** The first request of a stream and what follows it. */
  function ParseRequest(s: string, limit: int): Option<(Request, string)> {
    match AfterMethod(s)
    case None => None
    case Some((kind, s1)) =>
      match AfterToken(s1, limit)
      case None => None
      case Some((url, s2)) =>
        match AfterVersion(s2)
        case None => None
        case Some((maj, min, s3)) =>
          match HeadersFrom(CRLF, s3)
          case None => None
          case Some(rest) => Some((Request(kind, url, maj, min), rest))
  }

  // ----- the reading is exactly the grammar -----

  /** A stream starts with a request exactly when it is read as one, and only in one way. */
  lemma ParseIff(s: string, limit: int, r: Request, rest: string)
    ensures ParseRequest(s, limit) == Some((r, rest)) <==>
      exists p: Parts :: Stands(p, s, limit, r, rest)
  {
    if ParseRequest(s, limit) == Some((r, rest)) {
      var p := PartsOf(s, limit, r, rest);
    }
    if p: Parts :| Stands(p, s, limit, r, rest) {
      ParseJoined(p, limit, r, rest);
    }
  }

  /** The stream is the request with these parts, followed by rest. */
  ghost predicate Stands(p: Parts, s: string, limit: int, r: Request, rest: string) {
    s == Join(p) + rest && WellFormed(p, r.kind, limit)
    && r == Request(r.kind, p.url, p.majVersion, p.minVersion)
  }

  lemma ParseJoined(p: Parts, limit: int, r: Request, rest: string)
    requires Stands(p, Join(p) + rest, limit, r, rest)
    ensures ParseRequest(Join(p) + rest, limit) == Some((r, rest))
  {
    var s3 := p.headers + rest;
    var s2 := p.scheme + [p.majVersion] + ['.'] + [p.minVersion] + CRLF + s3;
    var s1 := p.url + [SPACE] + s2;
    assert Join(p) + rest == p.breaks + (p.word + [SPACE] + s1);
    UpperIff(p.word, MethodName(r.kind));
    UpperIff(p.scheme, "HTTP/");
    MethodJoined(p.breaks, p.word, r.kind, s1);
    TokenJoined(p.url, limit, s2);
    VersionJoined(p.scheme, p.majVersion, p.minVersion, s3);
    HeadersJoined(CRLF, p.headers, rest);
  }

  lemma {:induction false} MethodJoined(breaks: string, word: string, kind: Kind, s: string)
    requires forall i :: 0 <= i < |breaks| ==> breaks[i] in {CR, LF}
    requires Upper(word) == MethodName(kind)
    ensures AfterMethod(breaks + (word + [SPACE] + s)) == Some((kind, s))
  {
    var t := word + [SPACE] + s;
    if breaks == [] {
      assert breaks + t == t;
      assert ToUpper(t[0]) == MethodName(kind)[0];
      var n := |word| + 1;
      assert t[..n] == word + [SPACE] && t[n..] == s;
      assert Upper(t[..n]) == MethodName(kind) + [SPACE];
      assert Upper(t[..4])[0] == ToUpper(t[0]);
    } else {
      assert (breaks + t)[1..] == breaks[1..] + t;
      MethodJoined(breaks[1..], word, kind, s);
    }
  }

  lemma TokenJoined(url: string, limit: int, s: string)
    requires |url| <= limit && forall i :: 0 <= i < |url| ==> url[i] !in {SPACE, CR, LF}
    ensures AfterToken(url + [SPACE] + s, limit) == Some((url, s))
  {
    var t := url + [SPACE] + s;
    var b := FirstOf(t, 0, {SPACE, CR, LF});
    assert t[|url|] == SPACE;
    assert forall i :: 0 <= i < |url| ==> t[i] == url[i];
    assert b == |url| && t[..b] == url && t[b + 1..] == s;
  }

  lemma VersionJoined(scheme: string, maj: char, min: char, s: string)
    requires Upper(scheme) == "HTTP/"
    ensures AfterVersion(scheme + [maj] + ['.'] + [min] + CRLF + s) == Some((maj, min, s))
  {
    var t := scheme + [maj] + ['.'] + [min] + CRLF + s;
    assert t[..5] == scheme && t[10..] == s;
  }

  lemma {:induction false} HeadersJoined(w: string, headers: string, rest: string)
    requires EndsWith(w + headers, CRLF + CRLF) && NoneEarlier(w, headers)
    ensures HeadersFrom(w, headers + rest) == Some(rest)
    decreases |headers|
  {
    if headers == [] {
      assert w + headers == w && headers + rest == rest;
    } else {
      assert w + headers[..0] == w;
      var h := headers[1..];
      assert w + [headers[0]] + h == w + headers;
      NoneEarlierStep(w, headers[0], h);
      assert headers == [headers[0]] + h;
      HeadersJoined(w + [headers[0]], h, rest);
      assert (headers + rest)[1..] == h + rest;
    }
  }

  lemma PartsOf(s: string, limit: int, r: Request, rest: string) returns (p: Parts)
    requires ParseRequest(s, limit) == Some((r, rest))
    ensures Stands(p, s, limit, r, rest)
  {
    hide AfterMethod, AfterToken, AfterVersion, HeadersFrom, EndsWith, NoneEarlier, Spells, Upper;
    var s1, s2, s3 := ParseSteps(s, limit, r, rest);
    hide ParseRequest;
    var breaks, word := MethodParts(s);
    TokenParts(s1, limit);
    VersionParts(s2);
    var headers := HeaderParts(CRLF, s3);
    p := Parts(breaks, word, r.url, s2[..5], r.majVersion, r.minVersion, headers);
    UpperIff(word, MethodName(r.kind));
    UpperIff(s2[..5], "HTTP/");
    JoinedParts(p, s1, s2, s3, rest);
    hide *;
    StandsBy(p, s, limit, r, rest);
  }

  /** The four steps of reading a request. */
  lemma ParseSteps(s: string, limit: int, r: Request, rest: string) returns (s1: string, s2: string, s3: string)
    requires ParseRequest(s, limit) == Some((r, rest))
    ensures AfterMethod(s) == Some((r.kind, s1)) && AfterToken(s1, limit) == Some((r.url, s2))
    ensures AfterVersion(s2) == Some((r.majVersion, r.minVersion, s3)) && HeadersFrom(CRLF, s3) == Some(rest)
  {
    hide AfterMethod, AfterToken, AfterVersion, HeadersFrom;
    s1 := AfterMethod(s).value.1;
    s2 := AfterToken(s1, limit).value.1;
    s3 := AfterVersion(s2).value.2;
  }

  lemma StandsBy(p: Parts, s: string, limit: int, r: Request, rest: string)
    requires s == Join(p) + rest && r == Request(r.kind, p.url, p.majVersion, p.minVersion)
    requires forall i :: 0 <= i < |p.breaks| ==> p.breaks[i] in {CR, LF}
    requires Spells(p.word, MethodName(r.kind)) && Spells(p.scheme, "HTTP/")
    requires |p.url| <= limit && forall i :: 0 <= i < |p.url| ==> p.url[i] !in {SPACE, CR, LF}
    requires EndsWith(CRLF + p.headers, CRLF + CRLF) && NoneEarlier(CRLF, p.headers)
    ensures Stands(p, s, limit, r, rest)
  {
    hide Join, EndsWith, NoneEarlier, Spells;
  }

  lemma JoinedParts(p: Parts, s1: string, s2: string, s3: string, rest: string)
    requires s1 == p.url + [SPACE] + s2 && s3 == p.headers + rest
    requires s2 == p.scheme + [p.majVersion] + ['.'] + [p.minVersion] + CRLF + s3
    ensures Join(p) + rest == p.breaks + (p.word + [SPACE] + s1)
  {
    var version := p.scheme + [p.majVersion] + ['.'] + [p.minVersion] + CRLF;
    assert version + (p.headers + rest) == version + p.headers + rest;
  }

  lemma TokenParts(s: string, limit: int)
    requires AfterToken(s, limit).Some?
    ensures var (url, s2) := AfterToken(s, limit).value;
      && s == url + [SPACE] + s2 && |url| <= limit
      && forall i :: 0 <= i < |url| ==> url[i] !in {SPACE, CR, LF}
  {
  }

  lemma VersionParts(s: string)
    requires AfterVersion(s).Some?
    ensures var (maj, min, s3) := AfterVersion(s).value;
      && |s| >= 10 && Upper(s[..5]) == "HTTP/"
      && s == s[..5] + [maj] + ['.'] + [min] + CRLF + s3
  {
  }

  lemma {:induction false} MethodParts(s: string) returns (breaks: string, word: string)
    requires AfterMethod(s).Some?
    ensures (forall i :: 0 <= i < |breaks| ==> breaks[i] in {CR, LF})
    ensures Upper(word) == MethodName(AfterMethod(s).value.0)
    ensures s == breaks + (word + [SPACE] + AfterMethod(s).value.1)
  {
    if s != [] && s[0] in {CR, LF} {
      breaks, word := MethodParts(s[1..]);
      breaks := [s[0]] + breaks;
    } else {
      var n := |MethodName(AfterMethod(s).value.0)|;
      breaks, word := [], s[..n];
      assert Upper(s[..n + 1])[..n] == Upper(word);
      assert ToUpper(s[n]) == SPACE;
    }
  }

  /** No proper prefix of h, read after w, ends in an empty line. */
  ghost predicate NoneEarlier(w: string, h: string) {
    forall n :: 0 <= n < |h| ==> !EndsWith(w + h[..n], CRLF + CRLF)
  }

  lemma NoneEarlierStep(w: string, c: char, h: string)
    requires !EndsWith(w, CRLF + CRLF)
    ensures NoneEarlier(w, [c] + h) <==> NoneEarlier(w + [c], h)
  {
    hide EndsWith;
    assert forall n :: 0 <= n < |h| ==> w + ([c] + h)[..n + 1] == w + [c] + h[..n];
    assert w + ([c] + h)[..0] == w;
    forall n | 0 <= n < |h| && NoneEarlier(w, [c] + h) ensures !EndsWith(w + [c] + h[..n], CRLF + CRLF) {
      assert !EndsWith(w + ([c] + h)[..n + 1], CRLF + CRLF);
    }
    forall n | 0 <= n <= |h| && NoneEarlier(w + [c], h) ensures !EndsWith(w + ([c] + h)[..n], CRLF + CRLF) {
      assert n > 0 ==> w + ([c] + h)[..n - 1 + 1] == w + [c] + h[..n - 1];
    }
  }

  lemma {:induction false} HeaderParts(w: string, s: string) returns (headers: string)
    requires HeadersFrom(w, s).Some?
    ensures s == headers + HeadersFrom(w, s).value
    ensures EndsWith(w + headers, CRLF + CRLF) && NoneEarlier(w, headers)
    decreases |s|
  {
    hide EndsWith, NoneEarlier;
    if EndsWith(w, CRLF + CRLF) {
      headers := [];
      assert w + headers == w && NoneEarlier(w, []) by { NoneEarlierEmpty(w); }
    } else {
      var h := HeaderParts(w + [s[0]], s[1..]);
      headers := [s[0]] + h;
      assert w + headers == w + [s[0]] + h;
      NoneEarlierStep(w, s[0], h);
    }
  }

  lemma NoneEarlierEmpty(w: string)
    ensures NoneEarlier(w, [])
  {
  }

  // ----- the case of letters does not matter -----

  /** Changing the case of any letters of the method and of the scheme changes nothing in what is read. */
  lemma CaseIrrelevant(p: Parts, q: Parts, limit: int, r: Request, rest: string)
    requires Stands(p, Join(p) + rest, limit, r, rest)
    requires q == p.(word := q.word, scheme := q.scheme) && SameButCase(p.word, q.word) && SameButCase(p.scheme, q.scheme)
    ensures WellFormed(q, r.kind, limit)
    ensures ParseRequest(Join(q) + rest, limit) == ParseRequest(Join(p) + rest, limit) == Some((r, rest))
  {
    SameSpelling(p.word, q.word, if r.kind == GET then "GET" else "HEAD");
    SameSpelling(p.scheme, q.scheme, "HTTP/");
    hide Join, Spells, SameButCase, EndsAtEmptyLine;
    ParseJoined(p, limit, r, rest);
    ParseJoined(q, limit, r, rest);
  }

  lemma SameSpelling(s: string, t: string, word: string)
    requires Spells(s, word) && SameButCase(s, t) && NoSmallLetter(word)
    ensures Spells(t, word)
  {
  }

  /** Every spelling of get, head and http/ is read. */
  lemma EverySpelling(word: string, url: string, scheme: string, maj: char, min: char, rest: string, limit: int)
    requires Spells(word, "GET") || Spells(word, "HEAD")
    requires |url| <= limit && (forall i :: 0 <= i < |url| ==> url[i] !in {SPACE, CR, LF}) && Spells(scheme, "HTTP/")
    ensures ParseRequest(word + [SPACE] + url + [SPACE] + scheme + [maj, '.', min] + CRLF + CRLF + rest, limit) ==
      Some((Request(if |word| == 3 then GET else HEAD, url, maj, min), rest))
  {
    var p := Parts("", word, url, scheme, maj, min, CRLF);
    assert EndsAtEmptyLine(CRLF) by { EmptyHeaders(); }
    hide Spells, EndsAtEmptyLine, ParseRequest;
    var r := Request(if |word| == 3 then GET else HEAD, url, maj, min);
    assert |word| == 3 <==> Spells(word, "GET") by { SpellingLength(word); }
    ParseJoined(p, limit, r, rest);
    hide *;
    JoinIs(word, url, scheme, maj, min, rest);
  }

  lemma SpellingLength(word: string)
    requires Spells(word, "GET") || Spells(word, "HEAD")
    ensures |word| == 3 <==> Spells(word, "GET")
  {
  }

  lemma JoinIs(word: string, url: string, scheme: string, maj: char, min: char, rest: string)
    ensures Join(Parts("", word, url, scheme, maj, min, CRLF)) + rest ==
      word + [SPACE] + url + [SPACE] + scheme + [maj, '.', min] + CRLF + CRLF + rest
  {
  }

  lemma EmptyHeaders()
    ensures EndsAtEmptyLine(CRLF)
  {
    assert forall n :: 0 <= n < |CRLF| ==> |CRLF + CRLF[..n]| < |CRLF + CRLF|;
  }

  /** No other word is taken for a method. */
  lemma OtherWordsRefused(word: string, more: string, limit: int)
    requires SPACE !in word && (word != "" ==> word[0] !in {CR, LF})
    requires ParseRequest(word + [SPACE] + more, limit).Some?
    ensures Spells(word, if ParseRequest(word + [SPACE] + more, limit).value.0.kind == GET then "GET" else "HEAD")
  {
    hide AfterMethod, AfterToken, AfterVersion, HeadersFrom, Spells;
    ParseNeeds(word + [SPACE] + more, limit);
    MethodWord(word, more);
  }

  lemma MethodWord(word: string, more: string)
    requires SPACE !in word && (word != "" ==> word[0] !in {CR, LF}) && AfterMethod(word + [SPACE] + more).Some?
    ensures Spells(word, if AfterMethod(word + [SPACE] + more).value.0 == GET then "GET" else "HEAD")
  {
    var s := word + [SPACE] + more;
    MethodNeeded(s);
    hide AfterMethod, Upper;
    assert s[|word|] == SPACE && s[..|word|] == word && forall k :: 0 <= k < |word| ==> s[k] == word[k];
    UpperIff(word, MethodName(AfterMethod(s).value.0));
  }

  /** No other scheme stands before a version. */
  lemma OtherSchemesRefused(p: Parts, kind: Kind, more: string, limit: int)
    requires Spells(p.word, if kind == GET then "GET" else "HEAD") && |p.scheme| == 5
    requires |p.url| <= limit && (forall i :: 0 <= i < |p.url| ==> p.url[i] !in {SPACE, CR, LF})
    requires ParseRequest(p.word + [SPACE] + (p.url + [SPACE] + (p.scheme + more)), limit).Some?
    ensures Spells(p.scheme, "HTTP/")
  {
    hide AfterMethod, AfterToken, AfterVersion, HeadersFrom, Spells;
    var s1 := p.url + [SPACE] + (p.scheme + more);
    ParseNeeds(p.word + [SPACE] + s1, limit);
    hide ParseRequest;
    MethodAlone(p.word, kind, s1);
    TokenJoined(p.url, limit, p.scheme + more);
    SchemeNeeded(p.scheme, more);
  }

  lemma MethodAlone(word: string, kind: Kind, s: string)
    requires Spells(word, if kind == GET then "GET" else "HEAD")
    ensures AfterMethod(word + [SPACE] + s) == Some((kind, s))
  {
    UpperIff(word, MethodName(kind));
    hide AfterMethod, Spells;
    assert "" + (word + [SPACE] + s) == word + [SPACE] + s;
    MethodJoined("", word, kind, s);
  }

  /** A request has all its parts. */
  lemma ParseNeeds(s: string, limit: int)
    requires ParseRequest(s, limit).Some?
    ensures AfterMethod(s).Some?
    ensures ParseRequest(s, limit).value.0.kind == AfterMethod(s).value.0
    ensures AfterToken(AfterMethod(s).value.1, limit).Some?
    ensures AfterVersion(AfterToken(AfterMethod(s).value.1, limit).value.1).Some?
  {
    hide AfterMethod, AfterToken, AfterVersion, HeadersFrom;
  }

  lemma SchemeNeeded(scheme: string, more: string)
    requires |scheme| == 5 && AfterVersion(scheme + more).Some?
    ensures Spells(scheme, "HTTP/")
  {
    VersionParts(scheme + more);
    assert (scheme + more)[..5] == scheme;
    hide AfterVersion;
    UpperIff(scheme, "HTTP/");
  }

  lemma MethodNeeded(s: string)
    requires AfterMethod(s).Some? && s != [] && s[0] !in {CR, LF}
    ensures var (kind, rest) := AfterMethod(s).value; var n := |MethodName(kind)|;
      && n < |s| && s[n] == SPACE && Upper(s[..n]) == MethodName(kind)
      && forall k :: 0 <= k < n ==> s[k] != SPACE
  {
    var n := |MethodName(AfterMethod(s).value.0)|;
    assert Upper(s[..n + 1])[n] == ToUpper(s[n]);
    assert Upper(s[..n]) == Upper(s[..n + 1])[..n];
    assert forall k :: 0 <= k < n ==> ToUpper(s[k]) == Upper(s[..n])[k] == MethodName(AfterMethod(s).value.0)[k];
  }
}
