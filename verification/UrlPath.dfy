/** src/url.c: the automaton that cuts the path out of a request target. */
module UrlPath {
  import opened CStrings

  // ----- what the automaton computes -----

  /** Where a path lies within the scanned text, if there is one. */
  datatype Slice = NoPath | Slice(start: nat, length: nat)

  /** From s up to the next query or fragment. */
  function PathFrom(t: seq<char>, s: nat): (r: Slice)
    requires s <= |t|
  {
    Slice(s, FirstOf(t, s, {'#', '?'}) - s)
  }

  /** The decomposition of the text: the first of ':', '#', '?' decides between a plain path, a scheme
      with a server, and the form with a port. */
  function PathSlice(t: seq<char>): Slice {
    var colon := FirstOf(t, 0, {':', '#', '?'});
    if colon == |t| || t[colon] != ':' then
      Slice(0, colon)
    else if colon + 1 < |t| && t[colon + 1] != '/' then
      var slash := FirstOf(t, colon + 2, {'/'});
      if slash == |t| then NoPath else PathFrom(t, slash + 1)
    else if colon + 3 < |t| && t[colon + 2] == '/' then
      // The character after the second slash belongs to the server whatever it is.
      var slash := FirstOf(t, colon + 4, {'/'});
      if slash == |t| then NoPath else PathFrom(t, slash)
    else
      NoPath
  }

  /** The characters the loop reads: up to the limit, but no further than the first NUL, which is read
      too unless it is the very first character. */
  ghost function Scanned(u: seq<char>, limit: nat): (t: seq<char>)
    requires |u| > 0 && (limit <= |u| || Terminated(u, 0))
    ensures |t| <= limit && t <= u
    ensures forall k :: 0 <= k < |t| - 1 ==> t[k] != NUL
    ensures |t| > 0 ==> t[0] != NUL
    ensures |t| < limit ==> u[0] == NUL || (|t| > 0 && t[|t| - 1] == NUL)
  {
    if u[0] == NUL then []
    else if Terminated(u, 0) && StrEnd(u, 0) < limit then
      assert forall k :: 0 <= k < StrEnd(u, 0) ==> u[k] == u[0..StrEnd(u, 0)][k];
      u[..StrEnd(u, 0) + 1]
    else
      assert !Terminated(u, 0) || limit <= StrEnd(u, 0);
      assert Terminated(u, 0) ==> forall k :: 0 <= k < StrEnd(u, 0) ==> u[k] == u[0..StrEnd(u, 0)][k];
      u[..limit]
  }

  // ----- the automaton -----

  datatype State = PathOrScheme | SchemeOrPort | Port | FirstSlash | SecondSlash | Server | Path

  /** What being in a state after reading r characters says about the text. */
  ghost predicate Reached(state: State, t: seq<char>, r: nat, start: nat)
    requires r <= |t|
  {
    var colon := FirstOf(t, 0, {':', '#', '?'});
    match state
    case PathOrScheme => r <= colon && start == 0
    case SchemeOrPort => r == colon + 1 && t[colon] == ':'
    case Port =>
      && colon + 2 <= r && t[colon] == ':' && t[colon + 1] != '/'
      && r <= FirstOf(t, colon + 2, {'/'})
    case FirstSlash => r == colon + 2 && t[colon] == ':' && t[colon + 1] == '/'
    case SecondSlash => r == colon + 3 && t[colon] == ':' && t[colon + 1] == t[colon + 2] == '/'
    case Server =>
      && colon + 4 <= r && t[colon] == ':' && t[colon + 1] == t[colon + 2] == '/'
      && r <= FirstOf(t, colon + 4, {'/'})
    case Path =>
      && start <= r && PathSlice(t) == PathFrom(t, start)
      && r <= FirstOf(t, start, {'#', '?'})
  }

  /** What the character at r does to each state. */
  lemma ReachedNext(state: State, t: seq<char>, r: nat, start: nat)
    requires r < |t| && Reached(state, t, r, start)
    ensures var mark := t[r] == '#' || t[r] == '?'; var slash := t[r] == '/';
      match state
      case PathOrScheme =>
        if mark then PathSlice(t) == Slice(start, r - start)
        else Reached(if t[r] == ':' then SchemeOrPort else PathOrScheme, t, r + 1, start)
      case SchemeOrPort => Reached(if slash then FirstSlash else Port, t, r + 1, start)
      case Port => if slash then Reached(Path, t, r + 1, r + 1) else Reached(Port, t, r + 1, start)
      case FirstSlash => if slash then Reached(SecondSlash, t, r + 1, start) else PathSlice(t) == NoPath
      case SecondSlash => Reached(Server, t, r + 1, start)
      case Server => if slash then Reached(Path, t, r + 1, r) else Reached(Server, t, r + 1, start)
      case Path =>
        start <= r && if mark then PathSlice(t) == Slice(start, r - start) else Reached(Path, t, r + 1, start)
  {
    hide FirstOf;
    var colon := FirstOf(t, 0, {':', '#', '?'});
    match state {
      case PathOrScheme =>
      case Port => assert r < FirstOf(t, colon + 2, {'/'}) <==> t[r] != '/';
      case Server => assert r < FirstOf(t, colon + 4, {'/'}) <==> t[r] != '/';
      case Path => assert r < FirstOf(t, start, {'#', '?'}) <==> t[r] != '#' && t[r] != '?';
      case _ =>
    }
  }

  lemma ReachedStart(t: seq<char>)
    ensures Reached(PathOrScheme, t, 0, 0)
  {
  }

  lemma ReachedEnd(state: State, t: seq<char>, start: nat)
    requires Reached(state, t, |t|, start)
    ensures PathSlice(t) == if state == Path || state == PathOrScheme then Slice(start, |t| - start) else NoPath
  {
  }

  /** The offset that stands for a NULL path pointer. */
  const NULL := -1

  /** url_getPath: 0 and the slice when there is a path, -1 and NULL otherwise. */
  method UrlGetPath(url: array<char>, urlMaxLength: nat) returns (code: int, path: int, pathLength: nat)
    requires url.Length > 0 && (urlMaxLength <= url.Length || Terminated(url[..], 0))
    ensures var slice := PathSlice(Scanned(url[..], urlMaxLength));
      if slice.NoPath? then code == -1 && path == NULL && pathLength == 0
      else code == 0 && path == slice.start && pathLength == slice.length
  {
    hide Reached, PathSlice, PathFrom;
    ghost var t := Scanned(url[..], urlMaxLength);
    assert Reached(PathOrScheme, t, 0, 0) by { ReachedStart(t); }
    hide Scanned;
    var readIndex, startIndex := 0, 0;
    path := 0;
    var state := PathOrScheme;
    var readChar := url[0];
    while readIndex < urlMaxLength && readChar != NUL
      invariant readIndex <= |t|
      invariant readChar == if readIndex == 0 then url[0] else t[readIndex - 1]
      invariant Reached(state, t, readIndex, startIndex)
      invariant state == PathOrScheme || state == Path ==> path == startIndex <= readIndex
      decreases |t| - readIndex
    {
      assert readIndex < |t|;
      readChar := url[readIndex];
      assert readChar == t[readIndex];
      ReachedNext(state, t, readIndex, startIndex);
      match state {
      case PathOrScheme =>
        if readChar == ':' {
          path := NULL;
          state := SchemeOrPort;
        } else if readChar == '#' || readChar == '?' {
          return 0, path, readIndex - startIndex;
        }
      case SchemeOrPort =>
        state := if readChar == '/' then FirstSlash else Port;
      case Port =>
        if readChar == '/' {
          state := Path;
          startIndex := readIndex + 1;
          path := startIndex;
        }
      case FirstSlash =>
        if readChar == '/' {
          state := SecondSlash;
        } else {
          return -1, NULL, 0;
        }
      case SecondSlash =>
        state := Server;
      case Server =>
        if readChar == '/' {
          state := Path;
          startIndex := readIndex;
          path := startIndex;
        }
      case Path =>
        if readChar == '#' || readChar == '?' {
          return 0, path, readIndex - startIndex;
        }
      }
      readIndex := readIndex + 1;
    }
    assert readIndex == |t|;
    ReachedEnd(state, t, startIndex);
    if state == Path || state == PathOrScheme {
      return 0, path, readIndex - startIndex;
    }
    return -1, NULL, 0;
  }

  // ----- what the slice is worth -----

  /** The slice lies inside the text, holds no query or fragment mark, and cannot be extended: it ends at
      such a mark or at the end of the text. */
  lemma SliceIsMaximal(t: seq<char>)
    requires PathSlice(t).Slice?
    ensures var s := PathSlice(t); var end := s.start + s.length;
      && end <= |t| && '#' !in t[s.start..end] && '?' !in t[s.start..end]
      && (end < |t| ==> t[end] == '#' || t[end] == '?')
      && (s.start > 0 ==> t[s.start - 1] == '/' || (s.start < |t| && t[s.start] == '/'))
  {
    var s := PathSlice(t);
    assert forall k :: s.start <= k < s.start + s.length ==> t[k] != '#' && t[k] != '?';
  }

  /** There is a path exactly when the text has no colon before a query or fragment mark, or the colon is
      followed by a port part and a slash, or by two slashes, a character and, further on, a slash. */
  lemma PathExistsIff(t: seq<char>)
    ensures PathSlice(t).Slice? <==>
      var colon := FirstOf(t, 0, {':', '#', '?'});
      || colon == |t| || t[colon] != ':'
      || (colon + 1 < |t| && t[colon + 1] != '/' && '/' in t[colon + 2..])
      || (colon + 3 < |t| && t[colon + 1] == t[colon + 2] == '/' && '/' in t[colon + 4..])
  {
    var colon := FirstOf(t, 0, {':', '#', '?'});
    if colon + 1 < |t| {
      SlashFound(t, colon + 2);
    }
    if colon + 3 < |t| {
      SlashFound(t, colon + 4);
    }
  }

  lemma SlashFound(t: seq<char>, i: nat)
    requires i <= |t|
    ensures FirstOf(t, i, {'/'}) < |t| <==> '/' in t[i..]
  {
    var k := FirstOf(t, i, {'/'});
    if k < |t| {
      assert t[i..][k - i] == '/';
    }
    if m :| i <= m < |t| && t[m] == '/' {
      assert k <= m;
    }
    assert '/' in t[i..] ==> exists m :: i <= m < |t| && t[m] == '/' by {
      if '/' in t[i..] {
        var m :| 0 <= m < |t[i..]| && t[i..][m] == '/';
        assert t[i + m] == '/';
      }
    }
  }

  // ----- query and fragment do not matter -----

  /** A query or fragment behind a text that has a path leaves the path as it is. */
  lemma SuffixIrrelevant(t: seq<char>, mark: char, more: seq<char>)
    requires mark == '?' || mark == '#'
    requires PathSlice(t).Slice?
    ensures PathSlice(t + ([mark] + more)) == PathSlice(t)
  {
    hide FirstOf;
    var w := [mark] + more;
    var u, colon := t + w, FirstOf(t, 0, {':', '#', '?'});
    FirstOfPrefix(t, w, 0, {':', '#', '?'});
    assert u[|t|] == mark && forall i :: 0 <= i < |t| ==> u[i] == t[i];
    if colon == |t| || t[colon] != ':' {
      assert PathSlice(u) == Slice(0, colon);
    } else {
      var port := t[colon + 1] != '/';
      var from := if port then colon + 2 else colon + 4;
      var slash := FirstOf(t, from, {'/'});
      assert from <= |t| && slash < |t|;
      hide PathSlice;
      var start := if port then slash + 1 else slash;
      FirstOfPrefix(t, w, from, {'/'});
      FirstOfPrefix(t, w, start, {'#', '?'});
      BehindSlash(t, colon, slash);
      BehindSlash(u, colon, slash);
    }
  }

  /** The path of a text with a colon begins at or behind a slash. */
  lemma BehindSlash(t: seq<char>, colon: nat, slash: nat)
    requires FirstOf(t, 0, {':', '#', '?'}) == colon && colon + 1 < |t| && t[colon] == ':'
    requires var port := t[colon + 1] != '/';
      && (port || (colon + 3 < |t| && t[colon + 2] == '/'))
      && slash < |t| && FirstOf(t, if port then colon + 2 else colon + 4, {'/'}) == slash
    ensures PathSlice(t) == PathFrom(t, if t[colon + 1] != '/' then slash + 1 else slash)
  {
    hide FirstOf;
  }

  /** What url_getPath makes of the C string u when its limit is the length of u. */
  ghost function PathOf(u: string): Slice {
    PathSlice(Scanned(u + [NUL], |u|))
  }

  /** Query and fragment do not matter: the same slice with and without them. */
  lemma QueryIrrelevant(u: string, mark: char, more: string)
    requires NUL !in u && (mark == '?' || mark == '#') && PathOf(u).Slice?
    ensures PathOf(u + [mark] + more) == PathOf(u)
  {
    var w := u + [mark] + more;
    var t, t' := Scanned(u + [NUL], |u|), Scanned(w + [NUL], |w|);
    assert t == u by {
      assert forall k :: 0 <= k < |u| ==> (u + [NUL])[k] == u[k];
    }
    assert forall k :: 0 <= k <= |u| ==> (w + [NUL])[k] == (u + [mark])[k];
    assert |t'| > |u|;
    assert t' == t + ([mark] + t'[|u| + 1..]);
    SuffixIrrelevant(t, mark, t'[|u| + 1..]);
  }

  // ----- the path as a C string in a token buffer -----

  /** The path without the NUL the loop may have counted. */
  function Trimmed(t: seq<char>, slice: Slice): string
    requires slice.Slice? && slice.start + slice.length <= |t|
  {
    var p := t[slice.start..slice.start + slice.length];
    if p != [] && p[|p| - 1] == NUL then p[..|p| - 1] else p
  }

  /** In a buffer whose string ends two bytes before its capacity, terminating the path stays inside the
      buffer and makes the pointer a C string: the slice itself, less a NUL that was counted with it. */
  lemma TerminatedPath(url: seq<char>)
    requires Terminated(url, 0) && StrEnd(url, 0) + 2 <= |url|
    requires PathSlice(Scanned(url, |url|)).Slice?
    ensures var t := Scanned(url, |url|); var s := PathSlice(t); var at := s.start + s.length;
      && at < |url|
      && Terminated(url[at := NUL], s.start) && CStr(url[at := NUL], s.start) == Trimmed(t, s)
      && |Trimmed(t, s)| == if at < |t| || at == 0 then s.length else s.length - 1
  {
    hide PathSlice, Scanned, CStr, Trimmed, StrEnd;
    ScannedWhole(url);
    SliceIsMaximal(Scanned(url, |url|));
    hide *;
    TerminatedSlice(url, Scanned(url, |url|), PathSlice(Scanned(url, |url|)));
  }

  lemma ScannedWhole(url: seq<char>)
    requires Terminated(url, 0)
    ensures Scanned(url, |url|) == var e := StrEnd(url, 0); if e == 0 then [] else url[..e + 1]
  {
  }

  lemma TerminatedSlice(url: seq<char>, t: seq<char>, s: Slice)
    requires Terminated(url, 0) && StrEnd(url, 0) + 2 <= |url|
    requires t == var e := StrEnd(url, 0); if e == 0 then [] else url[..e + 1]
    requires s.Slice? && s.start + s.length <= |t|
    requires s.start > 0 ==> t[s.start - 1] == '/' || (s.start < |t| && t[s.start] == '/')
    ensures var at := s.start + s.length;
      && at < |url|
      && Terminated(url[at := NUL], s.start) && CStr(url[at := NUL], s.start) == Trimmed(t, s)
      && |Trimmed(t, s)| == if at < |t| || at == 0 then s.length else s.length - 1
  {
    hide CStr, Trimmed, StrEnd;
    var e := StrEnd(url, 0);
    assert url[0..e] == url[..e];
    StartsInside(url, e, t, s);
    hide *;
    TerminateAt(url, e, s.start, s.length);
    TrimmedIs(url, e, t, s);
  }

  lemma StartsInside(url: seq<char>, e: nat, t: seq<char>, s: Slice)
    requires e < |url| && url[e] == NUL && t == if e == 0 then [] else url[..e + 1]
    requires s.Slice? && s.start + s.length <= |t|
    requires s.start > 0 ==> t[s.start - 1] == '/' || (s.start < |t| && t[s.start] == '/')
    ensures s.start <= e
  {
    assert e > 0 ==> t[e] == NUL;
  }

  lemma TrimmedIs(url: seq<char>, e: nat, t: seq<char>, s: Slice)
    requires e < |url| && url[e] == NUL && NUL !in url[..e] && t == if e == 0 then [] else url[..e + 1]
    requires s.Slice? && s.start + s.length <= |t| && s.start <= e
    ensures var at := s.start + s.length;
      && Trimmed(t, s) == url[s.start..if at == e + 1 then e else at]
      && |Trimmed(t, s)| == if at < |t| || at == 0 then s.length else s.length - 1
  {
    var at := s.start + s.length;
    var p := t[s.start..at];
    assert p == url[s.start..at];
    if p != [] {
      assert p[|p| - 1] == url[at - 1];
      assert at - 1 < e ==> url[at - 1] == url[..e][at - 1];
    }
  }

  lemma TerminateAt(url: seq<char>, e: nat, start: nat, length: nat)
    requires e + 2 <= |url| && url[e] == NUL && NUL !in url[..e]
    requires start <= e && start + length <= e + 1
    ensures var at := start + length; var p := url[start..if at == e + 1 then e else at];
      && Terminated(url[at := NUL], start) && CStr(url[at := NUL], start) == p
  {
    var at := start + length;
    var p, ended := url[start..if at == e + 1 then e else at], url[at := NUL];
    assert forall k :: start <= k < start + |p| ==> url[k] == url[..e][k];
    assert ended[start..start + |p|] == p;
    CStrIs(ended, start, p);
  }
}
