/** C strings: a buffer of characters read from an offset up to the first NUL. */
module CStrings {
  const NUL: char := '\0'
  const LF: char := '\n'

  /** A NUL stands at or after offset i, so a C string may be read there. */
  ghost predicate Terminated(s: seq<char>, i: nat) {
    exists j :: i <= j < |s| && s[j] == NUL
  }

  /** The index of the first NUL at or after i. */
  function StrEnd(s: seq<char>, i: nat): (e: nat)
    requires Terminated(s, i)
    ensures i <= e < |s| && s[e] == NUL && NUL !in s[i..e]
    decreases |s| - i
  {
    if s[i] == NUL then i else StrEnd(s, i + 1)
  }

  /** The C string that starts at offset i, without its terminator. */
  function CStr(s: seq<char>, i: nat): (r: string)
    requires Terminated(s, i)
    ensures NUL !in r
  {
    s[i..StrEnd(s, i)]
  }

  /** The buffer holds exactly the C string t at offset i. */
  lemma {:induction false} CStrIs(s: seq<char>, i: nat, t: string)
    requires NUL !in t && i + |t| < |s| && s[i..i + |t|] == t && s[i + |t|] == NUL
    ensures Terminated(s, i) && StrEnd(s, i) == i + |t| && CStr(s, i) == t
  {
    assert forall k :: i <= k < i + |t| ==> s[k] == t[k - i];
    assert forall k :: i <= k < StrEnd(s, i) ==> s[k] == s[i..StrEnd(s, i)][k - i];
  }

  /** A string followed by its terminator is that C string. */
  lemma CStrOfCopy(t: string)
    requires NUL !in t
    ensures Terminated(t + [NUL], 0) && CStr(t + [NUL], 0) == t
  {
    assert (t + [NUL])[0..0 + |t|] == t;
    CStrIs(t + [NUL], 0, t);
  }

  /** The index of the first character at or after i that is in stops, or the length of t. */
  function FirstOf(t: seq<char>, i: nat, stops: set<char>): (k: nat)
    requires i <= |t|
    ensures i <= k <= |t|
    ensures forall m :: i <= m < k ==> t[m] !in stops
    ensures k < |t| ==> t[k] in stops
    decreases |t| - i
  {
    if i == |t| || t[i] in stops then i else FirstOf(t, i + 1, stops)
  }

  lemma FirstOfIs(t: seq<char>, i: nat, stops: set<char>, k: nat)
    requires i <= k <= |t| && (forall m :: i <= m < k ==> t[m] !in stops) && (k < |t| ==> t[k] in stops)
    ensures FirstOf(t, i, stops) == k
  {
  }

  /** FirstOf does not look past the position it finds. */
  lemma {:induction false} FirstOfPrefix(t: seq<char>, more: seq<char>, i: nat, stops: set<char>)
    requires i <= |t|
    ensures FirstOf(t, i, stops) < |t| ==> FirstOf(t + more, i, stops) == FirstOf(t, i, stops)
    ensures FirstOf(t, i, stops) == |t| && |more| > 0 && more[0] in stops ==> FirstOf(t + more, i, stops) == |t|
    decreases |t| - i
  {
    if i < |t| && t[i] !in stops {
      FirstOfPrefix(t, more, i + 1, stops);
    }
  }

  /** The first n characters of s, or all of it when it is shorter: what strnlen and memcpy keep. */
  function Cut(s: string, n: nat): (r: string)
    ensures r <= s && |r| <= n
    ensures |s| <= n ==> r == s
  {
    if |s| <= n then s else s[..n]
  }

  /** Copies n characters of a from offset i into a fresh buffer and terminates them. */
  method CopyOf(a: array<char>, i: nat, n: nat) returns (copy: array<char>)
    requires i + n <= a.Length
    ensures fresh(copy) && copy[..] == a[i..i + n] + [NUL]
  {
    copy := new char[n + 1];
    for k := 0 to n
      invariant copy[..k] == a[i..i + k]
    {
      copy[k] := a[i + k];
    }
    copy[n] := NUL;
  }

  /** A string literal as the terminated buffer the C compiler lays out for it. */
  method Literal(t: string) returns (buf: array<char>)
    requires NUL !in t
    ensures fresh(buf) && buf[..] == t + [NUL]
    ensures Terminated(buf[..], 0) && CStr(buf[..], 0) == t
  {
    buf := new char[|t| + 1];
    for k := 0 to |t|
      invariant buf[..k] == t[..k]
    {
      buf[k] := t[k];
    }
    buf[|t|] := NUL;
    assert buf[..] == t + [NUL];
    CStrOfCopy(t);
  }
}
