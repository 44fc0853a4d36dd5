/** src/http.c, reading side: the refillable window, the growing token buffer and http_readRequest. */
module RequestReader {
  import opened CStrings
  import opened Wrappers
  import opened RequestGrammar
  import opened Sockets

  const BUF_SIZE := 255

  /** What getToken returns instead of a delimiter when a read fails. */
  const READ_FAILED: char := 255 as char

  // ----- the capacity of the token buffer -----

  /** The capacity after room has been made for n characters and two spare bytes, by doubling. */
  function GrownTo(capacity: nat, n: nat): (c: nat)
    requires capacity >= 2
    ensures c >= n + 2 && c >= capacity
    decreases n + 2 - capacity
  {
    if n + 2 <= capacity then capacity else GrownTo(2 * capacity, n)
  }

  /** The capacity at which the buffer stops growing. */
  function TopCapacity(capacity: nat): (c: nat)
    requires capacity >= 2
    ensures c >= MAX_TOKEN_LENGTH && c >= capacity
    decreases MAX_TOKEN_LENGTH - capacity
  {
    if MAX_TOKEN_LENGTH <= capacity then capacity else TopCapacity(2 * capacity)
  }

  /** The longest token the buffer can take. */
  function MaxToken(capacity: nat): (n: nat)
    requires capacity >= 2
    ensures n >= MAX_TOKEN_LENGTH - 2
  {
    TopCapacity(capacity) - 2
  }

  /** capacity doubled k times */
  function Doubled(capacity: nat, k: nat): nat {
    if k == 0 then capacity else 2 * Doubled(capacity, k - 1)
  }

  lemma {:induction false} DoubledTwice(capacity: nat, k: nat)
    ensures Doubled(2 * capacity, k) == Doubled(capacity, k + 1)
  {
    if k > 0 {
      DoubledTwice(capacity, k - 1);
    }
  }

  /** Growth is by a power of two, and by the least one that makes room. */
  lemma {:induction false} GrownByPowerOfTwo(capacity: nat, n: nat) returns (k: nat)
    requires capacity >= 2
    ensures GrownTo(capacity, n) == Doubled(capacity, k)
    ensures k > 0 ==> Doubled(capacity, k - 1) < n + 2
    decreases n + 2 - capacity
  {
    if n + 2 <= capacity {
      k := 0;
    } else {
      k := GrownByPowerOfTwo(2 * capacity, n);
      DoubledTwice(capacity, k);
      if k > 0 {
        DoubledTwice(capacity, k - 1);
      }
      k := k + 1;
    }
  }

  lemma GrownAtStart(capacity: nat)
    requires capacity >= 2
    ensures GrownTo(capacity, 0) == capacity
  {
  }

  /** One more character: the capacity stays or doubles. */
  lemma {:induction false} GrownNext(capacity: nat, n: nat)
    requires capacity >= 2
    ensures var c := GrownTo(capacity, n);
      GrownTo(capacity, n + 1) == if n + 3 <= c then c else 2 * c
    decreases n + 2 - capacity
  {
    if n + 2 > capacity {
      GrownNext(2 * capacity, n);
    }
  }

  /** A full buffer may still be doubled exactly when the token may still grow. */
  lemma {:induction false} FullExactlyAtTop(capacity: nat, n: nat)
    requires capacity >= 2 && n <= MaxToken(capacity)
    ensures GrownTo(capacity, n) <= TopCapacity(capacity)
    ensures n + 2 == GrownTo(capacity, n) ==>
      (MAX_TOKEN_LENGTH <= GrownTo(capacity, n) <==> n == MaxToken(capacity))
    decreases n + 2 - capacity
  {
    if n + 2 > capacity {
      FullExactlyAtTop(2 * capacity, n);
    }
  }

  /** From the initial 128 bytes, over any growth, exactly the tokens longer than 65534 are refused. */
  lemma LimitFromInitial(n: nat)
    requires n <= MaxToken(128)
    ensures MaxToken(128) == 65534 && MaxToken(GrownTo(128, n)) == MaxToken(128)
  {
    assert TopCapacity(128) == TopCapacity(256) == TopCapacity(512) == TopCapacity(1024) == TopCapacity(2048);
    assert TopCapacity(2048) == TopCapacity(4096) == TopCapacity(8192) == TopCapacity(16384);
    assert TopCapacity(16384) == TopCapacity(32768) == TopCapacity(65536) == 65536;
    TopUnchanged(128, n);
  }

  /** Growing along the way does not move the limit. */
  lemma {:induction false} TopUnchanged(capacity: nat, n: nat)
    requires capacity >= 2 && n <= MaxToken(capacity)
    ensures TopCapacity(GrownTo(capacity, n)) == TopCapacity(capacity)
    decreases n + 2 - capacity
  {
    if n + 2 > capacity {
      TopUnchanged(2 * capacity, n);
    }
  }

  // ----- the end of the header part -----

  datatype CrLfState = None_ | Cr1 | Lf1 | Cr2 | Lf2

  /** The state the text read so far stands for: the longest of CRLFCRLF, CRLFCR, CRLF, CR it ends in. */
  function SuffixState(w: string): CrLfState {
    if EndsWith(w, CRLF + CRLF) then Lf2
    else if EndsWith(w, CRLF + [CR]) then Cr2
    else if EndsWith(w, CRLF) then Lf1
    else if EndsWith(w, [CR]) then Cr1
    else None_
  }

  /** One character decides the next state from the state alone. */
  lemma SuffixNext(w: string, c: char)
    requires SuffixState(w) != Lf2
    ensures SuffixState(w + [c]) ==
      if c == CR then (if SuffixState(w) == Lf1 then Cr2 else Cr1)
      else if c == LF then (match SuffixState(w) case Cr1 => Lf1 case Cr2 => Lf2 case _ => None_)
      else None_
  {
    hide EndsWith;
    NextEmptyLine(w, c);
    NextCrLfCr(w, c);
    NextCrLf(w, c);
    NextCr(w, c);
    CrBeforeLf(w);
  }

  lemma NextEmptyLine(w: string, c: char)
    ensures EndsWith(w + [c], CRLF + CRLF) <==> c == LF && EndsWith(w, CRLF + [CR])
  {
    EndsWithNext(w, c, CRLF + [CR], LF);
    assert CRLF + CRLF == CRLF + [CR] + [LF];
  }

  lemma NextCrLfCr(w: string, c: char)
    ensures EndsWith(w + [c], CRLF + [CR]) <==> c == CR && EndsWith(w, CRLF)
  {
    EndsWithNext(w, c, CRLF, CR);
  }

  lemma NextCrLf(w: string, c: char)
    ensures EndsWith(w + [c], CRLF) <==> c == LF && EndsWith(w, [CR])
  {
    EndsWithNext(w, c, [CR], LF);
    assert CRLF == [CR] + [LF];
  }

  lemma NextCr(w: string, c: char)
    ensures EndsWith(w + [c], [CR]) <==> c == CR
  {
  }

  lemma CrBeforeLf(w: string)
    ensures EndsWith(w, CRLF + [CR]) ==> EndsWith(w, [CR])
    ensures EndsWith(w, CRLF) ==> !EndsWith(w, [CR])
  {
    if EndsWith(w, CRLF + [CR]) {
      assert w[|w| - 1..] == w[|w| - 3..][2..];
    }
    EndsWithLast(w, CRLF, CR);
  }

  lemma EndsWithNext(w: string, c: char, p: string, d: char)
    ensures EndsWith(w + [c], p + [d]) <==> c == d && EndsWith(w, p)
  {
    var s, t := w + [c], p + [d];
    if |s| >= |t| {
      assert s[|s| - |t|..] == w[|w| - |p|..] + [c];
      if w[|w| - |p|..] + [c] == p + [d] {
        assert (w[|w| - |p|..] + [c])[|p|] == (p + [d])[|p|];
        assert w[|w| - |p|..] == (w[|w| - |p|..] + [c])[..|p|] == (p + [d])[..|p|] == p;
      }
    }
  }

  /** What a text ends in decides its last character. */
  lemma EndsWithLast(w: string, p: string, c: char)
    requires |p| > 0
    ensures EndsWith(w, p) && EndsWith(w, [c]) ==> p[|p| - 1] == c
  {
    if EndsWith(w, p) && EndsWith(w, [c]) {
      assert w[|w| - |p|..][|p| - 1] == w[|w| - 1] == w[|w| - 1..][0];
    }
  }

  // ----- the reader -----

  /** HttpRequest, as far as the reader fills it. */
  class HttpRequest {
    var kind: Kind
    var url: array<char>
    var urlMaxLength: nat
    var majVersion: char
    var minVersion: char

    constructor (capacity: nat)
      ensures fresh(url) && url.Length == urlMaxLength == capacity
    {
      kind, url, urlMaxLength, majVersion, minVersion := GET, new char[capacity], capacity, NUL, NUL;
    }

    ghost predicate Valid()
      reads this
    {
      url.Length == urlMaxLength && urlMaxLength >= 2
    }

    /** The buffer holds this target, terminated, with the last byte to spare. */
    ghost predicate Holds(target: string)
      reads this, url
    {
      |target| + 2 <= url.Length && url[..|target|] == target && url[|target|] == NUL
    }

    /** The first n characters of a token have been copied, into a buffer grown from this capacity. */
    ghost predicate Copied(s: seq<char>, n: nat, capacity: nat)
      requires capacity >= 2
      reads this, url
    {
      && Valid() && n <= MaxToken(capacity) && urlMaxLength == GrownTo(capacity, n)
      && n <= |s| && url[..n] == s[..n]
    }

    /** Stores one more character of a token, doubling a full buffer once; fails only at the top capacity. */
    method Append(writeIndex: nat, c: char, ghost s: seq<char>, ghost capacity: nat) returns (ok: bool)
      requires capacity >= 2 && Copied(s, writeIndex, capacity) && writeIndex < |s| && c == s[writeIndex]
      modifies this`url, this`urlMaxLength, url
      ensures ok == (writeIndex < MaxToken(capacity))
      ensures ok ==> Copied(s, writeIndex + 1, capacity)
      ensures url == old(url) || fresh(url)
    {
      GrownNext(capacity, writeIndex);
      FullExactlyAtTop(capacity, writeIndex);
      if writeIndex < MaxToken(capacity) {
        FullExactlyAtTop(capacity, writeIndex + 1);
      }
      hide GrownTo, MaxToken;
      if writeIndex >= urlMaxLength - 2 {
        if MAX_TOKEN_LENGTH <= urlMaxLength {
          return false;
        }
        urlMaxLength := urlMaxLength * 2;
        url := Reallocated(url, urlMaxLength);
      }
      url[writeIndex] := c;
      ok := true;
    }

    /** The terminator behind a token that has been copied. */
    method Terminate(writeIndex: nat, ghost s: seq<char>, ghost capacity: nat)
      requires capacity >= 2 && Copied(s, writeIndex, capacity)
      modifies url
      ensures Valid() && Holds(s[..writeIndex]) && urlMaxLength == GrownTo(capacity, writeIndex)
    {
      url[writeIndex] := NUL;
    }
  }

  // ----- where the window stands -----

  /** The indices of the window, the bytes still to be read, and how the network has them at hand. */
  datatype Window = Window(begin: nat, end: nat, left: nat, supply: seq<nat>)

  predicate Fits(w: Window) {
    w.begin <= w.end <= BUF_SIZE
  }

  /** The bytes in front of the parser. */
  function Ahead(w: Window): nat
    requires Fits(w)
  {
    w.end - w.begin + w.left
  }

  /** One byte is taken, after a read if the window is empty. */
  function Advance(w: Window): (r: Window)
    requires Fits(w) && Ahead(w) > 0
    ensures Fits(r) && Ahead(r) == Ahead(w) - 1
  {
    if w.begin < w.end then w.(begin := w.begin + 1) else
      var got := Delivered(w.supply, BUF_SIZE, w.left);
      Window(1, got, w.left - got, Later(w.supply))
  }

  /** Where the window stands once k bytes have been taken. */
  function After(w: Window, k: nat): (r: Window)
    requires Fits(w) && k <= Ahead(w)
    ensures Fits(r) && Ahead(r) == Ahead(w) - k
  {
    if k == 0 then w else Advance(After(w, k - 1))
  }

  /** The static window over the socket. */
  class Connection {
    const readBuffer: array<char>
    const socket: Socket
    var begin: nat
    var end: int
    /** Where the window stood when the current request began. */
    ghost var origin: Window

    constructor (socket: Socket)
      ensures Valid() && this.socket == socket && fresh(readBuffer)
      ensures Position() == origin == Window(0, 0, |socket.pending|, socket.supply)
    {
      readBuffer := new char[BUF_SIZE + 1];
      this.socket, begin, end := socket, 0, 0;
      origin := Window(0, 0, |socket.pending|, socket.supply);
    }

    ghost predicate InBounds()
      reads this
    {
      readBuffer.Length == BUF_SIZE + 1 && begin <= end <= BUF_SIZE
    }

    ghost function Position(): (w: Window)
      requires InBounds()
      reads this, socket`pending, socket`supply
      ensures Fits(w)
    {
      Window(begin, end, |socket.pending|, socket.supply)
    }

    /** The window is within its buffer, where the bytes taken since the request began have moved it. */
    ghost predicate Valid()
      reads this, socket`pending, socket`supply
    {
      && InBounds() && Fits(origin) && Ahead(Position()) <= Ahead(origin)
      && Position() == After(origin, Ahead(origin) - Ahead(Position()))
    }

    /** The next request begins here. */
    ghost method Begin()
      requires InBounds()
      modifies this`origin
      ensures Valid() && origin == Position()
    {
      origin := Position();
    }

    /** The stream as the parser sees it: the rest of the window, then what is still to be read. */
    ghost function Unread(): (s: seq<char>)
      requires Valid()
      reads this, readBuffer, socket`pending, socket`supply
      ensures InBounds() && |s| == Ahead(Position())
    {
      readBuffer[begin..end] + socket.pending
    }

    /** NEXT_CHAR: the next byte of the stream, wherever the window boundaries fall. */
    method NextChar() returns (ok: bool, c: char)
      requires Valid()
      modifies this`begin, this`end, readBuffer, socket`pending, socket`supply
      ensures ok == (old(Unread()) != [])
      ensures ok ==> Valid() && c == old(Unread())[0] && Unread() == old(Unread())[1..]
    {
      assert Unread() == readBuffer[begin..end] + socket.pending && InBounds() && Fits(origin);
      hide Valid, After, Delivered;
      c := NUL;
      if begin == end {
        end := socket.Read(readBuffer, BUF_SIZE);
        if end == -1 {
          return false, c;
        }
        begin := 0;
      }
      c := readBuffer[begin];
      begin := begin + 1;
      Moved(old(Position()));
      ok := true;
    }

    /** A window that has moved by one byte is where one more byte has moved it. */
    twostate lemma Moved(was: Window)
      requires old(Valid()) && InBounds() && origin == old(origin) && was == old(Position())
      requires Ahead(was) > 0 && Position() == Advance(was)
      ensures Valid()
    {
      assert After(origin, Ahead(origin) - Ahead(was) + 1) == Advance(After(origin, Ahead(origin) - Ahead(was)));
    }

    /** EXPECT: fails unless the next byte is the expected one in some case. */
    method Expect(expected: char) returns (ok: bool)
      requires Valid()
      modifies this`begin, this`end, readBuffer, socket`pending, socket`supply
      ensures ok == (old(Unread()) != [] && ToUpper(old(Unread())[0]) == expected)
      ensures ok ==> Valid() && Unread() == old(Unread())[1..]
    {
      var c;
      ok, c := NextChar();
      ok := ok && ToUpper(c) == expected;
    }

    /** Three EXPECTs in a row. */
    method ExpectLetters(a: char, b: char, c: char) returns (ok: bool)
      requires Valid()
      modifies this`begin, this`end, readBuffer, socket`pending, socket`supply
      ensures ok == (|old(Unread())| >= 3 && Upper(old(Unread())[..3]) == [a, b, c])
      ensures ok ==> Valid() && Unread() == old(Unread())[3..]
    {
      hide Valid, InBounds, Position, Ahead;
      ghost var s := Unread();
      assert |s| >= 3 ==> Upper(s[..3]) == [ToUpper(s[0]), ToUpper(s[1]), ToUpper(s[2])];
      ok := Expect(a);
      if !ok {
        return;
      }
      ok := Expect(b);
      if !ok {
        return;
      }
      ok := Expect(c);
    }

    /** The method part of http_readRequest. */
    method ReadMethod(request: HttpRequest) returns (ok: bool)
      requires Valid()
      modifies this`begin, this`end, readBuffer, socket`pending, socket`supply, request`kind
      ensures ok == AfterMethod(old(Unread())).Some?
      ensures ok ==> Valid() && AfterMethod(old(Unread())) == Some((request.kind, Unread()))
    {
      hide AfterMethod, Valid, InBounds, Position, Ahead;
      ghost var s := Unread();
      var done := false;
      while !done
        invariant Valid()
        invariant AfterMethod(s) == if done then Some((request.kind, Unread())) else AfterMethod(Unread())
        decreases if done then 0 else 1 + |Unread()|
      {
        ghost var t := Unread();
        var c;
        ok, c := NextChar();
        if !ok {
          NoMethod(t);
          return;
        }
        match ToUpper(c) {
          case '\n' => BreakSkipped(t);
          case '\r' => BreakSkipped(t);
          case 'G' =>
            request.kind := GET;
            GetByLetters(t);
            ok := ExpectLetters('E', 'T', SPACE);
            if !ok {
              return;
            }
            done := true;
          case 'H' =>
            request.kind := HEAD;
            HeadByLetters(t);
            ok := Expect('E');
            if !ok {
              return;
            }
            ok := ExpectLetters('A', 'D', SPACE);
            if !ok {
              return;
            }
            done := true;
          case _ =>
            NoMethod(t);
            return false;
        }
      }
      ok := true;
    }

    /** getToken: copies up to the next space, CR or LF into the request's buffer, growing it as needed;
        returns that delimiter, or something else when the stream ends or the token is too long. */
    method GetToken(request: HttpRequest) returns (delimiter: char)
      requires Valid() && request.Valid() && request.url != readBuffer
      modifies this`begin, this`end, readBuffer, socket`pending, socket`supply, request`url, request`urlMaxLength, request.url
      ensures var s := old(Unread()); var b := FirstOf(s, 0, {SPACE, CR, LF});
        if b < |s| && b <= MaxToken(old(request.urlMaxLength)) then
          && delimiter == s[b] && Valid() && Unread() == s[b + 1..]
          && request.Valid() && request.Holds(s[..b])
          && request.urlMaxLength == GrownTo(old(request.urlMaxLength), b)
          && (request.url == old(request.url) || fresh(request.url))
        else delimiter !in {SPACE, CR, LF}
    {
      hide Valid, InBounds, Position, Ahead, GrownTo, MaxToken, FirstOf, HttpRequest.Copied, HttpRequest.Holds;
      ghost var s := Unread();
      ghost var capacity, b := request.urlMaxLength, FirstOf(s, 0, {SPACE, CR, LF});
      var writeIndex := 0;
      NothingCopied(request, s);
      var ok, c := NextChar();
      if !ok {
        return READ_FAILED;
      }
      while c != SPACE && c != CR && c != LF
        invariant Valid() && writeIndex <= b && writeIndex < |s| && c == s[writeIndex] && Unread() == s[writeIndex + 1..]
        invariant request.Copied(s, writeIndex, capacity) && writeIndex <= MaxToken(capacity)
        invariant request.url != readBuffer && (request.url == old(request.url) || fresh(request.url))
        decreases |s| - writeIndex
      {
        ok := request.Append(writeIndex, c, s, capacity);
        if !ok {
          return NUL;
        }
        writeIndex := writeIndex + 1;
        ok, c := NextChar();
        if !ok {
          return READ_FAILED;
        }
      }
      request.Terminate(writeIndex, s, capacity);
      return c;
    }

    method ExpectHttp() returns (ok: bool)
      requires Valid()
      modifies this`begin, this`end, readBuffer, socket`pending, socket`supply
      ensures ok == (|old(Unread())| >= 5 && Upper(old(Unread())[..5]) == "HTTP/")
      ensures ok ==> Valid() && Unread() == old(Unread())[5..]
    {
      hide Valid, InBounds, Position, Ahead;
      ghost var s := Unread();
      assert |s| >= 5 ==> Upper(s[..5]) == [ToUpper(s[0]), ToUpper(s[1])] + Upper(s[1..][1..][..3]);
      assert |s| >= 5 && Upper(s[..5]) == "HTTP/" ==> Upper(s[..5])[2..] == ['T', 'P', '/'];
      ok := Expect('H');
      if !ok {
        return;
      }
      ok := Expect('T');
      if !ok {
        return;
      }
      ok := ExpectLetters('T', 'P', '/');
    }

    /** The version part of http_readRequest. */
    method ReadVersion(request: HttpRequest) returns (ok: bool)
      requires Valid()
      modifies this`begin, this`end, readBuffer, socket`pending, socket`supply, request`majVersion, request`minVersion
      ensures ok == AfterVersion(old(Unread())).Some?
      ensures ok ==> Valid()
      ensures ok ==> AfterVersion(old(Unread())) == Some((request.majVersion, request.minVersion, Unread()))
    {
      hide AfterVersion, Valid, InBounds, Position, Ahead;
      VersionByLetters(Unread());
      ok := ExpectHttp();
      if !ok {
        return;
      }
      ok, request.majVersion := NextChar();
      if !ok {
        return;
      }
      ok := Expect('.');
      if !ok {
        return;
      }
      ok, request.minVersion := NextChar();
      if !ok {
        return;
      }
      ok := Expect(CR);
      if !ok {
        return;
      }
      ok := Expect(LF);
    }

    /** The header part of http_readRequest: stops behind the first empty line. */
    method SkipHeaders() returns (ok: bool)
      requires Valid()
      modifies this`begin, this`end, readBuffer, socket`pending, socket`supply
      ensures ok == HeadersFrom(CRLF, old(Unread())).Some?
      ensures ok ==> Valid() && HeadersFrom(CRLF, old(Unread())) == Some(Unread())
    {
      hide SuffixState, Valid, InBounds, Position, Ahead;
      ghost var s, w := Unread(), CRLF;
      var state := Lf1;
      AfterRequestLine();
      while state != Lf2
        invariant Valid() && state == SuffixState(w) && HeadersFrom(CRLF, s) == HeadersFrom(w, Unread())
        decreases |Unread()|, state != Lf2
      {
        var c;
        StateIsSuffix(w);
        ok, c := NextChar();
        if !ok {
          return;
        }
        SuffixNext(w, c);
        w := w + [c];
        if c == CR {
          if state == Lf1 {
            state := Cr2;
          } else {
            state := Cr1;
          }
        } else if c == LF {
          if state == Cr1 {
            state := Lf1;
          } else if state == Cr2 {
            state := Lf2;
          } else {
            state := None_;
          }
        } else {
          state := None_;
        }
      }
      StateIsSuffix(w);
      ok := true;
    }

    /** http_readRequest: 0 exactly when the stream starts with a request; the request's fields are then
        filled and the stream stands right behind it. */
    method ReadRequest(request: HttpRequest) returns (code: int)
      requires Valid() && request.Valid() && request.url != readBuffer
      modifies this`begin, this`end, readBuffer, socket`pending, socket`supply, request, request.url
      ensures code == if ParseRequest(old(Unread()), MaxToken(old(request.urlMaxLength))).Some? then 0 else -1
      ensures code == 0 ==>
        var (r, rest) := ParseRequest(old(Unread()), MaxToken(old(request.urlMaxLength))).value;
        && Valid() && Unread() == rest
        && request.Valid() && request.Holds(r.url)
        && r == Request(request.kind, r.url, request.majVersion, request.minVersion)
        && request.urlMaxLength == GrownTo(old(request.urlMaxLength), |r.url|)
        && (request.url == old(request.url) || fresh(request.url))
    {
      hide Valid, InBounds, Position, Ahead, AfterMethod, AfterVersion, HeadersFrom, GrownTo, MaxToken;
      var ok := ReadMethod(request);
      if !ok {
        return -1;
      }
      var delimiter := GetToken(request);
      if delimiter != SPACE {
        return -1;
      }
      ok := ReadVersion(request);
      if !ok {
        return -1;
      }
      ok := SkipHeaders();
      return if ok then 0 else -1;
    }
  }

  lemma NothingCopied(request: HttpRequest, s: seq<char>)
    requires request.Valid()
    ensures request.Copied(s, 0, request.urlMaxLength)
  {
    GrownAtStart(request.urlMaxLength);
    assert s[..0] == request.url[..0];
  }

  lemma VersionByLetters(s: string)
    ensures AfterVersion(s) ==
      if |s| >= 5 && Upper(s[..5]) == "HTTP/" && |s[5..]| >= 5
         && ToUpper(s[5..][1..][0]) == '.' && ToUpper(s[5..][1..][1..][1..][0]) == CR
         && ToUpper(s[5..][1..][1..][1..][1..][0]) == LF
      then Some((s[5..][0], s[5..][1..][1..][0], s[5..][1..][1..][1..][1..][1..])) else None
  {
  }

  /** realloc to a larger size: the old bytes are kept. */
  method Reallocated(a: array<char>, size: nat) returns (bigger: array<char>)
    requires size >= a.Length
    ensures fresh(bigger) && bigger.Length == size && bigger[..a.Length] == a[..]
  {
    bigger := new char[size];
    for i := 0 to a.Length
      invariant bigger[..i] == a[..i]
    {
      bigger[i] := a[i];
    }
  }

  lemma AfterRequestLine()
    ensures SuffixState(CRLF) == Lf1
  {
  }

  lemma StateIsSuffix(w: string)
    ensures SuffixState(w) == Lf2 <==> EndsWith(w, CRLF + CRLF)
  {
  }

  lemma BreakSkipped(t: string)
    requires t != [] && (ToUpper(t[0]) == CR || ToUpper(t[0]) == LF)
    ensures AfterMethod(t) == AfterMethod(t[1..])
  {
  }

  lemma NoMethod(t: string)
    requires t != [] ==> ToUpper(t[0]) !in {CR, LF, 'G', 'H'}
    ensures AfterMethod(t) == None
  {
    assert |t| >= 4 ==> Upper(t[..4])[0] == ToUpper(t[0]);
    assert |t| >= 5 ==> Upper(t[..5])[0] == ToUpper(t[0]);
  }

  /** Once the first letter has decided, the method is there exactly when the other letters are. */
  lemma GetByLetters(t: string)
    requires t != [] && ToUpper(t[0]) == 'G'
    ensures AfterMethod(t) == var u := t[1..];
      if |u| >= 3 && Upper(u[..3]) == ['E', 'T', SPACE] then Some((GET, u[3..])) else None
  {
    assert |t| >= 4 ==> Upper(t[..4]) == ['G'] + Upper(t[1..][..3]);
    assert |t| >= 4 && Upper(t[..4]) == "GET " ==> Upper(t[..4])[1..] == ['E', 'T', SPACE];
    assert |t| >= 5 ==> Upper(t[..5])[0] == 'G';
  }

  lemma HeadByLetters(t: string)
    requires t != [] && ToUpper(t[0]) == 'H'
    ensures AfterMethod(t) == var u := t[1..];
      if u != [] && ToUpper(u[0]) == 'E' && |u[1..]| >= 3 && Upper(u[1..][..3]) == ['A', 'D', SPACE]
      then Some((HEAD, u[1..][3..])) else None
  {
    assert |t| >= 5 ==> Upper(t[..5]) == ['H', ToUpper(t[1])] + Upper(t[1..][1..][..3]);
    assert |t| >= 5 && Upper(t[..5]) == "HEAD " ==> Upper(t[..5])[2..] == ['A', 'D', SPACE];
    assert |t| >= 4 ==> Upper(t[..4])[0] == 'H';
  }
}
