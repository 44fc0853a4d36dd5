/** src/http.c, writing side, and io_writeChunked of src/io.c: how a response gets onto the wire. */
module Response {
  import opened CStrings
  import opened Wrappers
  import opened RequestGrammar
  import opened RequestReader
  import opened Sockets

  const SEND_CHUNK_SIZE_BYTES := 20 * 1024 * 1024
  const SIZE_RANGE := 0x1_0000_0000_0000_0000

  // ----- the text of a response -----

  function Digit(d: nat): char
    requires d < 10
  {
    "0123456789"[d]
  }

  /** %zu */
  function Decimal(n: nat): (s: string)
    ensures |s| >= 1 && forall i :: 0 <= i < |s| ==> '0' <= s[i] <= '9'
  {
    if n < 10 then [Digit(n)] else Decimal(n / 10) + [Digit(n % 10)]
  }

  /** The number a string of digits stands for. */
  function ValueOf(s: string): int {
    if s == [] then 0 else 10 * ValueOf(s[..|s| - 1]) + (s[|s| - 1] as int - '0' as int)
  }

  /** The length that is announced reads back as the length that was printed. */
  lemma {:induction false} DecimalReadsBack(n: nat)
    ensures ValueOf(Decimal(n)) == n
  {
    if n < 10 {
      DigitValue(n);
      assert Decimal(n)[..0] == [];
    } else {
      DecimalReadsBack(n / 10);
      DigitValue(n % 10);
      hide Digit;
      assert Decimal(n)[..|Decimal(n)| - 1] == Decimal(n / 10);
    }
  }

  lemma DigitValue(d: nat)
    requires d < 10
    ensures Digit(d) as int - '0' as int == d
  {
  }

  function Tens(k: nat): nat {
    if k == 0 then 1 else 10 * Tens(k - 1)
  }

  lemma {:induction false} DecimalLength(n: nat, k: nat)
    requires k > 0 && n < Tens(k)
    ensures |Decimal(n)| <= k
    decreases k
  {
    if n >= 10 {
      DecimalLength(n / 10, k - 1);
    }
  }

  /** Three digits per byte are enough for any size_t. */
  lemma SizeFits(n: nat)
    requires n < SIZE_RANGE
    ensures |Decimal(n)| <= 24
  {
    assert Tens(6) == 1_000_000;
    assert Tens(12) == 1_000_000 * Tens(6);
    assert Tens(18) == 1_000_000 * Tens(12);
    assert Tens(24) == 1_000_000 * Tens(18);
    DecimalLength(n, 24);
  }

  /** http_message */
  function Message(statusCode: int): string {
    if statusCode == 404 then "Not Found"
    else if 199 < statusCode < 300 then "OK"
    else if 299 < statusCode < 400 then "REDIRECT"
    else if 399 < statusCode < 500 then "CLIENT ERROR"
    else "UNKNOWN ERROR"
  }

  /** %3i */
  function Padded(n: nat): string {
    if n < 10 then "  " + Decimal(n) else if n < 100 then " " + Decimal(n) else Decimal(n)
  }

  function StatusLine(statusCode: nat): string {
    "HTTP/1.1 " + Padded(statusCode) + " " + Message(statusCode) + CRLF
  }

  function HeaderLine(key: string, value: string): string {
    key + ": " + value + CRLF
  }

  const CONTENT_LENGTH := "Content-Length"
  const CONNECTION := "Connection"
  const CONTENT_TYPE := "Content-Type"
  const KEEP_ALIVE := "Keep-alive"

  /** The response a client should see. */
  function Frame(statusCode: nat, contentType: string, length: nat, body: string): string {
    StatusLine(statusCode) + HeaderLine(CONTENT_LENGTH, Decimal(length)) + HeaderLine(CONNECTION, KEEP_ALIVE)
    + HeaderLine(CONTENT_TYPE, contentType) + CRLF + body
  }

  // ----- what reaches the wire -----

  /** The buffer after snprintf(readBuffer, BUF_SIZE, text) and readBuffer[BUF_SIZE] = 0. */
  function Overwritten(buffer: seq<char>, text: string): (b: seq<char>)
    requires |buffer| == BUF_SIZE + 1
    ensures |b| == |buffer|
  {
    var k := |Cut(text, BUF_SIZE - 1)|;
    text[..k] + (buffer[k..])[0 := NUL][BUF_SIZE - k := NUL]
  }

  /** The bytes a line of text puts on the wire: its length in bytes from the buffer it was cut into. A line
      is never longer than the buffer where this is used. */
  function Printed(text: string): string {
    Cut(text, BUF_SIZE - 1) + seq(|text| - |Cut(text, BUF_SIZE - 1)|, _ => NUL)
  }

  /** What a response puts on the wire when terminator bytes of the blank line get through. */
  function Wire(statusCode: nat, contentType: string, length: nat, terminator: nat, body: string): string
    requires terminator <= 2
  {
    Printed(StatusLine(statusCode)) + Printed(HeaderLine(CONTENT_LENGTH, Decimal(length)))
    + Printed(HeaderLine(CONNECTION, KEEP_ALIVE)) + Printed(HeaderLine(CONTENT_TYPE, contentType))
    + CRLF[..terminator] + body
  }

  lemma LinesFit(statusCode: nat, contentType: string, length: nat)
    requires statusCode < 1000 && length < SIZE_RANGE
    ensures |StatusLine(statusCode)| <= 28
    ensures |HeaderLine(CONTENT_LENGTH, Decimal(length))| <= 42
    ensures |HeaderLine(CONNECTION, KEEP_ALIVE)| == 24
    ensures |HeaderLine(CONTENT_TYPE, contentType)| == |contentType| + 16
  {
    SizeFits(length);
    ThreeWide(statusCode);
    hide Padded, Decimal;
  }

  lemma ThreeWide(statusCode: nat)
    requires statusCode < 1000
    ensures |Padded(statusCode)| == 3
  {
    var tens := statusCode / 10;
    assert statusCode >= 10 ==> |Decimal(statusCode)| == |Decimal(tens)| + 1;
    assert statusCode >= 100 ==> |Decimal(tens)| == |Decimal(tens / 10)| + 1;
  }

  /** The wire carries the response as it should be exactly when the whole blank line got through and the
      content type is short enough for its line to fit the buffer. */
  lemma FramedIff(statusCode: nat, contentType: string, length: nat, terminator: nat, body: string)
    requires statusCode < 1000 && length < SIZE_RANGE && |contentType| <= 240 && terminator <= 2
    ensures Wire(statusCode, contentType, length, terminator, body) == Frame(statusCode, contentType, length, body)
      <==> terminator == 2 && |contentType| <= 238
  {
    LinesFit(statusCode, contentType, length);
    var a, b, c := StatusLine(statusCode), HeaderLine(CONTENT_LENGTH, Decimal(length)), HeaderLine(CONNECTION, KEEP_ALIVE);
    var d := HeaderLine(CONTENT_TYPE, contentType);
    assert Printed(a) == a && Printed(b) == b && Printed(c) == c;
    hide StatusLine, HeaderLine;
    var head := a + b + c;
    assert Wire(statusCode, contentType, length, terminator, body) == head + Printed(d) + CRLF[..terminator] + body;
    assert Frame(statusCode, contentType, length, body) == head + d + CRLF + body;
    if |contentType| > 238 {
      assert (head + Printed(d) + CRLF[..terminator] + body)[|head| + 254] == Printed(d)[254] == NUL;
      assert (head + d + CRLF + body)[|head| + 254] == d[254] != NUL;
    } else if terminator < 2 {
      assert |head + Printed(d) + CRLF[..terminator] + body| < |head + d + CRLF + body|;
    } else {
      assert CRLF[..2] == CRLF && Printed(d) == d;
    }
  }

  // ----- reading a response back -----

  /** The first line of s, up to CRLF, and what follows it. */
  function Line(s: string): Option<(string, string)> {
    var k := FirstOf(s, 0, {CR});
    if k + 1 < |s| && s[k + 1] == LF then Some((s[..k], s[k + 2..])) else None
  }

  datatype Reply = Reply(status: string, lengthText: string, connection: string, contentType: string, body: string)

  /** How a client takes one response off a stream: four lines, an empty line, and as many bytes as the
      second line announces (none in answer to HEAD). */
  function TakeReply(s: string, head: bool): Option<(Reply, string)> {
    match Line(s)
    case None => None
    case Some((status, s1)) =>
      match Line(s1)
      case None => None
      case Some((length, s2)) =>
        match Line(s2)
        case None => None
        case Some((connection, s3)) =>
          match Line(s3)
          case None => None
          case Some((contentType, s4)) =>
            match Line(s4)
            case None => None
            case Some((blank, s5)) =>
              var announced := if |length| < 16 then 0 else ValueOf(length[16..]);
              var n := if head then 0 else announced;
              if blank == "" && 0 <= n <= |s5|
              then Some((Reply(status, length, connection, contentType, s5[..n]), s5[n..])) else None
  }

  lemma LineJoined(l: string, s: string)
    requires CR !in l
    ensures Line(l + CRLF + s) == Some((l, s))
  {
    var t := l + CRLF + s;
    assert forall i :: 0 <= i < |l| ==> t[i] == l[i];
    assert t[|l|] == CR && t[|l| + 1] == LF;
    assert FirstOf(t, 0, {CR}) == |l|;
    assert t[..|l|] == l && t[|l| + 2..] == s;
  }

  /** Responses delimit themselves: a client reads each one back, and the rest of the stream behind it. */
  lemma ReplyReadsBack(statusCode: nat, contentType: string, length: nat, body: string, rest: string, head: bool)
    requires CR !in contentType && |body| == if head then 0 else length
    ensures TakeReply(Frame(statusCode, contentType, length, body) + rest, head) ==
      Some((Reply("HTTP/1.1 " + Padded(statusCode) + " " + Message(statusCode),
                  CONTENT_LENGTH + ": " + Decimal(length), CONNECTION + ": " + KEEP_ALIVE,
                  CONTENT_TYPE + ": " + contentType, body), rest))
  {
    hide Frame, TakeReply;
    var l1 := "HTTP/1.1 " + Padded(statusCode) + " " + Message(statusCode);
    var l2, l3 := CONTENT_LENGTH + ": " + Decimal(length), CONNECTION + ": " + KEEP_ALIVE;
    var l4 := CONTENT_TYPE + ": " + contentType;
    PlainLines(statusCode, length, contentType);
    DecimalReadsBack(length);
    FrameLines(statusCode, contentType, length, body, rest);
    hide *;
    TakeJoined(l1, l2, l3, l4, length, body, rest, head);
  }

  lemma PlainLines(statusCode: nat, length: nat, contentType: string)
    requires CR !in contentType
    ensures CR !in "HTTP/1.1 " + Padded(statusCode) + " " + Message(statusCode)
    ensures CR !in CONTENT_LENGTH + ": " + Decimal(length) && CR !in CONNECTION + ": " + KEEP_ALIVE
    ensures CR !in CONTENT_TYPE + ": " + contentType
    ensures |CONTENT_LENGTH + ": " + Decimal(length)| >= 16
    ensures (CONTENT_LENGTH + ": " + Decimal(length))[16..] == Decimal(length)
  {
    assert |CONTENT_LENGTH + ": "| == 16;
    PlainStatus(statusCode);
  }

  lemma PlainStatus(statusCode: nat)
    ensures CR !in Padded(statusCode) && CR !in Message(statusCode)
  {
    PlainMessage(statusCode);
    hide Message;
  }

  lemma PlainMessage(statusCode: nat)
    ensures CR !in Message(statusCode)
  {
  }

  lemma TakeJoined(l1: string, l2: string, l3: string, l4: string, length: nat, body: string, rest: string, head: bool)
    requires CR !in l1 && CR !in l2 && CR !in l3 && CR !in l4
    requires |l2| >= 16 && ValueOf(l2[16..]) == length && |body| == if head then 0 else length
    ensures TakeReply(l1 + CRLF + (l2 + CRLF + (l3 + CRLF + (l4 + CRLF + ("" + CRLF + (body + rest))))), head)
      == Some((Reply(l1, l2, l3, l4, body), rest))
  {
    hide Line, ValueOf;
    var s5 := body + rest;
    var s4 := "" + CRLF + s5;
    var s3 := l4 + CRLF + s4;
    var s2 := l3 + CRLF + s3;
    var s1 := l2 + CRLF + s2;
    LineJoined(l1, s1);
    LineJoined(l2, s2);
    LineJoined(l3, s3);
    LineJoined(l4, s4);
    LineJoined("", s5);
    assert s5[..|body|] == body && s5[|body|..] == rest;
  }

  lemma FrameLines(statusCode: nat, contentType: string, length: nat, body: string, rest: string)
    ensures Frame(statusCode, contentType, length, body) + rest ==
      ("HTTP/1.1 " + Padded(statusCode) + " " + Message(statusCode)) + CRLF
      + ((CONTENT_LENGTH + ": " + Decimal(length)) + CRLF
      + ((CONNECTION + ": " + KEEP_ALIVE) + CRLF
      + ((CONTENT_TYPE + ": " + contentType) + CRLF
      + ("" + CRLF + (body + rest)))))
  {
    hide Padded, Message, Decimal;
  }

  // ----- the writers -----

  /** The wire has grown by some leading part of a text. */
  predicate Sent(before: string, after: string, text: string) {
    before <= after <= before + text
  }

  /** snprintf into a buffer of the given size: cuts the text, terminates it, returns its full length. */
  method Snprintf(buffer: array<char>, size: nat, text: string) returns (n: nat)
    requires 0 < size <= buffer.Length
    modifies buffer
    ensures n == |text|
    ensures var k := |Cut(text, size - 1)|; buffer[..] == text[..k] + old(buffer[k..])[0 := NUL]
  {
    var k := |Cut(text, size - 1)|;
    for i := 0 to k
      invariant buffer[..i] == text[..i]
      invariant buffer[i..] == old(buffer[i..])
    {
      buffer[i] := text[i];
    }
    buffer[k] := NUL;
    n := |text|;
    assert buffer[..] == buffer[..k] + buffer[k..];
  }

  /** http_sendResponseStatus and http_sendHeader: print one line into the read buffer and send it from
      there in one piece. */
  method SendLine(connection: Connection, text: string) returns (code: int)
    requires connection.readBuffer.Length == BUF_SIZE + 1 && |text| <= BUF_SIZE + 1
    modifies connection.readBuffer, connection.socket`sent
    ensures connection.readBuffer[..] == Overwritten(old(connection.readBuffer[..]), text)
    ensures code == 0 || code == -1
    ensures code == 0 ==> connection.socket.sent == old(connection.socket.sent) + Printed(text)
    ensures Sent(old(connection.socket.sent), connection.socket.sent, Printed(text))
    ensures connection.socket.faultless ==> code == 0
  {
    var numPrinted := Snprintf(connection.readBuffer, BUF_SIZE, text);
    connection.readBuffer[BUF_SIZE] := NUL;
    assert connection.readBuffer[..] == Overwritten(old(connection.readBuffer[..]), text);
    assert connection.readBuffer[..numPrinted] == Printed(text);
    var n := connection.socket.Send(connection.readBuffer[..numPrinted]);
    assert n == |text| ==> Printed(text)[..n] == Printed(text);
    code := if n == numPrinted then 0 else -1;
  }

  /** io_writeChunked, reading its test for a negative count as signed: chunk after chunk until everything
      is out, each resuming where the last send stopped. */
  method WriteChunked(socket: Socket, buffer: seq<char>, length: nat) returns (code: int)
    requires length <= |buffer|
    modifies socket`sent
    ensures code == 0 || code == -1
    ensures code == 0 ==> socket.sent == old(socket.sent) + buffer[..length]
    ensures code == -1 ==> socket.fd < 0 || !socket.faultless
    ensures Sent(old(socket.sent), socket.sent, buffer[..length])
  {
    if 0 > socket.fd {
      return -1;
    }
    var bytesRemaining, nextChunk := length, 0;
    assert socket.sent == old(socket.sent) + buffer[..0];
    while 0 < bytesRemaining
      invariant 0 <= nextChunk && 0 <= bytesRemaining && nextChunk + bytesRemaining == length
      invariant socket.sent == old(socket.sent) + buffer[..nextChunk]
    {
      var nextChunkSize := bytesRemaining;
      if nextChunkSize > SEND_CHUNK_SIZE_BYTES {
        nextChunkSize := SEND_CHUNK_SIZE_BYTES;
      }
      var chunk := buffer[nextChunk..nextChunk + nextChunkSize];
      var sentBytes := socket.Send(chunk);
      if 0 > sentBytes {
        return -1;
      }
      assert buffer[..nextChunk] + chunk[..sentBytes] == buffer[..nextChunk + sentBytes];
      bytesRemaining := bytesRemaining - sentBytes;
      nextChunk := nextChunk + sentBytes;
    }
    code := 0;
  }

  /** The read buffer once a response has been printed through it. */
  function AfterResponse(buffer: seq<char>, statusCode: nat, contentType: string, length: nat): (b: seq<char>)
    requires |buffer| == BUF_SIZE + 1
    ensures |b| == BUF_SIZE + 1
  {
    Overwritten(Overwritten(Overwritten(Overwritten(buffer,
      StatusLine(statusCode)), HeaderLine(CONTENT_LENGTH, Decimal(length))),
      HeaderLine(CONNECTION, KEEP_ALIVE)), HeaderLine(CONTENT_TYPE, contentType))
  }

  /** http_sendBuffer. The blank line is sent without looking at how much of it got through: terminator
      says how much did. */
  method SendBuffer(connection: Connection, statusCode: nat, contentType: string, body: Option<seq<char>>,
                    bodyLength: nat) returns (code: int, terminator: nat)
    requires connection.InBounds() && statusCode < 1000 && bodyLength < SIZE_RANGE && |contentType| <= 240
    requires body.Some? ==> |body.value| == bodyLength
    modifies connection.readBuffer, connection.socket`sent
    ensures code == 0 || code == -1
    ensures terminator <= 2
    ensures var wire := Wire(statusCode, contentType, bodyLength, terminator, if body.Some? then body.value else []);
      && Sent(old(connection.socket.sent), connection.socket.sent, wire)
      && (code == 0 ==> connection.socket.sent == old(connection.socket.sent) + wire)
    ensures code == 0 ==>
      connection.readBuffer[..] == AfterResponse(old(connection.readBuffer[..]), statusCode, contentType, bodyLength)
    ensures connection.socket.faultless && connection.socket.fd >= 0 ==> code == 0 && terminator == 2
  {
    hide StatusLine, HeaderLine, Decimal, Wire, Sent;
    terminator := 0;
    code := SendHead(connection, statusCode, contentType, bodyLength);
    ghost var head := Head(statusCode, contentType, bodyLength);
    ghost var bytes := if body.Some? then body.value else [];
    hide Head, AfterResponse;
    WireIs(statusCode, contentType, bodyLength, 0, bytes);
    if code < 0 {
      SentWithin(old(connection.socket.sent), connection.socket.sent, head, head + CRLF[..0] + bytes);
      return;
    }
    var n := connection.socket.Send(CRLF);
    terminator := if n < 0 then 0 else n;
    WireIs(statusCode, contentType, bodyLength, terminator, bytes);
    ghost var through := head + CRLF[..terminator];
    assert connection.socket.sent == old(connection.socket.sent) + through;
    code := SendBody(connection.socket, body, bodyLength);
    SentBehind(old(connection.socket.sent), connection.socket.sent, through, bytes);
  }

  /** The end of http_sendBuffer. */
  method SendBody(socket: Socket, body: Option<seq<char>>, bodyLength: nat) returns (code: int)
    requires body.Some? ==> |body.value| == bodyLength
    modifies socket`sent
    ensures code == 0 || code == -1
    ensures var bytes := if body.Some? then body.value else [];
      && Sent(old(socket.sent), socket.sent, bytes)
      && (code == 0 ==> socket.sent == old(socket.sent) + bytes)
    ensures socket.faultless && socket.fd >= 0 ==> code == 0
  {
    if body.None? {
      return 0;
    }
    code := WriteChunked(socket, body.value, bodyLength);
    assert body.value[..bodyLength] == body.value;
  }

  /** The four lines of a response as they reach the wire. */
  function Head(statusCode: nat, contentType: string, length: nat): string {
    Printed(StatusLine(statusCode)) + Printed(HeaderLine(CONTENT_LENGTH, Decimal(length)))
    + Printed(HeaderLine(CONNECTION, KEEP_ALIVE)) + Printed(HeaderLine(CONTENT_TYPE, contentType))
  }

  /** The part of http_sendBuffer before the blank line. */
  method SendHead(connection: Connection, statusCode: nat, contentType: string, bodyLength: nat) returns (code: int)
    requires connection.InBounds() && statusCode < 1000 && bodyLength < SIZE_RANGE && |contentType| <= 240
    modifies connection.readBuffer, connection.socket`sent
    ensures code == 0 || code == -1
    ensures Sent(old(connection.socket.sent), connection.socket.sent, Head(statusCode, contentType, bodyLength))
    ensures code == 0 ==>
      && connection.socket.sent == old(connection.socket.sent) + Head(statusCode, contentType, bodyLength)
      && connection.readBuffer[..] == AfterResponse(old(connection.readBuffer[..]), statusCode, contentType, bodyLength)
    ensures connection.socket.faultless ==> code == 0
  {
    hide StatusLine, HeaderLine, Overwritten, Printed, Decimal, Cut, Sent;
    LinesFit(statusCode, contentType, bodyLength);
    ghost var before, l1 := connection.socket.sent, Printed(StatusLine(statusCode));
    ghost var l2, l3 := Printed(HeaderLine(CONTENT_LENGTH, Decimal(bodyLength))), Printed(HeaderLine(CONNECTION, KEEP_ALIVE));
    ghost var l4 := Printed(HeaderLine(CONTENT_TYPE, contentType));
    assert Head(statusCode, contentType, bodyLength) == l1 + l2 + l3 + l4;
    hide Head;
    code := SendLine(connection, StatusLine(statusCode));
    if code < 0 {
      SentWithin(before, connection.socket.sent, l1, l1 + l2 + l3 + l4);
      return;
    }
    code := SendLine(connection, HeaderLine(CONTENT_LENGTH, Decimal(bodyLength)));
    SentBehind(before, connection.socket.sent, l1, l2);
    if code < 0 {
      SentWithin(before, connection.socket.sent, l1 + l2, l1 + l2 + l3 + l4);
      return;
    }
    code := SendLine(connection, HeaderLine(CONNECTION, KEEP_ALIVE));
    SentBehind(before, connection.socket.sent, l1 + l2, l3);
    if code < 0 {
      SentWithin(before, connection.socket.sent, l1 + l2 + l3, l1 + l2 + l3 + l4);
      return;
    }
    code := SendLine(connection, HeaderLine(CONTENT_TYPE, contentType));
    SentBehind(before, connection.socket.sent, l1 + l2 + l3, l4);
  }

  lemma WireIs(statusCode: nat, contentType: string, length: nat, terminator: nat, body: string)
    requires terminator <= 2
    ensures Wire(statusCode, contentType, length, terminator, body) ==
      Head(statusCode, contentType, length) + CRLF[..terminator] + body
  {
  }

  /** A leading part of a text is one of a longer text. */
  lemma SentWithin(before: string, after: string, text: string, whole: string)
    requires Sent(before, after, text) && text <= whole
    ensures Sent(before, after, whole)
  {
    assert before + text <= before + whole;
  }

  /** A leading part of b behind the whole of a is one of both. */
  lemma SentBehind(before: string, after: string, a: string, b: string)
    requires Sent(before + a, after, b)
    ensures Sent(before, after, a + b)
  {
    assert before + (a + b) == before + a + b;
  }

  // ----- what a response does to bytes read ahead -----

  /** How far into the buffer the longest line of a response reaches. */
  function Reach(statusCode: nat, contentType: string, length: nat): (r: nat)
    ensures r < BUF_SIZE
  {
    var a, b := |Cut(StatusLine(statusCode), BUF_SIZE - 1)|, |Cut(HeaderLine(CONTENT_LENGTH, Decimal(length)), BUF_SIZE - 1)|;
    var c, d := |Cut(HeaderLine(CONNECTION, KEEP_ALIVE), BUF_SIZE - 1)|, |Cut(HeaderLine(CONTENT_TYPE, contentType), BUF_SIZE - 1)|;
    var ab, cd := if a < b then b else a, if c < d then d else c;
    if ab < cd then cd else ab
  }

  /** A position behind the text keeps its byte; one within it no longer depends on what it held. */
  lemma OverwrittenAt(b: seq<char>, b': seq<char>, text: string, i: nat)
    requires |b| == |b'| == BUF_SIZE + 1 && i < BUF_SIZE
    ensures i > |Cut(text, BUF_SIZE - 1)| ==> Overwritten(b, text)[i] == b[i]
    ensures i <= |Cut(text, BUF_SIZE - 1)| || b[i] == b'[i] ==> Overwritten(b, text)[i] == Overwritten(b', text)[i]
  {
  }

  lemma AfterResponseAt(b: seq<char>, b': seq<char>, statusCode: nat, contentType: string, length: nat, i: nat)
    requires |b| == |b'| == BUF_SIZE + 1 && i < BUF_SIZE
    ensures i > Reach(statusCode, contentType, length) ==> AfterResponse(b, statusCode, contentType, length)[i] == b[i]
    ensures i <= Reach(statusCode, contentType, length) ==>
      AfterResponse(b, statusCode, contentType, length)[i] == AfterResponse(b', statusCode, contentType, length)[i]
  {
    var t1, t2 := StatusLine(statusCode), HeaderLine(CONTENT_LENGTH, Decimal(length));
    var t3, t4 := HeaderLine(CONNECTION, KEEP_ALIVE), HeaderLine(CONTENT_TYPE, contentType);
    hide StatusLine, HeaderLine, Overwritten, Cut;
    var b1, b1' := Overwritten(b, t1), Overwritten(b', t1);
    var b2, b2' := Overwritten(b1, t2), Overwritten(b1', t2);
    var b3, b3' := Overwritten(b2, t3), Overwritten(b2', t3);
    OverwrittenAt(b, b', t1, i);
    OverwrittenAt(b1, b1', t2, i);
    OverwrittenAt(b2, b2', t3, i);
    OverwrittenAt(b3, b3', t4, i);
  }

  /** Bytes read ahead of the request survive the response, whatever they are, exactly when there are none
      or they all lie behind the longest line the response prints. */
  lemma ReadAheadSurvivesIff(statusCode: nat, contentType: string, length: nat, begin: nat, end: nat)
    requires begin <= end <= BUF_SIZE
    ensures (forall b: seq<char> :: |b| == BUF_SIZE + 1 ==>
               AfterResponse(b, statusCode, contentType, length)[begin..end] == b[begin..end])
      <==> begin == end || begin > Reach(statusCode, contentType, length)
  {
    hide AfterResponse, Reach;
    if begin == end || begin > Reach(statusCode, contentType, length) {
      forall b: seq<char> | |b| == BUF_SIZE + 1
        ensures AfterResponse(b, statusCode, contentType, length)[begin..end] == b[begin..end]
      {
        var a := AfterResponse(b, statusCode, contentType, length);
        forall i | begin <= i < end ensures a[i] == b[i] {
          AfterResponseAt(b, b, statusCode, contentType, length, i);
        }
      }
    } else {
      var x, y := seq(BUF_SIZE + 1, _ => 'x'), seq(BUF_SIZE + 1, _ => 'y');
      var ax, ay := AfterResponse(x, statusCode, contentType, length), AfterResponse(y, statusCode, contentType, length);
      AfterResponseAt(x, y, statusCode, contentType, length, begin);
      assert ax[begin..end][0] == ay[begin..end][0];
      assert x[begin..end][0] == 'x' && y[begin..end][0] == 'y';
    }
  }

  /** The bytes in front of the parser once a response has been printed through the buffer that holds the
      first of them. */
  function Clobbered(rest: seq<char>, w: Window, statusCode: nat, contentType: string, length: nat): (after: seq<char>)
    requires Fits(w) && |rest| == Ahead(w)
    ensures |after| == |rest|
  {
    var held := w.end - w.begin;
    var buffer := seq(w.begin, _ => NUL) + rest[..held] + seq(BUF_SIZE + 1 - w.end, _ => NUL);
    AfterResponse(buffer, statusCode, contentType, length)[w.begin..w.end] + rest[held..]
  }

  /** What the window holds after a response depends on nothing but what it held before. */
  lemma ClobberedIs(buffer: seq<char>, rest: seq<char>, w: Window, statusCode: nat, contentType: string, length: nat)
    requires Fits(w) && |rest| == Ahead(w) && |buffer| == BUF_SIZE + 1
    requires buffer[w.begin..w.end] == rest[..w.end - w.begin]
    ensures AfterResponse(buffer, statusCode, contentType, length)[w.begin..w.end] + rest[w.end - w.begin..] ==
      Clobbered(rest, w, statusCode, contentType, length)
  {
    hide AfterResponse, Reach;
    var held := w.end - w.begin;
    var b := seq(w.begin, _ => NUL) + rest[..held] + seq(BUF_SIZE + 1 - w.end, _ => NUL);
    var a, a' := AfterResponse(buffer, statusCode, contentType, length), AfterResponse(b, statusCode, contentType, length);
    forall i | w.begin <= i < w.end ensures a[i] == a'[i] {
      assert buffer[i] == buffer[w.begin..w.end][i - w.begin] == b[i];
      AfterResponseAt(buffer, b, statusCode, contentType, length, i);
      AfterResponseAt(b, buffer, statusCode, contentType, length, i);
    }
    assert a[w.begin..w.end] == a'[w.begin..w.end];
  }

  /** The window is empty, or its bytes lie behind the longest line of the response. */
  predicate Spared(w: Window, statusCode: nat, contentType: string, length: nat) {
    w.begin == w.end || w.begin > Reach(statusCode, contentType, length)
  }

  /** The bytes in front of the parser are the same after a response, whatever they are, exactly when the
      window is empty or lies behind the longest line. */
  lemma SparedIff(w: Window, statusCode: nat, contentType: string, length: nat)
    requires Fits(w)
    ensures (forall rest: seq<char> :: |rest| == Ahead(w) ==>
               Clobbered(rest, w, statusCode, contentType, length) == rest)
      <==> Spared(w, statusCode, contentType, length)
  {
    if Spared(w, statusCode, contentType, length) {
      forall rest: seq<char> | |rest| == Ahead(w) ensures Clobbered(rest, w, statusCode, contentType, length) == rest {
        SparedBytes(rest, w, statusCode, contentType, length);
      }
    } else {
      var x, y := seq(Ahead(w), _ => 'x'), seq(Ahead(w), _ => 'y');
      SameFirst(x, y, w, statusCode, contentType, length);
      assert x[0] != y[0];
    }
  }

  lemma SparedBytes(rest: seq<char>, w: Window, statusCode: nat, contentType: string, length: nat)
    requires Fits(w) && |rest| == Ahead(w) && Spared(w, statusCode, contentType, length)
    ensures Clobbered(rest, w, statusCode, contentType, length) == rest
  {
    hide AfterResponse, Reach;
    var held := w.end - w.begin;
    var b := seq(w.begin, _ => NUL) + rest[..held] + seq(BUF_SIZE + 1 - w.end, _ => NUL);
    var a := AfterResponse(b, statusCode, contentType, length);
    forall i | w.begin <= i < w.end ensures a[i] == rest[i - w.begin] {
      AfterResponseAt(b, b, statusCode, contentType, length, i);
    }
    assert a[w.begin..w.end] == rest[..held];
  }

  /** The first byte of a window that a response reaches no longer depends on what it was. */
  lemma SameFirst(x: seq<char>, y: seq<char>, w: Window, statusCode: nat, contentType: string, length: nat)
    requires Fits(w) && |x| == |y| == Ahead(w) && !Spared(w, statusCode, contentType, length)
    ensures Clobbered(x, w, statusCode, contentType, length)[0] == Clobbered(y, w, statusCode, contentType, length)[0]
  {
    hide AfterResponse, Reach;
    var held := w.end - w.begin;
    var b := seq(w.begin, _ => NUL) + x[..held] + seq(BUF_SIZE + 1 - w.end, _ => NUL);
    var b' := seq(w.begin, _ => NUL) + y[..held] + seq(BUF_SIZE + 1 - w.end, _ => NUL);
    AfterResponseAt(b, b', statusCode, contentType, length, w.begin);
  }
}
