/** The path part of http_processGetHead and the keep-alive loop of http_accept in src/http.c: what a client
    gets for what it sends. */
module Server {
  import opened CStrings
  import opened Wrappers
  import opened RequestGrammar
  import opened RequestReader
  import opened Response
  import opened Sockets
  import opened UrlPath
  import ContentTypes

  const DEFAULT_FILE_NAME := "/index.html"
  const CONTENT_TYPE_DEFAULT := "text/html; charset=UTF-8"

  /** The capacity a connection starts with, and the longest request target that goes with it. */
  const URL_BUFFER_LENGTH: nat := 128

  const MAX_URL: nat := 65534

  // ----- which file a request asks for -----

  /** A file name, and the length that is used to find its content type. */
  datatype Resource = Resource(path: string, pathLength: nat)

  /** What the URL automaton reads of a request target: its C string with the terminator, but nothing of
      an empty one. */
  function TargetText(target: string): string {
    var u := target[..FirstOf(target, 0, {NUL})];
    if u == [] then [] else u + [NUL]
  }

  function Resolve(target: string): Option<Resource> {
    var t := TargetText(target);
    var slice := PathSlice(t);
    if slice.NoPath? || slice.length < 1 then None else
      SliceIsMaximal(t);
      var path := Trimmed(t, slice);
      Some(Resource(if path == "/" then DEFAULT_FILE_NAME else path, slice.length))
  }

  /** The length that goes with a path covers it, except that a replaced "/" keeps its own. */
  lemma LengthCoversPath(target: string)
    requires Resolve(target).Some?
    ensures var r := Resolve(target).value;
      && (r.path != DEFAULT_FILE_NAME ==> |r.path| <= r.pathLength <= |r.path| + 1)
      && (r.pathLength < |r.path| ==> r.path == DEFAULT_FILE_NAME && r.pathLength <= 2)
  {
    SliceIsMaximal(TargetText(target));
  }

  // ----- what the targets of a client name -----

  /** Nothing in the text means anything to the URL automaton. */
  predicate Plain(s: string) {
    forall i :: 0 <= i < |s| ==> s[i] !in {':', '#', '?', NUL}
  }

  function Page(path: string): string {
    if path == "/" then DEFAULT_FILE_NAME else path
  }

  /** A target without NUL whose path reaches to its end names that path. */
  lemma NamesTail(target: string, start: nat, path: string)
    requires NUL !in target && path != "" && start + |path| == |target| && target[start..] == path
    requires PathSlice(target + [NUL]) == Slice(start, |path| + 1)
    ensures Resolve(target) == Some(Resource(Page(path), |path| + 1))
  {
    hide PathSlice, FirstOf;
    FirstOfIs(target, 0, {NUL}, |target|);
    assert target[..|target|] == target;
    assert TargetText(target) == target + [NUL];
    hide TargetText;
    var p := (target + [NUL])[start..start + |path| + 1];
    assert p == path + [NUL] && p[..|path|] == path;
  }

  /** A plain target names itself. */
  lemma PlainTarget(target: string)
    requires target != "" && Plain(target)
    ensures Resolve(target) == Some(Resource(Page(target), |target| + 1))
  {
    var t := target + [NUL];
    FirstOfIs(t, 0, {':', '#', '?'}, |t|);
    NamesTail(target, 0, target);
  }

  /** With a query or a fragment it names the same. */
  lemma QueriedTarget(target: string, mark: char, more: string)
    requires target != "" && Plain(target) && (mark == '?' || mark == '#')
    ensures Resolve(target + [mark] + more) == Some(Resource(Page(target), |target|))
  {
    var whole := target + [mark] + more;
    var t := TargetText(whole);
    assert forall i :: 0 <= i < |target| ==> whole[i] == target[i];
    assert whole[|target|] == mark;
    assert forall i :: 0 <= i <= |target| ==> t[i] == whole[i];
    assert FirstOf(t, 0, {':', '#', '?'}) == |target|;
    assert t[0..|target|] == target;
  }

  /** A target that is empty, or begins with a query or fragment, names nothing. */
  lemma EmptyTarget(target: string)
    requires target == "" || target[0] in {'?', '#', NUL}
    ensures Resolve(target).None?
  {
    var u := target[..FirstOf(target, 0, {NUL})];
    if u != "" {
      assert TargetText(target)[0] == target[0];
      FirstOfIs(TargetText(target), 0, {':', '#', '?'}, 0);
    } else {
      FirstOfIs(TargetText(target), 0, {':', '#', '?'}, 0);
    }
  }

  /** Nor does a server and port with nothing behind them. */
  lemma BareServer(server: string, port: string)
    requires Plain(server) && port != "" && NUL !in port && '/' !in port
    ensures Resolve(server + ":" + port).None?
  {
    var whole := server + ":" + port;
    var t := whole + [NUL];
    assert forall i :: 0 <= i < |whole| ==> whole[i] != NUL;
    FirstOfIs(whole, 0, {NUL}, |whole|);
    assert whole[..|whole|] == whole && TargetText(whole) == t;
    hide TargetText, FirstOf;
    assert forall m :: 0 <= m < |server| ==> t[m] == server[m];
    FirstOfIs(t, 0, {':', '#', '?'}, |server|);
    assert forall m :: 0 <= m < |port| ==> t[|server| + 1 + m] == port[m];
    forall m | |server| + 1 <= m < |t| ensures t[m] != '/' {
      assert m < |whole| ==> t[m] == port[m - |server| - 1];
    }
    FirstOfIs(t, |server| + 2, {'/'}, |t|);
  }

  /** Behind a scheme and a server a path names the same as alone. */
  lemma AbsoluteTarget(scheme: string, server: string, path: string)
    requires Plain(scheme) && server != "" && Plain(path) && path != "" && path[0] == '/'
    requires NUL !in server && '/' !in server
    ensures Resolve(scheme + "://" + server + path) == Some(Resource(Page(path), |path| + 1))
  {
    AbsoluteSlice(scheme, server, path);
    hide PathSlice, Resolve;
    var whole, start := scheme + "://" + server + path, |scheme| + 3 + |server|;
    assert whole[start..] == path;
    NamesTail(whole, start, path);
  }

  /** Behind a server and a port a path is named without its slash. */
  lemma PortTarget(server: string, port: string, path: string)
    requires Plain(server) && port != "" && Plain(path) && path != "" && NUL !in port && '/' !in port
    ensures Resolve(server + ":" + port + "/" + path) == Some(Resource(Page(path), |path| + 1))
  {
    PortSlice(server, port, path);
    hide PathSlice, Resolve;
    var whole, start := server + ":" + port + "/" + path, |server| + 2 + |port|;
    assert whole[start..] == path;
    NamesTail(whole, start, path);
  }

  lemma PortSlice(server: string, port: string, path: string)
    requires Plain(server) && port != "" && Plain(path) && path != "" && NUL !in port && '/' !in port
    ensures PathSlice(server + ":" + port + "/" + path + [NUL]) == Slice(|server| + 2 + |port|, |path| + 1)
  {
    hide FirstOf;
    var t, colon, slash := server + ":" + port + "/" + path + [NUL], |server|, |server| + 1 + |port|;
    assert t[..colon] == server && t[colon] == ':' && t[slash] == '/';
    assert t[colon + 1..slash] == port && t[slash + 1..|t|] == path + [NUL];
    forall m | 0 <= m < colon ensures t[m] !in {':', '#', '?'} {
      assert t[m] == t[..colon][m];
    }
    FirstOfIs(t, 0, {':', '#', '?'}, colon);
    assert t[colon + 1] == t[colon + 1..slash][0] != '/';
    forall m | colon + 2 <= m < slash ensures t[m] != '/' {
      assert t[m] == t[colon + 1..slash][m - colon - 1];
    }
    FirstOfIs(t, colon + 2, {'/'}, slash);
    forall m | slash + 1 <= m < |t| ensures t[m] !in {'#', '?'} {
      assert t[m] == t[slash + 1..|t|][m - slash - 1];
    }
    FirstOfIs(t, slash + 1, {'#', '?'}, |t|);
  }

  lemma AbsoluteSlice(scheme: string, server: string, path: string)
    requires Plain(scheme) && server != "" && Plain(path) && path != "" && path[0] == '/'
    requires NUL !in server && '/' !in server
    ensures PathSlice(scheme + "://" + server + path + [NUL]) == Slice(|scheme| + 3 + |server|, |path| + 1)
  {
    hide FirstOf;
    var t, colon, slash := scheme + "://" + server + path + [NUL], |scheme|, |scheme| + 3 + |server|;
    assert t[..colon] == scheme && t[colon] == ':' && t[colon + 1] == t[colon + 2] == '/';
    assert t[colon + 3..slash] == server && t[slash..|t|] == path + [NUL];
    forall m | 0 <= m < colon ensures t[m] !in {':', '#', '?'} {
      assert t[m] == t[..colon][m];
    }
    FirstOfIs(t, 0, {':', '#', '?'}, colon);
    forall m | colon + 4 <= m < slash ensures t[m] != '/' {
      assert t[m] == t[colon + 3..slash][m - colon - 3];
    }
    assert t[slash] == t[slash..|t|][0];
    FirstOfIs(t, colon + 4, {'/'}, slash);
    forall m | slash <= m < |t| ensures t[m] !in {'#', '?'} {
      assert t[m] == t[slash..|t|][m - slash];
    }
    FirstOfIs(t, slash, {'#', '?'}, |t|);
  }

  // ----- where the type of a target comes from -----

  /** How the scan for the type of a resource ends. */
  function TypeScan(r: Resource): ContentTypes.Scan
    requires |r.path| < SIZE_RANGE
  {
    ContentTypes.ScanFrom(r.path, ContentTypes.FirstIndex(|Cut(r.path, r.pathLength)|))
  }

  /** For every target: the scan for its type stays inside its path exactly when that has a dot and is not
      the page that "/" stands for. */
  lemma TypeScanInsideIff(target: string)
    requires Resolve(target).Some? && |Resolve(target).value.path| < SIZE_RANGE
    ensures var r := Resolve(target).value;
      TypeScan(r).Found? <==> '.' in r.path && r.pathLength >= |r.path|
  {
    LengthCoversPath(target);
    hide Resolve;
    var r := Resolve(target).value;
    ContentTypes.ScanInsideIff(r.path, |Cut(r.path, r.pathLength)|);
    if r.pathLength >= |r.path| {
      assert r.path[..|r.path|] == r.path;
    }
  }

  /** "/" itself is such a target: the scan leaves the path. */
  lemma RootRequest()
    ensures Resolve("/") == Some(Resource("/index.html", 2)) && TypeScan(Resolve("/").value).RunsOff?
  {
    PlainTarget("/");
    TypeScanInsideIff("/");
  }

  /** And so is every plain target without a dot. */
  lemma DotlessRequest(target: string)
    requires target != "" && Plain(target) && '.' !in target && |target| < SIZE_RANGE
    ensures Resolve(target).Some? && |Resolve(target).value.path| < SIZE_RANGE && TypeScan(Resolve(target).value).RunsOff?
  {
    PlainTarget(target);
    if target == "/" {
      RootRequest();
    } else {
      TypeScanInsideIff(target);
    }
  }

  /** Reading the index of the scan as signed: the type found for a request is that of its whole path, except
      where "/" stands for a page whose own ending has a type other than the default. */
  lemma TypeOfWholePathIff(types: map<string, string>, target: string)
    requires Resolve(target).Some?
    ensures var r := Resolve(target).value;
      ContentTypes.TypeOf(types, r.path, r.pathLength) == ContentTypes.TypeOf(types, r.path, |r.path|)
      <==> r.pathLength >= |r.path| || "html" !in types || types["html"] == ContentTypes.DEFAULT_TYPE
  {
    LengthCoversPath(target);
    var r := Resolve(target).value;
    if r.pathLength < |r.path| {
      PageEnding();
      assert ContentTypes.LastDot(r.path, r.pathLength) == -1;
    }
    hide Resolve, ContentTypes.LastDot;
  }

  lemma PageEnding()
    ensures ContentTypes.LastDot(DEFAULT_FILE_NAME, |DEFAULT_FILE_NAME|) == 6 && DEFAULT_FILE_NAME[7..] == "html"
  {
    assert forall k :: 6 < k < |DEFAULT_FILE_NAME| ==> DEFAULT_FILE_NAME[k] != ContentTypes.FILE_EXTENSION_SEPARATOR;
    assert DEFAULT_FILE_NAME[6] == ContentTypes.FILE_EXTENSION_SEPARATOR;
  }

  /** The path part of http_processGetHead: the path as a C string, in the request's buffer or a constant. */
  method ResolvePath(request: HttpRequest, ghost target: string)
    returns (code: int, path: array<char>, off: nat, pathLength: nat)
    requires request.Valid() && request.Holds(target)
    modifies request.url
    ensures path == request.url || fresh(path)
    ensures match Resolve(target)
      case None => code == -1
      case Some(r) =>
        && code == 0 && Terminated(path[..], off)
        && CStr(path[..], off) == r.path && pathLength == r.pathLength
  {
    hide PathSlice, Scanned, Trimmed, TargetText, StrEnd, CStr, Terminated;
    ghost var t, url := TargetText(target), request.url[..];
    TargetScanned(url, target);
    path, off := request.url, 0;
    var start;
    code, start, pathLength := UrlGetPath(request.url, request.urlMaxLength);
    if code != 0 || 1 > pathLength {
      code := -1;
      return;
    }
    TerminatedPath(url);
    SliceIsMaximal(t);
    off := start;
    path[off + pathLength] := NUL;
    assert path[..] == url[off + pathLength := NUL];
    IsRoot(path[..], off);
    if path[off] == '/' && path[off + 1] == NUL {
      path := Literal(DEFAULT_FILE_NAME);
      off := 0;
    }
  }

  lemma IsRoot(s: seq<char>, off: nat)
    requires Terminated(s, off) && off + 1 < |s|
    ensures CStr(s, off) == "/" <==> s[off] == '/' && s[off + 1] == NUL
  {
    if s[off] == '/' && s[off + 1] == NUL {
      assert s[off..off + 1] == "/";
      CStrIs(s, off, "/");
    }
  }

  /** The text the automaton reads does not depend on the buffer around the target. */
  lemma TargetScanned(url: seq<char>, target: string)
    requires |target| + 2 <= |url| && url[..|target|] == target && url[|target|] == NUL
    ensures Terminated(url, 0) && StrEnd(url, 0) + 2 <= |url|
    ensures Scanned(url, |url|) == TargetText(target)
  {
    var n := FirstOf(target, 0, {NUL});
    assert forall i :: 0 <= i < |target| ==> url[i] == target[i];
    assert url[0..0 + n] == target[..n];
    assert url[n] == NUL;
    assert NUL !in target[..n] by {
      assert forall i :: 0 <= i < n ==> target[i] != NUL;
    }
    CStrIs(url, 0, target[..n]);
    ScannedWhole(url);
    assert url[..n + 1] == url[..n] + [NUL];
  }

  // ----- what a request is answered with -----

  /** The files below the document root, and the page that reports a missing one. */
  datatype Disk = Disk(files: map<string, seq<char>>, page: string)

  ghost predicate Sizes(disk: Disk) {
    |disk.page| < SIZE_RANGE && forall path :: path in disk.files ==> |disk.files[path]| < SIZE_RANGE
  }

  /** Every type has a header line that can be sent from the buffer it is printed into. */
  ghost predicate Printable(types: map<string, string>) {
    forall ending :: ending in types ==> |types[ending]| <= 240
  }

  /** What the client receives. Next: the connection goes on, after a response with this type and length. */
  datatype Answer = Last(text: string) | Next(text: string, contentType: string, length: nat)

  function AnswerTo(types: map<string, string>, disk: Disk, r: Request): Answer {
    match Resolve(r.url)
    case None => Last("")
    case Some(resource) =>
      if resource.path !in disk.files then
        Last(Wire(404, CONTENT_TYPE_DEFAULT, |disk.page|, 2, disk.page))
      else
        var file, type_ := disk.files[resource.path], ContentTypes.TypeOf(types, resource.path, resource.pathLength);
        Next(Wire(200, type_, |file|, 2, if r.kind == HEAD then "" else file), type_, |file|)
  }

  /** What is in front of the parser, and where the window stands, when the client has sent more. */
  function WithMore(left: string, later: seq<string>): (unread: string)
    ensures later == [] ==> unread == left
  {
    if later == [] then left else left + later[0]
  }

  function Refilled(w: Window, later: seq<string>): Window {
    if later == [] then w else w.(left := w.left + |later[0]|)
  }

  /** What one round of the loop of http_accept does: the text that goes onto the wire and, if the connection
      goes on, the bytes in front of the parser and the place of the window. */
  datatype Turn = Over(text: string) | GoesOn(text: string, left: string, window: Window)

  function TurnOf(types: map<string, string>, disk: Disk, unread: string, w: Window): (turn: Turn)
    requires Fits(w) && |unread| == Ahead(w)
    ensures turn.GoesOn? ==> Fits(turn.window) && |turn.left| == Ahead(turn.window) < |unread|
  {
    match ParseRequest(unread, MAX_URL)
    case None => Over("")
    case Some((r, rest)) =>
      RestIsShorter(unread, MAX_URL);
      match AnswerTo(types, disk, r)
      case Last(text) => Over(text)
      case Next(text, contentType, length) =>
        var w1 := After(w, |unread| - |rest|);
        GoesOn(text, Clobbered(rest, w1, 200, contentType, length), w1)
  }

  /** Everything a client receives that has sent unread and, after each response, the next of later: each
      request is read from what the responses before it have left of the window. */
  function Received(types: map<string, string>, disk: Disk, unread: string, later: seq<string>, w: Window,
                    keepAlive: bool): string
    requires Fits(w) && |unread| == Ahead(w)
    decreases |later|, |unread|
  {
    var turn := TurnOf(types, disk, unread, w);
    turn.text + if !keepAlive || turn.Over? then "" else
      Received(types, disk, WithMore(turn.left, later), Later(later), Refilled(turn.window, later), keepAlive)
  }

  /** The answers to the requests that the client has sent, one after the other. */
  function Replies(types: map<string, string>, disk: Disk, unread: string, later: seq<string>, keepAlive: bool): string
    decreases |later|, |unread|
  {
    match ParseRequest(unread, MAX_URL)
    case None => ""
    case Some((r, rest)) =>
      RestIsShorter(unread, MAX_URL);
      var answer := AnswerTo(types, disk, r);
      answer.text + if !keepAlive || answer.Last? then "" else
        Replies(types, disk, WithMore(rest, later), Later(later), keepAlive)
  }

  lemma RestIsShorter(s: string, limit: int)
    ensures ParseRequest(s, limit).Some? ==> |ParseRequest(s, limit).value.1| < |s|
  {
    if ParseRequest(s, limit).Some? {
      var (r, rest) := ParseRequest(s, limit).value;
      var p := PartsOf(s, limit, r, rest);
    }
  }

  /** Every response that is followed by another request finds the window empty, or its bytes behind the
      longest line the response prints. */
  ghost predicate Undisturbed(types: map<string, string>, disk: Disk, unread: string, later: seq<string>, w: Window)
    requires Fits(w) && |unread| == Ahead(w)
    decreases |later|, |unread|
  {
    match ParseRequest(unread, MAX_URL)
    case None => true
    case Some((r, rest)) =>
      RestIsShorter(unread, MAX_URL);
      var answer, w1 := AnswerTo(types, disk, r), After(w, |unread| - |rest|);
      answer.Next? ==>
        && Spared(w1, 200, answer.contentType, answer.length)
        && Undisturbed(types, disk, WithMore(rest, later), Later(later), Refilled(w1, later))
  }

  /** A client that waits for each response before it sends the next request. */
  ghost predicate OneByOne(types: map<string, string>, disk: Disk, unread: string, later: seq<string>)
    decreases |later|
  {
    match ParseRequest(unread, MAX_URL)
    case None => true
    case Some((r, rest)) =>
      AnswerTo(types, disk, r).Next? ==>
        rest == "" && (later != [] ==> OneByOne(types, disk, later[0], later[1..]))
  }

  /** One turn of a conversation. */
  lemma NextTurn(types: map<string, string>, disk: Disk, unread: string, later: seq<string>, keepAlive: bool)
    ensures ParseRequest(unread, MAX_URL).None? ==> Replies(types, disk, unread, later, keepAlive) == ""
    ensures ParseRequest(unread, MAX_URL).Some? ==>
      var (r, rest) := ParseRequest(unread, MAX_URL).value; var answer := AnswerTo(types, disk, r);
      var unread', later' := WithMore(rest, later), Later(later);
      && Replies(types, disk, unread, later, keepAlive) ==
           answer.text + (if keepAlive && answer.Next? then Replies(types, disk, unread', later', keepAlive) else "")
      && (answer.Next? ==>
            (OneByOne(types, disk, unread, later) <==> rest == "" && OneByOne(types, disk, unread', later')))
  {
    assert ParseRequest("", MAX_URL).None?;
    hide ParseRequest, AnswerTo;
    assert later != [] ==> "" + later[0] == later[0];
  }

  /** As long as every response spares the window, the n-th request that is read is the n-th the client sent,
      however the network splits the stream. */
  lemma {:induction false} UndisturbedReplies(types: map<string, string>, disk: Disk, unread: string, later: seq<string>,
                                              w: Window, keepAlive: bool)
    requires Fits(w) && |unread| == Ahead(w)
    requires keepAlive ==> Undisturbed(types, disk, unread, later, w)
    ensures Received(types, disk, unread, later, w, keepAlive) == Replies(types, disk, unread, later, keepAlive)
    decreases |later|, |unread|
  {
    RestIsShorter(unread, MAX_URL);
    hide ParseRequest, AnswerTo, After, Clobbered, Spared;
    if ParseRequest(unread, MAX_URL).Some? {
      var (r, rest) := ParseRequest(unread, MAX_URL).value;
      var answer, w1 := AnswerTo(types, disk, r), After(w, |unread| - |rest|);
      if keepAlive && answer.Next? {
        SparedBytes(rest, w1, 200, answer.contentType, answer.length);
        UndisturbedReplies(types, disk, WithMore(rest, later), Later(later), Refilled(w1, later), keepAlive);
      }
    }
  }

  /** Waiting for each response keeps the window empty whenever one is printed. */
  lemma {:induction false} WaitingSpares(types: map<string, string>, disk: Disk, unread: string, later: seq<string>,
                                         w: Window)
    requires Fits(w) && |unread| == Ahead(w) && OneByOne(types, disk, unread, later)
    ensures Undisturbed(types, disk, unread, later, w)
    decreases |later|, |unread|
  {
    NextTurn(types, disk, unread, later, true);
    RestIsShorter(unread, MAX_URL);
    hide ParseRequest, AnswerTo, After, OneByOne;
    if ParseRequest(unread, MAX_URL).Some? {
      var (r, rest) := ParseRequest(unread, MAX_URL).value;
      var w1 := After(w, |unread| - |rest|);
      if AnswerTo(types, disk, r).Next? {
        WaitingSpares(types, disk, WithMore(rest, later), Later(later), Refilled(w1, later));
      }
    }
  }

  // ----- the server -----

  /** Connection, request and content types are separate objects. */
  ghost predicate Apart(connection: Connection, request: HttpRequest, types: ContentTypes.Database)
    reads request, types, types.contentTypeHash
  {
    && {connection, connection.readBuffer, connection.socket, request, request.url} !! types.Repr()
    && request.url != connection.readBuffer
  }

  ghost function Texts(types: ContentTypes.Database): map<string, string>
    reads types
  {
    ContentTypes.Texts(types.types)
  }

  /** http_processGetHead; ok is false where the process gives up. */
  method ProcessGetHead(connection: Connection, request: HttpRequest, ghost r: Request, types: ContentTypes.Database,
                        disk: Disk) returns (ok: bool)
    requires connection.Valid() && request.Valid() && request.Holds(r.url) && r.kind == request.kind
    requires types.Valid() && types.Repr() <= types.mem.live && Apart(connection, request, types)
    requires Printable(Texts(types)) && Sizes(disk)
    modifies request.url, connection.readBuffer, connection.socket`sent
    ensures connection.Valid()
    ensures ok ==> match AnswerTo(Texts(types), disk, r)
      case Last(_) => false
      case Next(_, contentType, length) =>
        connection.Unread() == Clobbered(old(connection.Unread()), connection.Position(), 200, contentType, length)
    ensures Works(connection.socket) ==>
      var answer := AnswerTo(Texts(types), disk, r);
      && ok == answer.Next?
      && connection.socket.sent == old(connection.socket.sent) + answer.text
  {
    hide After, Wire, AfterResponse, Clobbered, Resolve, Sent;
    hide types.Valid, ContentTypes.TypeBlocks, ContentTypes.Texts, ContentTypes.TypeOf;
    var code, path, off, pathLength := ResolvePath(request, r.url);
    if code != 0 {
      return false;
    }
    var name := CStr(path[..], off);
    if name !in disk.files {
      var c, terminator := SendBuffer(connection, 404, CONTENT_TYPE_DEFAULT, Some(disk.page), |disk.page|);
      return false;
    }
    var fileLength := |disk.files[name]|;
    var contentType := types.Get(path, off, pathLength);
    TypePrintable(Texts(types), name, pathLength);
    CStrOfCopy(contentType.text);
    var typeString := CStr(contentType.typeString[..], 0);
    var body := if request.kind == GET then Some(disk.files[name]) else None;
    var terminator;
    ghost var before, buffer := connection.Unread(), connection.readBuffer[..];
    code, terminator := SendBuffer(connection, 200, typeString, body, fileLength);
    ok := code == 0;
    if ok {
      ClobberedIs(buffer, before, connection.Position(), 200, typeString, fileLength);
    }
  }

  lemma TypePrintable(types: map<string, string>, path: string, maxPathLength: nat)
    requires Printable(types)
    ensures |ContentTypes.TypeOf(types, path, maxPathLength)| <= 240
  {
  }

  lemma LimitKept(s: string, capacity: nat, r: Request, rest: string)
    requires capacity >= 2 && ParseRequest(s, MaxToken(capacity)) == Some((r, rest))
    ensures MaxToken(GrownTo(capacity, |r.url|)) == MaxToken(capacity)
  {
    var p := PartsOf(s, MaxToken(capacity), r, rest);
    TopUnchanged(capacity, |r.url|);
  }

  /** One round of the loop of http_accept: a request is read and answered. */
  method Serve(connection: Connection, request: HttpRequest, types: ContentTypes.Database, disk: Disk) returns (ok: bool)
    requires connection.Valid() && connection.origin == connection.Position()
    requires request.Valid() && MaxToken(request.urlMaxLength) == MAX_URL
    requires types.Valid() && types.Repr() <= types.mem.live && Apart(connection, request, types)
    requires Printable(Texts(types)) && Sizes(disk)
    modifies connection`begin, connection`end, connection.readBuffer
    modifies connection.socket`pending, connection.socket`supply, connection.socket`sent, request, request.url
    ensures ok ==> connection.InBounds() && connection.Valid()
    ensures ok ==> request.Valid() && MaxToken(request.urlMaxLength) == MAX_URL
    ensures ok ==> (request.url == old(request.url) || fresh(request.url)) && Apart(connection, request, types)
    ensures types.Valid()
    ensures var turn := TurnOf(Texts(types), disk, old(connection.Unread()), old(connection.Position()));
      && (ok ==> turn.GoesOn? && connection.Unread() == turn.left && connection.Position() == turn.window)
      && (Works(connection.socket) ==>
            ok == turn.GoesOn? && connection.socket.sent == old(connection.socket.sent) + turn.text)
  {
    hide ParseRequest, AnswerTo, MaxToken, After, Clobbered, types.Valid, ContentTypes.TypeBlocks, ContentTypes.Texts;
    ghost var unread, capacity := connection.Unread(), request.urlMaxLength;
    RestIsShorter(unread, MAX_URL);
    var code := connection.ReadRequest(request);
    if code != 0 {
      return false;
    }
    ghost var (r, rest) := ParseRequest(unread, MAX_URL).value;
    LimitKept(unread, capacity, r, rest);
    ok := ProcessGetHead(connection, request, r, types, disk);
  }

  /** http_accept on a connection of its own: request after request until one cannot be answered. Whatever
      the client sends and however the network splits it, it receives what the specification says. */
  method Accept(connection: Connection, request: HttpRequest, types: ContentTypes.Database, disk: Disk, keepAlive: bool)
    requires connection.InBounds() && connection.Valid() && request.Valid()
    requires request.urlMaxLength == URL_BUFFER_LENGTH
    requires types.Valid() && types.Repr() <= types.mem.live && Apart(connection, request, types)
    requires Printable(Texts(types)) && Sizes(disk)
    modifies connection, connection.readBuffer, connection.socket, request, request.url
    ensures Works(connection.socket) ==>
      connection.socket.sent == old(connection.socket.sent)
        + Received(Texts(types), disk, old(connection.Unread()), old(connection.socket.later), old(connection.Position()),
                   keepAlive)
  {
    hide TurnOf, Received, Works, MaxToken, Printable, Sizes, GrownTo, TopCapacity, After;
    hide types.Valid, ContentTypes.TypeBlocks, ContentTypes.Texts, Connection.Valid;
    ghost var socket, texts := connection.socket, Texts(types);
    connection.Begin();
    assert MaxToken(URL_BUFFER_LENGTH) == MAX_URL by { LimitFromInitial(0); }
    var goesOn := true;
    while goesOn
      invariant goesOn ==> connection.InBounds() && connection.Valid() && connection.origin == connection.Position()
      invariant goesOn ==> request.Valid() && MaxToken(request.urlMaxLength) == MAX_URL
      invariant goesOn ==> Apart(connection, request, types) && (request.url == old(request.url) || fresh(request.url))
      invariant types.Valid() && Texts(types) == texts
      invariant Works(socket) ==>
        old(socket.sent) + old(Received(Texts(types), disk, connection.Unread(), socket.later, connection.Position(),
                                        keepAlive))
        == socket.sent + if goesOn then Received(texts, disk, connection.Unread(), socket.later, connection.Position(),
                                                 keepAlive) else ""
      decreases goesOn, |socket.later|, if goesOn then |connection.Unread()| else 0
    {
      goesOn := Round(connection, request, types, disk, keepAlive);
    }
  }

  /** Serve and, on a connection that is kept, what the client sends next. */
  method Round(connection: Connection, request: HttpRequest, types: ContentTypes.Database, disk: Disk, keepAlive: bool)
    returns (goesOn: bool)
    requires connection.InBounds() && connection.Valid() && connection.origin == connection.Position()
    requires request.Valid() && MaxToken(request.urlMaxLength) == MAX_URL
    requires types.Valid() && types.Repr() <= types.mem.live && Apart(connection, request, types)
    requires Printable(Texts(types)) && Sizes(disk)
    modifies connection, connection.readBuffer, connection.socket, request, request.url
    ensures types.Valid()
    ensures goesOn ==> connection.InBounds() && connection.Valid() && connection.origin == connection.Position()
    ensures goesOn ==> request.Valid() && MaxToken(request.urlMaxLength) == MAX_URL
    ensures goesOn ==> (request.url == old(request.url) || fresh(request.url)) && Apart(connection, request, types)
    ensures var texts, socket := Texts(types), connection.socket;
      Works(socket) ==>
        old(socket.sent) + Received(texts, disk, old(connection.Unread()), old(socket.later), old(connection.Position()),
                                    keepAlive)
        == socket.sent + if goesOn then Received(texts, disk, connection.Unread(), socket.later, connection.Position(),
                                                 keepAlive) else ""
    ensures goesOn ==>
      if old(connection.socket.later) == [] then
        connection.socket.later == [] && |connection.Unread()| < old(|connection.Unread()|)
      else |connection.socket.later| < old(|connection.socket.later|)
  {
    hide TurnOf, Works, MaxToken, Printable, Sizes, GrownTo, TopCapacity, After;
    hide types.Valid, ContentTypes.TypeBlocks, ContentTypes.Texts, Connection.Valid;
    ghost var later, turn := connection.socket.later, TurnOf(Texts(types), disk, connection.Unread(), connection.Position());
    assert Received(Texts(types), disk, connection.Unread(), later, connection.Position(), keepAlive) ==
      turn.text + if !keepAlive || turn.Over? then "" else
        Received(Texts(types), disk, WithMore(turn.left, later), Later(later), Refilled(turn.window, later), keepAlive);
    hide Received;
    var ok := Serve(connection, request, types, disk);
    goesOn := ok && keepAlive;
    if goesOn {
      HearMore(connection);
    }
  }

  /** The client has received a response: what it sends next is in front of the parser, as a new request. */
  method HearMore(connection: Connection)
    requires connection.InBounds() && connection.Valid()
    modifies connection`origin, connection.socket`pending, connection.socket`later
    ensures connection.InBounds() && connection.Valid() && connection.origin == connection.Position()
    ensures connection.socket.later == Later(old(connection.socket.later))
    ensures connection.Position() == Refilled(old(connection.Position()), old(connection.socket.later))
    ensures connection.Unread() == WithMore(old(connection.Unread()), old(connection.socket.later))
  {
    connection.socket.Respond();
    connection.Begin();
  }

  /** Sending to the socket works. */
  predicate Works(socket: Socket) {
    socket.faultless && socket.fd >= 0
  }

  // ----- what the client makes of it -----

  /** A request as a client makes it: how it is written, its method, and what it asks for. */
  datatype Visit = Visit(parts: Parts, kind: Kind, resource: Resource)

  /** The requests of a client, one message each. */
  function Messages(vs: seq<Visit>): seq<string> {
    seq(|vs|, i requires 0 <= i < |vs| => Join(vs[i].parts))
  }

  /** The visit is well-formed, and the file it asks for is there. */
  ghost predicate Asks(disk: Disk, v: Visit) {
    WellFormed(v.parts, v.kind, MAX_URL) && Resolve(v.parts.url) == Some(v.resource) && v.resource.path in disk.files
  }

  /** The visit is well-formed, and the file it asks for is missing. */
  ghost predicate Misses(disk: Disk, v: Visit) {
    WellFormed(v.parts, v.kind, MAX_URL) && Resolve(v.parts.url) == Some(v.resource) && v.resource.path !in disk.files
  }

  function FileOf(disk: Disk, path: string): string {
    if path in disk.files then disk.files[path] else ""
  }

  /** The reply to a visit whose file is there. */
  function Delivered(types: map<string, string>, disk: Disk, v: Visit): Reply {
    var file := FileOf(disk, v.resource.path);
    Reply("HTTP/1.1 200 OK", "Content-Length: " + Decimal(|file|), "Connection: Keep-alive",
          "Content-Type: " + ContentTypes.TypeOf(types, v.resource.path, v.resource.pathLength),
          if v.kind == HEAD then "" else file)
  }

  /** The reply to a visit whose file is missing. */
  function NotFound(disk: Disk): Reply {
    Reply("HTTP/1.1 404 Not Found", "Content-Length: " + Decimal(|disk.page|), "Connection: Keep-alive",
          "Content-Type: text/html; charset=UTF-8", disk.page)
  }

  function Answered(types: map<string, string>, disk: Disk, v: Visit): Reply {
    if v.resource.path in disk.files then Delivered(types, disk, v) else NotFound(disk)
  }

  /** A client takes as many replies off the stream as it has made requests, and nothing is left. */
  function TakeReplies(s: string, vs: seq<Visit>): Option<seq<Reply>> {
    if vs == [] then (if s == "" then Some([]) else None) else
      match TakeReply(s, vs[0].kind == HEAD)
      case None => None
      case Some((reply, rest)) =>
        match TakeReplies(rest, vs[1..])
        case None => None
        case Some(replies) => Some([reply] + replies)
  }

  /** Every type fits whole into its header line, and that is one line. */
  ghost predicate Presentable(types: map<string, string>) {
    forall ending :: ending in types ==> |types[ending]| <= 238 && CR !in types[ending]
  }

  /** All files are there, except that the last visit may be a GET for one that is missing. */
  ghost predicate Browses(disk: Disk, vs: seq<Visit>) {
    forall i :: 0 <= i < |vs| ==> Asks(disk, vs[i]) || (i == |vs| - 1 && vs[i].kind.GET? && Misses(disk, vs[i]))
  }

  /** A client that asks for files one after the other is in step with the server and reads back, in order,
      exactly these files; a missing one is reported as such, and nothing follows. */
  lemma {:induction false} FilesAreDelivered(types: map<string, string>, disk: Disk, vs: seq<Visit>)
    returns (replies: seq<Reply>)
    requires vs != [] && Presentable(types) && Sizes(disk) && Browses(disk, vs)
    ensures OneByOne(types, disk, Join(vs[0].parts), Messages(vs[1..]))
    ensures TakeReplies(Replies(types, disk, Join(vs[0].parts), Messages(vs[1..]), true), vs) == Some(replies)
    ensures |replies| == |vs| && forall i :: 0 <= i < |vs| ==> replies[i] == Answered(types, disk, vs[i])
    decreases |vs|
  {
    hide Asks, Misses, Delivered, NotFound, TakeReply, Replies, OneByOne, Join;
    var later := Messages(vs[1..]);
    assert Asks(disk, vs[0]) || (|vs| == 1 && vs[0].kind.GET? && Misses(disk, vs[0]));
    assert |vs| > 1 ==> Browses(disk, vs[1..]);
    AnsweredAs(types, disk, vs[0]);
    hide Browses, Answered;
    if Asks(disk, vs[0]) {
      FirstDelivered(types, disk, vs[0], later);
    } else {
      FirstMissing(types, disk, vs[0]);
    }
    if |vs| == 1 {
      replies := [];
    } else {
      assert later[0] == Join(vs[1..][0].parts) && later[1..] == Messages(vs[1..][1..]);
      replies := FilesAreDelivered(types, disk, vs[1..]);
    }
    replies := [Answered(types, disk, vs[0])] + replies;
  }

  lemma AnsweredAs(types: map<string, string>, disk: Disk, v: Visit)
    ensures Asks(disk, v) ==> Answered(types, disk, v) == Delivered(types, disk, v)
    ensures Misses(disk, v) ==> Answered(types, disk, v) == NotFound(disk)
  {
    hide Delivered, NotFound, WellFormed, Resolve;
  }

  lemma FirstMissing(types: map<string, string>, disk: Disk, v: Visit)
    requires Sizes(disk) && Misses(disk, v)
    ensures TakeReply(Replies(types, disk, Join(v.parts), [], true), false) == Some((NotFound(disk), ""))
    ensures OneByOne(types, disk, Join(v.parts), [])
  {
    hide NotFound, TakeReply, ParseRequest, Join, AnswerTo, WellFormed, Resolve;
    AskedAndParsed(v, "");
    assert Join(v.parts) + "" == Join(v.parts);
    MissingIsReported(types, disk, v);
    NextTurn(types, disk, Join(v.parts), [], true);
    OneByOneLast(types, disk, Join(v.parts), []);
    hide Misses, Replies, OneByOne;
    var text := AnswerTo(types, disk, RequestOf(v)).text;
    assert text + "" == text;
  }

  lemma OneByOneLast(types: map<string, string>, disk: Disk, unread: string, later: seq<string>)
    requires ParseRequest(unread, MAX_URL).Some? && AnswerTo(types, disk, ParseRequest(unread, MAX_URL).value.0).Last?
    ensures OneByOne(types, disk, unread, later)
  {
    hide ParseRequest, AnswerTo;
  }

  /** For a file that is missing the connection ends with a report: a client that takes the body finds the
      page and nothing behind it, one that expects none, as in answer to HEAD, finds the page left over. */
  lemma MissingIsReported(types: map<string, string>, disk: Disk, v: Visit)
    requires Sizes(disk) && Misses(disk, v)
    ensures AnswerTo(types, disk, RequestOf(v)).Last?
    ensures TakeReply(AnswerTo(types, disk, RequestOf(v)).text, false) == Some((NotFound(disk), ""))
    ensures TakeReply(AnswerTo(types, disk, RequestOf(v)).text, true) == Some((NotFound(disk).(body := ""), disk.page))
  {
    hide TakeReply, Frame, Wire, Resolve, WellFormed, Padded, Message, Decimal;
    var page, frame := disk.page, Frame(404, CONTENT_TYPE_DEFAULT, |disk.page|, disk.page);
    FramedIff(404, CONTENT_TYPE_DEFAULT, |page|, 2, page);
    ReplyReadsBack(404, CONTENT_TYPE_DEFAULT, |page|, page, "", false);
    ReplyReadsBack(404, CONTENT_TYPE_DEFAULT, |page|, "", page, true);
    FrameBody(404, CONTENT_TYPE_DEFAULT, |page|, page);
    assert frame + "" == frame;
    StatusNotFound();
    HeaderTexts(|page|, CONTENT_TYPE_DEFAULT);
  }

  lemma HeaderTexts(length: nat, contentType: string)
    ensures CONTENT_LENGTH + ": " + Decimal(length) == "Content-Length: " + Decimal(length)
    ensures CONNECTION + ": " + KEEP_ALIVE == "Connection: Keep-alive"
    ensures CONTENT_TYPE + ": " + contentType == "Content-Type: " + contentType
    ensures "Content-Type: " + CONTENT_TYPE_DEFAULT == "Content-Type: text/html; charset=UTF-8"
  {
    assert CONTENT_LENGTH + ": " == "Content-Length: " && CONTENT_TYPE + ": " == "Content-Type: ";
  }

  lemma FrameBody(statusCode: nat, contentType: string, length: nat, body: string)
    ensures Frame(statusCode, contentType, length, "") + body == Frame(statusCode, contentType, length, body)
  {
    hide StatusLine, HeaderLine;
  }

  lemma StatusNotFound()
    ensures "HTTP/1.1 " + Padded(404) + " " + Message(404) == "HTTP/1.1 404 Not Found"
  {
    assert Padded(404) == "404";
  }

  /** Whatever the client sends behind it, and however the network splits the stream: the report is all that
      is received after a request for a missing file. */
  lemma NothingFollowsMissing(types: map<string, string>, disk: Disk, v: Visit, more: string, later: seq<string>,
                              w: Window, keepAlive: bool)
    requires Sizes(disk) && Misses(disk, v) && Fits(w) && |Join(v.parts) + more| == Ahead(w)
    ensures TakeReply(Received(types, disk, Join(v.parts) + more, later, w, keepAlive), false) == Some((NotFound(disk), ""))
  {
    hide NotFound, TakeReply, ParseRequest, Join, AnswerTo, WellFormed, Resolve, After, Clobbered;
    AskedAndParsed(v, more);
    MissingIsReported(types, disk, v);
    hide Misses;
    var text := AnswerTo(types, disk, RequestOf(v)).text;
    assert text + "" == text;
  }

  /** On a connection that is not kept, the reply to the first request is all that is received. */
  lemma OneReplyOnly(types: map<string, string>, disk: Disk, v: Visit, more: string, later: seq<string>, w: Window)
    requires Presentable(types) && Sizes(disk) && Asks(disk, v) && Fits(w) && |Join(v.parts) + more| == Ahead(w)
    ensures TakeReply(Received(types, disk, Join(v.parts) + more, later, w, false), v.kind == HEAD) ==
      Some((Delivered(types, disk, v), ""))
  {
    hide Delivered, TakeReply, ParseRequest, Join, AnswerTo, Clobbered, After, WellFormed, Resolve, Presentable;
    AskedAndParsed(v, more);
    AskedAndDelivered(types, disk, v, "");
    hide Asks;
    var text := AnswerTo(types, disk, RequestOf(v)).text;
    assert text + "" == text;
  }

  /** A client that does not begin with a well-formed request receives nothing. */
  lemma NothingForMalformed(types: map<string, string>, disk: Disk, unread: string, later: seq<string>, w: Window,
                            keepAlive: bool)
    requires Fits(w) && |unread| == Ahead(w)
    requires forall p, r, rest :: !Stands(p, unread, MAX_URL, r, rest)
    ensures Received(types, disk, unread, later, w, keepAlive) == ""
  {
    if ParseRequest(unread, MAX_URL).Some? {
      var (r, rest) := ParseRequest(unread, MAX_URL).value;
      var p := PartsOf(unread, MAX_URL, r, rest);
    }
  }

  /** Nor does one whose target has no path. */
  lemma NothingWithoutPath(types: map<string, string>, disk: Disk, p: Parts, kind: Kind, more: string, later: seq<string>,
                           w: Window, keepAlive: bool)
    requires WellFormed(p, kind, MAX_URL) && Resolve(p.url).None? && Fits(w) && |Join(p) + more| == Ahead(w)
    ensures Received(types, disk, Join(p) + more, later, w, keepAlive) == ""
  {
    ParseJoined(p, MAX_URL, Request(kind, p.url, p.majVersion, p.minVersion), more);
    hide Resolve, ParseRequest, Join, WellFormed;
  }

  lemma FirstDelivered(types: map<string, string>, disk: Disk, v: Visit, later: seq<string>)
    requires Presentable(types) && Sizes(disk) && Asks(disk, v)
    ensures TakeReply(Replies(types, disk, Join(v.parts), later, true), v.kind == HEAD) ==
      Some((Delivered(types, disk, v), if later == [] then "" else Replies(types, disk, later[0], later[1..], true)))
    ensures (later != [] ==> OneByOne(types, disk, later[0], later[1..])) ==>
      OneByOne(types, disk, Join(v.parts), later)
  {
    hide Join, WellFormed, Resolve, ParseRequest, AnswerTo, Delivered, TakeReply, OneByOne, Presentable, Replies;
    var more := if later == [] then "" else Replies(types, disk, later[0], later[1..], true);
    AskedAndParsed(v, "");
    assert Join(v.parts) + "" == Join(v.parts);
    AskedAndDelivered(types, disk, v, more);
    NothingAsked(types, disk);
    NextTurn(types, disk, Join(v.parts), later, true);
    hide *;
    if later != [] {
      assert "" + later[0] == later[0];
    }
  }

  lemma NothingAsked(types: map<string, string>, disk: Disk)
    ensures Replies(types, disk, "", [], true) == "" && OneByOne(types, disk, "", [])
  {
  }

  function RequestOf(v: Visit): Request {
    Request(v.kind, v.parts.url, v.parts.majVersion, v.parts.minVersion)
  }

  lemma AskedAndParsed(v: Visit, more: string)
    requires WellFormed(v.parts, v.kind, MAX_URL)
    ensures ParseRequest(Join(v.parts) + more, MAX_URL) == Some((RequestOf(v), more))
  {
    hide Join, WellFormed;
    ParseJoined(v.parts, MAX_URL, RequestOf(v), more);
  }

  lemma AskedAndDelivered(types: map<string, string>, disk: Disk, v: Visit, more: string)
    requires Presentable(types) && Sizes(disk) && Asks(disk, v)
    ensures AnswerTo(types, disk, RequestOf(v)).Next?
    ensures TakeReply(AnswerTo(types, disk, RequestOf(v)).text + more, v.kind == HEAD) ==
      Some((Delivered(types, disk, v), more))
  {
    hide TakeReply, Frame, Wire, Resolve, WellFormed, Padded, Message, Decimal;
    var file := FileOf(disk, v.resource.path);
    var type_ := ContentTypes.TypeOf(types, v.resource.path, v.resource.pathLength);
    var body := if v.kind == HEAD then "" else file;
    FramedIff(200, type_, |file|, 2, body);
    ReplyReadsBack(200, type_, |file|, body, more, v.kind == HEAD);
    StatusOk();
    HeaderTexts(|file|, type_);
  }

  lemma StatusOk()
    ensures "HTTP/1.1 " + Padded(200) + " " + Message(200) == "HTTP/1.1 200 OK"
  {
    assert Padded(200) == "200";
  }
}
