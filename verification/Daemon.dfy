/** From the configuration file to the reply: what main in src/eldritch.c wires together. */
module Daemon {
  import opened CStrings
  import opened Wrappers
  import opened Memory
  import opened ConfigGrammar
  import opened LineBuffers
  import opened Configuration
  import opened Sockets
  import RequestReader
  import RequestGrammar
  import ContentTypes
  import Response
  import Server

  const MAX_OPT_STR_LEN := 255

  const UNSET := Settings("", "", "", "", [])

  /** The content types in force after a configuration has been read. */
  function TypesAfter(settings: Settings): map<string, string> {
    ContentTypes.AfterSettings(ContentTypes.INITIAL_TYPES, settings.types)
  }

  // ----- configured types -----

  /** Directive i is the last content type for its ending. */
  ghost predicate LastType(ds: seq<Directive>, i: nat) {
    && i < |ds| && ds[i].ContentType?
    && forall j :: i < j < |ds| && ds[j].ContentType? ==> ds[j].ending != ds[i].ending
  }

  /** The last directive for an ending is the decisive setting. */
  lemma {:induction false} SettingOf(ds: seq<Directive>, i: nat) returns (k: nat)
    requires LastType(ds, i)
    ensures ContentTypes.LastSetting(TypeSettings(ds), ds[i].ending, k) && TypeSettings(ds)[k].1 == ds[i].type_
    decreases |ds|
  {
    var rest := TypeSettings(ds[1..]);
    if i == 0 {
      k := 0;
      forall j | 0 < j < |TypeSettings(ds)| ensures TypeSettings(ds)[j].0 != ds[0].ending {
        var d := DirectiveOf(ds[1..], j - 1);
        assert ds[1..][d] == ds[d + 1];
      }
    } else {
      k := SettingOf(ds[1..], i - 1);
      if ds[0].ContentType? {
        assert forall j :: 0 <= j < |rest| ==> TypeSettings(ds)[j + 1] == rest[j];
        k := k + 1;
        forall j | k < j < |TypeSettings(ds)| ensures TypeSettings(ds)[j].0 != ds[i].ending {
          assert TypeSettings(ds)[j] == rest[j - 1];
        }
      } else {
        assert TypeSettings(ds) == rest;
      }
    }
  }

  /** Every setting comes from a directive. */
  lemma {:induction false} DirectiveOf(ds: seq<Directive>, k: nat) returns (i: nat)
    requires k < |TypeSettings(ds)|
    ensures i < |ds| && ds[i].ContentType? && TypeSettings(ds)[k] == (ds[i].ending, ds[i].type_)
    decreases |ds|
  {
    if ds[0].ContentType? && k == 0 {
      i := 0;
    } else {
      var d := DirectiveOf(ds[1..], if ds[0].ContentType? then k - 1 else k);
      i := d + 1;
    }
  }

  /** A file of well-formed directives is read as these, and the types in force are theirs. */
  lemma ConfiguredTypes(ds: seq<Directive>, ls: seq<Layout>, max: nat)
    requires |ds| == |ls| && AllWellFormed(ds, ls)
    ensures var reading := ReadFile(UNSET, PrintFile(ds, ls), max);
      reading.Done? && reading.ok && reading.settings.types == TypeSettings(ds)
  {
    FileReadsBack(UNSET, ds, ls, max);
    TypesInOrder(UNSET, ds, max);
    assert [] + TypeSettings(ds) == TypeSettings(ds);
  }

  /** A path is served as the type last configured for what follows its last dot. */
  lemma ServedAsConfigured(ds: seq<Directive>, ls: seq<Layout>, i: nat, path: string, pathLength: nat)
    requires |ds| == |ls| && AllWellFormed(ds, ls) && LastType(ds, i)
    requires pathLength >= |path| && EndsIn(path, ds[i].ending)
    ensures ContentTypes.TypeOf(ContentTypes.AfterSettings(ContentTypes.INITIAL_TYPES, TypeSettings(ds)), path, pathLength)
      == ds[i].type_
  {
    hide ContentTypes.AfterSettings, ContentTypes.TypeOf, ContentTypes.LastDot, WellFormed, TypeSettings;
    var k := SettingOf(ds, i);
    ContentTypes.ServedAs(ContentTypes.INITIAL_TYPES, TypeSettings(ds), path, k);
    TypeOfWhole(ContentTypes.AfterSettings(ContentTypes.INITIAL_TYPES, TypeSettings(ds)), path, pathLength);
    TypeFits(ds[i], ls[i], i == |ds| - 1);
  }

  lemma TypeOfWhole(types: map<string, string>, path: string, pathLength: nat)
    requires pathLength >= |path|
    ensures ContentTypes.TypeOf(types, path, pathLength) == ContentTypes.TypeOf(types, path, |path|)
  {
  }

  lemma TypeFits(d: Directive, l: Layout, last: bool)
    requires d.ContentType? && WellFormed(d, l, last)
    ensures |d.type_| < MAX_LINE_LENGTH
  {
    assert |d.type_| <= |PrintLine(d, l)|;
  }

  predicate EndsIn(path: string, ending: string) {
    ContentTypes.LastDot(path, |path|) >= 0 && ContentTypes.Ending(path) == ending
  }

  /** No directive names this ending. */
  ghost predicate NeverConfigured(ds: seq<Directive>, ending: string) {
    forall j :: 0 <= j < |ds| && ds[j].ContentType? ==> ds[j].ending != ending
  }

  /** What no directive names is served as before: image/jpeg for jpg, text/html for any other ending. */
  lemma ServedAsInitially(ds: seq<Directive>, path: string, pathLength: nat, ending: string)
    requires pathLength >= |path| && EndsIn(path, ending) && NeverConfigured(ds, ending)
    ensures ContentTypes.TypeOf(ContentTypes.AfterSettings(ContentTypes.INITIAL_TYPES, TypeSettings(ds)), path, pathLength)
      == if ending == "jpg" then "image/jpeg" else "text/html"
  {
    assert ContentTypes.NeverSet(TypeSettings(ds), ending) by {
      forall k | 0 <= k < |TypeSettings(ds)| ensures TypeSettings(ds)[k].0 != ending {
        var i := DirectiveOf(ds, k);
      }
    }
    hide ContentTypes.AfterSettings, ContentTypes.TypeOf, ContentTypes.LastDot, ContentTypes.NeverSet, TypeSettings;
    TypeOfWhole(ContentTypes.AfterSettings(ContentTypes.INITIAL_TYPES, TypeSettings(ds)), path, pathLength);
    ContentTypes.ServedAs(ContentTypes.INITIAL_TYPES, TypeSettings(ds), path, 0);
    ContentTypes.InitiallyServedAs(path);
  }

  /** A type that can stand whole in a header line. */
  predicate Presentable(type_: string) {
    |type_| <= 238 && RequestGrammar.CR !in type_
  }

  lemma {:induction false} TypesStayPresentable(settings: seq<(string, string)>)
    requires forall k :: 0 <= k < |settings| ==> Presentable(settings[k].1)
    ensures Server.Presentable(ContentTypes.AfterSettings(ContentTypes.INITIAL_TYPES, settings))
  {
    if settings != [] {
      var init := settings[..|settings| - 1];
      TypesStayPresentable(init);
      assert Presentable(settings[|settings| - 1].1);
    }
  }

  /** What a configuration amounts to whose lines lack no word is the same in any line buffer, and its types
      have header lines that fit theirs. */
  lemma OrdinaryConfiguration(file: string, garbage: string, max: nat)
    requires |garbage| == MAX_LINE_LENGTH + 1 && ReadFile(UNSET, file, max).Done?
    ensures ReadIn(UNSET, garbage, file, max) == ReadFile(UNSET, file, max)
    ensures Server.Printable(TypesAfter(ReadFile(UNSET, file, max).settings))
  {
    ReadInIs(UNSET, garbage, file, max);
    TypesFit(UNSET, file, max);
    SettingsFit(ReadFile(UNSET, file, max).settings.types);
  }

  ghost predicate AllFit(settings: seq<(string, string)>) {
    forall k :: 0 <= k < |settings| ==> |settings[k].1| <= 240
  }

  lemma {:induction false} TypesFit(c: Settings, file: string, max: nat)
    requires AllFit(c.types)
    ensures ReadFile(c, file, max).Done? ==> AllFit(ReadFile(c, file, max).settings.types)
    decreases |file|
  {
    if file != [] {
      var n := FgetsCount(file);
      PieceIs(file);
      var line := TextOf(file[..n]);
      assert forall i :: 0 <= i < |line| ==> line[i] == file[i];
      ConfiguredTypeFits(line);
      hide ParseLine, TextOf, FgetsCount;
      if ParseLine(line).Says? {
        TypesFit(Apply(c, ParseLine(line).directive, max), file[n..], max);
      }
    }
  }

  lemma {:induction false} SettingsFit(settings: seq<(string, string)>)
    requires AllFit(settings)
    ensures Server.Printable(ContentTypes.AfterSettings(ContentTypes.INITIAL_TYPES, settings))
  {
    if settings != [] {
      SettingsFit(settings[..|settings| - 1]);
    }
  }

  // ----- end to end -----

  /** From the configuration to the reply: whatever directives are written down in whatever layout, a client
      that asks for files one after the other, however the network splits its requests, reads back exactly
      these files in order, each one announced with the type last configured for its ending, or the initial
      type when none is. */
  lemma FromConfigurationToReply(ds: seq<Directive>, ls: seq<Layout>, max: nat, disk: Server.Disk, vs: seq<Server.Visit>,
                                 supply: seq<nat>)
    returns (replies: seq<Response.Reply>)
    requires |ds| == |ls| && AllWellFormed(ds, ls) && Server.Sizes(disk)
    requires forall i :: 0 <= i < |ds| && ds[i].ContentType? ==> Presentable(ds[i].type_)
    requires vs != [] && forall j :: 0 <= j < |vs| ==> Server.Asks(disk, vs[j])
    ensures var reading := ReadFile(UNSET, PrintFile(ds, ls), max);
      && reading.Done? && reading.ok
      && var client := Client(0, RequestGrammar.Join(vs[0].parts), Server.Messages(vs[1..]), supply, true);
      && Server.TakeReplies(Sees(TypesAfter(reading.settings), disk, client, true), vs) == Some(replies)
    ensures |replies| == |vs|
    ensures forall j :: 0 <= j < |vs| && vs[j].kind.GET? ==>
      replies[j].body == Server.FileOf(disk, vs[j].resource.path)
    ensures forall i, j :: 0 <= i < |ds| && 0 <= j < |vs| && LastType(ds, i) && Typed(vs[j].resource, ds[i].ending) ==>
      replies[j].contentType == "Content-Type: " + ds[i].type_
    ensures forall j, ending :: 0 <= j < |vs| && Typed(vs[j].resource, ending) && NeverConfigured(ds, ending) ==>
      replies[j].contentType ==
        "Content-Type: " + if ending == "jpg" then "image/jpeg" else "text/html"
  {
    hide Server.Asks, Server.Replies, Server.TakeReplies, Server.OneByOne, Server.Messages, RequestGrammar.Join, ReadFile,
      WellFormed, AllWellFormed, PrintFile, TypeSettings, EndsIn, ContentTypes.AfterSettings, ContentTypes.TypeOf,
      Server.Received, NeverConfigured;
    ConfiguredTypes(ds, ls, max);
    var types := ContentTypes.AfterSettings(ContentTypes.INITIAL_TYPES, TypeSettings(ds));
    forall k | 0 <= k < |TypeSettings(ds)| ensures Presentable(TypeSettings(ds)[k].1) {
      var i := DirectiveOf(ds, k);
    }
    TypesStayPresentable(TypeSettings(ds));
    assert Server.Browses(disk, vs) && forall j :: 0 <= j < |vs| ==> vs[j].resource.path in disk.files by {
      forall j | 0 <= j < |vs| ensures Server.Asks(disk, vs[j]) && vs[j].resource.path in disk.files {
        AsksPresent(disk, vs[j]);
      }
    }
    replies := Server.FilesAreDelivered(types, disk, vs);
    var client := Client(0, RequestGrammar.Join(vs[0].parts), Server.Messages(vs[1..]), supply, true);
    SeesReplies(types, disk, client, true);
    forall i, j | 0 <= i < |ds| && 0 <= j < |vs| && LastType(ds, i) && Typed(vs[j].resource, ds[i].ending)
      ensures replies[j].contentType == "Content-Type: " + ds[i].type_
    {
      ServedAsConfigured(ds, ls, i, vs[j].resource.path, vs[j].resource.pathLength);
    }
    forall j, ending | 0 <= j < |vs| && Typed(vs[j].resource, ending) && NeverConfigured(ds, ending)
      ensures replies[j].contentType ==
        "Content-Type: " + if ending == "jpg" then "image/jpeg" else "text/html"
    {
      ServedAsInitially(ds, vs[j].resource.path, vs[j].resource.pathLength, ending);
    }
  }

  lemma AsksPresent(disk: Server.Disk, v: Server.Visit)
    requires Server.Asks(disk, v)
    ensures v.resource.path in disk.files
  {
  }

  /** The resource has this ending, and its type is looked up under its whole name. */
  predicate Typed(resource: Server.Resource, ending: string) {
    resource.pathLength >= |resource.path| && EndsIn(resource.path, ending)
  }

  /** What a client does on its connection: what it sends at once and after each response, and how the network
      hands it over. */
  datatype Client = Client(fd: int, first: seq<char>, later: seq<seq<char>>, supply: seq<nat>, faultless: bool)

  /** Everything the client receives. */
  function Sees(types: map<string, string>, disk: Server.Disk, client: Client, keepAlive: bool): seq<char> {
    Server.Received(types, disk, client.first, client.later,
      RequestReader.Window(0, 0, |client.first|, client.supply), keepAlive)
  }

  /** A client that waits for each response sees the answers to its requests. */
  lemma SeesReplies(types: map<string, string>, disk: Server.Disk, client: Client, keepAlive: bool)
    requires keepAlive ==> Server.OneByOne(types, disk, client.first, client.later)
    ensures Sees(types, disk, client, keepAlive) ==
      Server.Replies(types, disk, client.first, client.later, keepAlive)
  {
    hide Server.OneByOne, Server.Undisturbed, Server.Received, Server.Replies;
    var w := RequestReader.Window(0, 0, |client.first|, client.supply);
    if keepAlive {
      Server.WaitingSpares(types, disk, client.first, client.later, w);
    }
    Server.UndisturbedReplies(types, disk, client.first, client.later, w, keepAlive);
  }

  /** main, with one connection served in place of the loop that forks for each: the database is set up, the
      configuration is read into it, requests are answered from it, everything is taken down again. */
  method Run(mem: Ledger, file: string, readError: bool, garbage: string, client: Client, disk: Server.Disk, keepAlive: bool)
    returns (code: int, sent: seq<char>, keys: array?<array?<char>>)
    requires |garbage| == MAX_LINE_LENGTH + 1 && ReadIn(UNSET, garbage, file, MAX_OPT_STR_LEN).Done?
    requires Server.Printable(TypesAfter(ReadIn(UNSET, garbage, file, MAX_OPT_STR_LEN).settings)) && Server.Sizes(disk)
    modifies mem
    ensures code == if ReadIn(UNSET, garbage, file, MAX_OPT_STR_LEN).ok && !readError then 0 else -1
    ensures code == 0 ==> keys != null && fresh(keys) && mem.live == old(mem.live) + {keys}
    ensures code == 0 && client.faultless && client.fd >= 0 ==>
      sent == Sees(TypesAfter(ReadIn(UNSET, garbage, file, MAX_OPT_STR_LEN).settings), disk, client, keepAlive)
  {
    hide ContentTypes.Database.Valid, ContentTypes.TypeBlocks, ContentTypes.Texts, ContentTypes.AfterSettings;
    hide ReadIn, Sees, TypesAfter, CStr, Terminated, Server.Printable;
    sent, keys := [], null;
    var config;
    code, config := SetUp(mem, file, readError, garbage);
    if code != 0 {
      return;
    }
    sent := ServeClient(config.types, client, disk, keepAlive);
    assert config.Arrays() <= mem.live - config.types.Repr();
    keys := config.types.Close();
    config.Clear();
  }

  /** main up to the loop: the database, and the configuration that is read into it. */
  method SetUp(mem: Ledger, file: string, readError: bool, garbage: string) returns (code: int, config: EldritchConfig)
    requires |garbage| == MAX_LINE_LENGTH + 1 && ReadIn(UNSET, garbage, file, MAX_OPT_STR_LEN).Done?
    modifies mem
    ensures code == if ReadIn(UNSET, garbage, file, MAX_OPT_STR_LEN).ok && !readError then 0 else -1
    ensures config.types.mem == mem && config.Strings() && config.Served() && config.Outside()
    ensures config.Current() == ReadIn(UNSET, garbage, file, MAX_OPT_STR_LEN).settings
    ensures Server.Texts(config.types) == TypesAfter(ReadIn(UNSET, garbage, file, MAX_OPT_STR_LEN).settings)
    ensures mem.live - config.types.Repr() == old(mem.live) + config.Arrays() && fresh(config.Arrays())
  {
    hide ContentTypes.Database.Valid, ContentTypes.TypeBlocks, ContentTypes.Texts, ContentTypes.AfterSettings;
    hide ReadIn, CStr, Terminated;
    var types := new ContentTypes.Database(mem);
    config := new EldritchConfig(MAX_OPT_STR_LEN, types);
    assert mem.live - types.Repr() == old(mem.live) + config.Arrays();
    code := config.ReadStream(file, readError, garbage);
  }

  /** A connection of its own for one client. */
  method ServeClient(types: ContentTypes.Database, client: Client, disk: Server.Disk, keepAlive: bool)
    returns (sent: seq<char>)
    requires types.Valid() && types.Repr() <= types.mem.live
    requires Server.Printable(Server.Texts(types)) && Server.Sizes(disk)
    ensures client.faultless && client.fd >= 0 ==> sent == Sees(Server.Texts(types), disk, client, keepAlive)
  {
    hide ContentTypes.Database.Valid, ContentTypes.TypeBlocks, ContentTypes.Texts, Server.Received;
    var socket := new Socket(client.fd, client.first, client.supply, client.later, client.faultless);
    var connection := new RequestReader.Connection(socket);
    var request := new RequestReader.HttpRequest(Server.URL_BUFFER_LENGTH);
    assert connection.Unread() == client.first;
    Server.Accept(connection, request, types, disk, keepAlive);
    sent := socket.sent;
  }
}
