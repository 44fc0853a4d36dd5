# A verified model of eldritchd

eldritchd is a small HTTP/1.1 daemon. A parent process runs a select loop over a table of 25 accepted
connections and forks a child for each one that becomes readable; the child reads requests, cuts a path out of
each request target, looks up a content type by file ending and sends the file. The content types live in a
chained hash table that is filled from a configuration file. This project models these parts and proves what
they do, for every input and every run.

The model follows the program's form: objects that are changed in place are classes with `modifies` clauses,
loops are loops with invariants. Beside each of them stands a specification on values, every method is tied to
it, and the theorems are about the specification or tie several methods together.

| file | models |
|---|---|
| `HashTable.dfy`, `TableRun.dfy` | `src/hash.c`: bucket chains behind sentinels, set, get, delete, key list, dispose; whole runs |
| `ContentTypes.dfy` | `src/contenttype.c`: the content-type database on top of the table |
| `ConfigGrammar.dfy`, `LineBuffer.dfy`, `Configuration.dfy` | `src/configuration.c`: what a configuration means, what a line means in a buffer that earlier lines have used, and the tokenizer that reads it there |
| `UrlPath.dfy` | `src/url.c`: the seven-state automaton against a declarative decomposition |
| `Sockets.dfy`, `RequestGrammar.dfy`, `RequestReader.dfy` | `src/http.c`, reading: sockets, the grammar of requests, the refillable window, the growing token buffer |
| `Response.dfy` | `src/http.c`, writing, and `io_writeChunked` of `src/io.c` |
| `SelectLoop.dfy`, `PassOutcome.dfy`, `Forker.dfy` | `src/forker.c`: the select loop as a state machine, what a pass does to each connection, and the code that runs it over its arrays |
| `Server.dfy`, `Daemon.dfy` | the keep-alive loop of `src/http.c`, and everything from the configuration file to the reply |
| `CStrings.dfy`, `Memory.dfy`, `Wrappers.dfy` | C strings in buffers; the allocator as a ledger in which nothing is freed twice; optional values |

Main results:

- The hash table is a finite map over its whole life (`TableRun.Run`): every call returns what the key stood
  for, and at the end every node, sentinel, key copy and array has been freed exactly once. The chains are
  acyclic and disjoint, and every key is in the bucket its hash names, because the representation predicate of
  every operation says so.
- Every run of the select loop is safe (`SelectLoop.RunIsSafe`, carried to the code by `Forker.Listen`): the open
  descriptors are exactly the listening socket and the occupied slots, nothing stays open at the end, each
  child owns exactly one connection, and the accepted connections are the sum of their fates. Descriptor
  numbers may come back as soon as they are closed. What becomes of each slot and each connection in a pass is
  said slot by slot (`PassOutcome.PassAccepts`, `PassOutcome.PassFates`): who is accepted and where, who is
  refused, timed out, handed to a child or lost to a failed fork.
- `http_readRequest` accepts exactly a grammar (`RequestGrammar.ParseIff`,
  `RequestReader.Connection.ReadRequest`), however `read` splits the stream. The grammar is that of the code,
  which is looser than sections 2.2 and 3 of RFC 9112. The case of letters does not matter
  (`RequestGrammar.CaseIrrelevant`), and no other words are accepted (`RequestGrammar.OtherWordsRefused`).
- `url_getPath` equals a decomposition of the target (`UrlPath.UrlGetPath`), which is looser than section 3 of
  RFC 3986, and query and fragment never matter (`UrlPath.QueryIrrelevant`).
- The keep-alive loop is specified for every client and every way the network splits the stream
  (`Server.Accept`): the wire holds what `Server.Received` says, where each response overwrites what it
  overwrites in the window. As long as every response spares the window, these are the answers to the requests
  in order (`Server.UndisturbedReplies`), and a client that waits for each response keeps it so
  (`Server.WaitingSpares`).
- From end to end (`Daemon.FromConfigurationToReply`, `Daemon.Run`): whatever directives are written down in
  whatever layout, a client that asks for files one after the other reads back exactly these files in order,
  each announced with the type last configured for its ending. A file that is missing ends the connection with
  a report (`Server.FilesAreDelivered`, `Server.NothingFollowsMissing`). And when the daemon has closed everything, the
  only block still allocated is one list of keys.

What the code does that its documentation does not promise:

- A socket that is closed because `setsockopt` failed is entered into the table all the same
  (src/forker.c:156-162). `SelectLoop.AcceptKeepsInvIff` gives the exact condition, and every run is safe in
  which it is met.
- Bytes of a next request that were read ahead are overwritten by the response (src/http.c:100, 110).
  `Response.ReadAheadSurvivesIff` gives the exact condition, `Response.SparedIff` the same for the window of a
  connection.
- A header line longer than 254 bytes is cut and bytes from behind the text are sent in its place, and the
  blank line is sent without a look at the result (src/http.c:107-121). `Response.FramedIff` gives the exact
  condition.
- The scan for the type of a request never stops by its own test, as its index is unsigned
  (src/contenttype.c:100). `Server.TypeScanInsideIff` says for which targets it stays inside the path:
  exactly for those whose path has a dot and is not the page that "/" stands for, for which the length of "/" is
  used (src/http.c:388-408). `Server.RootRequest` and `Server.DotlessRequest` are the targets for which it
  leaves the path. What is said of the types of these rests on reading the index as signed, which makes them
  text/html; under that reading `Server.TypeOfWholePathIff` says when "/" has the type of its page.
- A request with HEAD for a file that is missing is answered with the whole page (src/http.c:170-192, 393-403),
  which a client that expects no body finds left over (`Server.MissingIsReported`).
- `contenttype_close` never frees the list of keys it asks for (src/contenttype.c:81). This is the `keys` of
  `ContentTypes.Database.Close` and `Daemon.Run`.
- A configuration file is accepted exactly when every piece that `fgets` takes of it is a directive
  (`ConfigGrammar.AcceptedIff`). So a blank line makes it malformed (`ConfigGrammar.BlankLineRefuses`), and so
  does any line whose first word is none of the four keywords, such as a comment
  (`ConfigGrammar.UnknownKeywordRefuses`), or a documentroot of more than 253 characters, whose end is taken for
  a new line (`ConfigGrammar.LongPathRefuses`).
- A word that a configuration line lacks is looked for behind its end (src/configuration.c:167-187), where the
  buffer still holds earlier lines: a last line that only says listen takes its interface and port from the
  line before (`LineBuffers.MissingWords`). `LineBuffers.ReadInIs` says that this never matters where no line
  lacks a word.

## Model
| member | source | states |
|---|---|---|
| HashTables.StdHashFunction | src/hash.c:138-145 | the bucket is the sum of the sign-extended characters modulo 2^32, taken modulo the size, whatever order of wrapping the loop uses |
| HashTables.SumOfParts | src/hash.c:138-145 | the sum of a key is that of its parts in any order |
| HashTables.HashTable.constructor | src/hash.c:56-69 | a new table is valid and stands for the empty map; the ledger grows by exactly its blocks |
| HashTables.HashTable.GetHashEntry | src/hash.c:43-53 | the entry found is the predecessor of the one for the key, or the last entry of the key's bucket when there is none |
| HashTables.HashTable.Get | src/hash.c:131-134 | the pointer stored for the key, or null |
| HashTables.HashTable.Set | src/hash.c:93-110 | the map changes at this key only, the old pointer or null is returned, and the table stays valid; exactly the new entry and key copy are allocated |
| HashTables.HashTable.Insert | src/hash.c:96-105 | the branch for a new key: one entry with a private copy of the key |
| HashTables.HashTable.LinkAfter | src/hash.c:96-108 | all chains stay well-formed when the new entry is linked behind the last one of its bucket |
| HashTables.HashTable.Overwrite | src/hash.c:106-109 | all chains stay well-formed and only the value of this key changes |
| HashTables.HashTable.Delete | src/hash.c:114-127 | the map loses this key only, its pointer or null is returned; exactly its entry and key copy are freed |
| HashTables.HashTable.Unlink | src/hash.c:121-124 | unlinking through the predecessor leaves every chain well-formed |
| HashTables.HashTable.KeyList | src/hash.c:148-167 | the array has one place more than there are keys, lists each key once and ends in null |
| HashTables.HashTable.CountEntries | src/hash.c:148-156 | the first pass counts exactly the entries |
| HashTables.HashTable.ListKeys | src/hash.c:157-166 | the second pass fills exactly the array made for the count of the first |
| HashTables.HashTable.Dispose | src/hash.c:72-89 | every block of the table is freed exactly once, nothing else is |
| HashTables.HashTable.DisposeChain | src/hash.c:76-85 | walking one chain frees its blocks and no other's |
| HashTables.NamesBelow | src/hash.c:43-53 | the entries of the first buckets carry exactly the keys that hash there, each once |
| HashTables.EntriesAreSole | src/hash.c:43-53 | an entry and its key copy occur once in all chains |
| HashTables.ChainsApart | src/hash.c:72-89 | different buckets own different blocks |
| HashTables.BlocksShrink | src/hash.c:114-127 | removing an entry removes exactly its two blocks from those the table owns |
| HashTables.DistinctCount | src/hash.c:148-167 | a list of distinct keys is as long as the map has keys |
| TableRun.Run | src/hash.c:56-134 | any sequence of sets, gets and deletes between create and dispose: each returns what its key stood for, and nothing stays allocated |
| TableRun.LastWriteStands | src/hash.c:93-134 | a key stands for the value of the last set that no delete followed |
| TableRun.UnwrittenStandsForNothing | src/hash.c:131-134 | a key nobody wrote is not found |
| ContentTypes.Create | src/contenttype.c:42-55 | a type with a terminated copy of the first 255 characters of its string |
| ContentTypes.Dispose | src/contenttype.c:57-67 | the object and its string are freed, and nothing for NULL |
| ContentTypes.Database.constructor | src/contenttype.c:69-76 | jpg stands for image/jpeg, the default is text/html |
| ContentTypes.Database.Set | src/contenttype.c:116-127 | the ending stands for the type, cut to 255 characters; the type it replaces is freed at once and every other stays |
| ContentTypes.Database.Store | src/contenttype.c:121-122 | the type that is taken out no longer shares anything with the database |
| ContentTypes.Database.Get | src/contenttype.c:91-114 | with the index read as signed, a live type: that of the text behind the last dot among the first characters of the path, or the default |
| ContentTypes.ScanInsideIff | src/contenttype.c:94-112 | the scan with its unsigned index stays inside the path exactly when a separator is among the characters it is to look at, and then finds the last |
| ContentTypes.Database.Close | src/contenttype.c:78-89 | every stored type, the default and the table are freed exactly once; the list of keys stays behind |
| ContentTypes.Database.DisposeStored | src/contenttype.c:83-86 | the loop over the keys frees each stored type once |
| ContentTypes.LastSettingWins | src/contenttype.c:116-127 | after any settings an ending has the type last set for it, cut to 255 characters |
| ContentTypes.UnsetUnchanged | src/contenttype.c:116-127 | an ending that was never set keeps what it had |
| ContentTypes.ServedAs | src/contenttype.c:91-127 | any path with a dot is served as the type last set for what follows its last dot, or as before when there is none |
| ContentTypes.InitiallyServedAs | src/contenttype.c:69-114 | before any setting a jpg is image/jpeg and everything else text/html |
| ConfigGrammar.LineReadsBack | src/configuration.c:52-189 | a directive written with any blanks around its words is interpreted as that directive |
| ConfigGrammar.LineIs | src/configuration.c:158-189 | every line, by its words: malformed exactly without one of the four keywords, else the directive of that keyword with the words that follow, or an overrun where one is missing |
| ConfigGrammar.TokenSplits | src/configuration.c:52-71 | every text is blanks, its next word, and then nothing or a delimiter and the rest |
| ConfigGrammar.TakeWord | src/configuration.c:52-71 | the next word between blanks and a delimiter is cut exactly |
| ConfigGrammar.TakesWholeLine | src/configuration.c:191-199 | a written line that fits is taken whole by one fgets |
| ConfigGrammar.FileReadsBack | src/configuration.c:158-212 | any list of well-formed directives, written one per line, reads back as these directives |
| ConfigGrammar.AcceptedIff | src/configuration.c:191-212 | a file is accepted exactly when each piece that fgets takes is a directive; the first that is none decides, and those before it are in force |
| ConfigGrammar.ReadsOn | src/configuration.c:191-203 | directives on whole lines are read before whatever follows them |
| ConfigGrammar.BlankLineRefuses | src/configuration.c:158-202 | a blank line behind any directives makes the file malformed |
| ConfigGrammar.UnknownKeywordRefuses | src/configuration.c:158-202 | so does any line whose first word is none of the four keywords |
| ConfigGrammar.LongPathRefuses | src/configuration.c:191-202 | so does a documentroot of more than 253 characters, whatever follows |
| LineBuffers.CutAt | src/configuration.c:52-71 | terminating a string early leaves two strings |
| LineBuffers.LineInBy | src/configuration.c:158-189 | the same for a line in its buffer, by the words found there |
| LineBuffers.LineInIs | src/configuration.c:158-189 | a line that lacks no word says in any buffer what it says alone |
| LineBuffers.ReadInIs | src/configuration.c:191-212 | a file whose lines lack no word is read the same whatever the buffer holds |
| LineBuffers.MissingWords | src/configuration.c:103-136 | for any path, listen on a last line of its own takes its two words from the line before |
| ConfigGrammar.LastWins | src/configuration.c:103-156 | the last listen, documentroot and logfile directives decide |
| ConfigGrammar.Untouched | src/configuration.c:103-156 | what no directive names keeps its value |
| ConfigGrammar.TypesInOrder | src/configuration.c:73-101 | the content types are passed on completely and in order |
| ConfigGrammar.ConfiguredTypeFits | src/configuration.c:73-101 | a type from a configuration line has at most 240 characters |
| Configuration.CutNextToken | src/configuration.c:52-71 | where the next word begins and ends |
| Configuration.NextWord | src/configuration.c:78-83 | the word becomes a C string of its own in the line buffer and what follows it stays readable |
| Configuration.CopyInto | src/configuration.c:129-134 | the target holds the first characters of the word |
| Configuration.EldritchConfig.constructor | src/configuration.c:229-239 | four separate arrays with room for a terminator |
| Configuration.EldritchConfig.ReadContentType | src/configuration.c:73-101 | the two words reach the database, nothing else changes |
| Configuration.EldritchConfig.ReadListen | src/configuration.c:103-136 | interface and port are set from two words cut in the same buffer |
| Configuration.EldritchConfig.ReadNextToken | src/configuration.c:138-156 | the one target is set |
| Configuration.EldritchConfig.InterpretLine | src/configuration.c:158-189 | a line does what it says in its buffer, or returns -1 and changes nothing; the buffer afterwards |
| Configuration.EldritchConfig.ReadStream | src/configuration.c:191-212 | whatever malloc hands out, the configuration and the database hold what the file amounts to in it; the return value says whether it was accepted; the line buffer is freed on every path |
| Configuration.EldritchConfig.Clear | src/configuration.c:241-247 | the four strings are freed |
| UrlPath.UrlGetPath | src/url.c:43-143 | for every buffer and limit: the slice of the decomposition and 0, or NULL, 0 and -1 when there is no path |
| UrlPath.ReachedNext | src/url.c:61-134 | what one character does to each state is what the decomposition says |
| UrlPath.SliceIsMaximal | src/url.c:57-142 | the slice is in bounds, free of '#' and '?', and ends maximally |
| UrlPath.PathExistsIff | src/url.c:57-142 | there is a path exactly for the plain form, the port form with a slash, and the server form with a further slash |
| UrlPath.SuffixIrrelevant | src/url.c:57-142 | a query or fragment behind a text with a path leaves the path as it is |
| UrlPath.QueryIrrelevant | src/url.c:57-142 | the same for C strings with their length as limit |
| UrlPath.TerminatedPath | src/http.c:377-387 | in a token buffer the write path[pathLength] = 0 is in bounds and yields the slice as a C string; pathLength counts one more only when the NUL was counted |
| RequestGrammar.ParseIff | src/http.c:258-365 | a stream is read as a request exactly when it starts with one, and in one way only |
| RequestGrammar.ParseJoined | src/http.c:258-365 | every well-formed request is accepted and its parts are found |
| RequestGrammar.PartsOf | src/http.c:258-365 | every accepted stream starts with a well-formed request |
| RequestGrammar.CaseIrrelevant | src/http.c:212-222 | changing the case of any letters of the method and the scheme leaves a request well-formed and read the same |
| RequestGrammar.EverySpelling | src/http.c:273-326 | every spelling of get, head and http/ is read, as GET or HEAD |
| RequestGrammar.OtherWordsRefused | src/http.c:273-308 | no other word is taken for a method |
| RequestGrammar.OtherSchemesRefused | src/http.c:317-321 | no other scheme stands before a version |
| RequestReader.Connection.NextChar | src/http.c:196-210 | the next byte of the stream, wherever the window ends; nothing lost or repeated |
| RequestReader.Connection.Expect | src/http.c:212-222 | fails unless the next byte is the expected one in some case |
| RequestReader.Connection.ReadMethod | src/http.c:273-308 | line breaks are skipped, then GET or HEAD and a space |
| RequestReader.Connection.GetToken | src/http.c:230-256 | the token up to the delimiter, terminated, with two bytes to spare, kept across every reallocation; refused exactly when it is too long |
| RequestReader.Connection.ReadVersion | src/http.c:317-326 | HTTP/x.y and CRLF |
| RequestReader.Connection.SkipHeaders | src/http.c:327-362 | stops exactly behind the first empty line |
| RequestReader.Connection.ReadRequest | src/http.c:258-365 | 0 exactly when the stream starts with a request; then the fields are those of the request and the stream stands right behind it |
| RequestReader.HttpRequest.Append | src/http.c:237-251 | one more byte of the token, doubling a full buffer; fails only at the top capacity |
| RequestReader.SuffixNext | src/http.c:327-362 | the state of the header automaton is the longest relevant suffix of what was read, as one character after the other arrives |
| RequestReader.GrownByPowerOfTwo | src/http.c:237-250 | the capacity is the initial one times the least power of two that makes room |
| RequestReader.FullExactlyAtTop | src/http.c:237-243 | a full buffer is refused growth exactly when it is at the top |
| RequestReader.TopUnchanged | src/http.c:237-250 | growth does not move the limit for later tokens |
| RequestReader.LimitFromInitial | src/http.c:447-449 | from 128 bytes exactly the tokens longer than 65534 are refused |
| Response.DecimalReadsBack | src/http.c:135-138 | the announced length reads back as the length that was printed |
| Response.SizeFits | src/http.c:123-138 | three digits per byte are enough for any size_t |
| Response.FramedIff | src/http.c:97-164 | the wire holds the response as it should be exactly when the blank line got through and the type has at most 238 characters |
| Response.ReplyReadsBack | src/http.c:125-164 | responses delimit themselves: a client takes each one, with or without a body, off the stream |
| Response.SendLine | src/http.c:97-115 | one line goes through the read buffer onto the wire, or on failure a leading part of it |
| Response.WriteChunked | src/io.c:82-122 | 0 means that exactly the bytes went out in order, whatever send accepts at a time; on failure a prefix did |
| Response.SendBuffer | src/http.c:125-164 | the wire grows by status line, three headers, blank line and body, on failure by a leading part of these; on success the read buffer is what the lines left there |
| Response.AfterResponseAt | src/http.c:97-115 | what a response leaves of each byte of the read buffer |
| Response.ReadAheadSurvivesIff | src/http.c:97-115 | bytes read ahead survive a response, whatever they are, exactly when there are none or they lie behind its longest line |
| Response.SparedIff | src/http.c:97-115 | the bytes in front of the parser survive a response, whatever they are, exactly when the window is empty or lies behind the longest line |
| Response.ClobberedIs | src/http.c:97-115 | what a response makes of the window depends on nothing but what the window held |
| SelectLoop.AcceptKeepsInvIff | src/forker.c:139-168 | a new connection keeps the invariant exactly when setsockopt succeeds or the table is full |
| SelectLoop.DispatchKeeps | src/forker.c:106-138 | timing out and forking keep the invariant; a child is left with its own connection only |
| SelectLoop.DispatchFrees | src/forker.c:106-138 | exactly the slots that have timed out or are ready are freed |
| SelectLoop.ClosedMayReturn | src/forker.c:106-150 | the number of a connection closed by dispatch is free for the accept that follows |
| SelectLoop.ChildOwnsOne | src/forker.c:122-131 | the child closes everything but its connection |
| SelectLoop.CloseSlotsKeeps | src/forker.c:94-104 | closing slot by slot keeps the account of what is open |
| SelectLoop.AllClosed | src/forker.c:94-104 | nothing of the table and not the listening socket stays open |
| SelectLoop.PassKeeps | src/forker.c:183-202 | one pass keeps the invariant, whatever select, fork and accept return |
| SelectLoop.RunIsSafe | src/forker.c:171-204 | the same for every run; when the loop has ended nothing is open and every slot is free |
| SelectLoop.AcceptedAddsUp | src/forker.c:82-169 | the accepted connections are those in slots plus those of each fate |
| SelectLoop.StoppedAddsUp | src/forker.c:171-204 | after the loop every connection has met exactly one fate |
| SelectLoop.ExpiresExactly | src/forker.c:57-80 | a scan closes exactly the entries past their deadline |
| SelectLoop.RemainingInTime | src/forker.c:57-92 | every remaining deadline lies between the scan and the timeout after it |
| SelectLoop.HandedToItsChild | src/forker.c:112-138 | a connection counted as handed over is the one connection of the child that fork made |
| PassOutcome.PassAccepts | src/forker.c:57-168 | for every pass that waits and stays in the parent, what each slot holds afterwards: with the listening socket ready and a descriptor from accept exactly one connection more is counted, in the first vacant slot with its deadline, or refused when there is none |
| PassOutcome.PassWithoutDescriptors | src/forker.c:57-80 | a pass whose select returns no descriptors accepts nobody and frees exactly the expired slots |
| PassOutcome.PassFates | src/forker.c:57-138 | the fate of each connection in such a pass: timed out, handed to a child exactly when fork returned one, lost exactly when fork failed, or none |
| PassOutcome.ExpireFates | src/forker.c:57-80 | a scan times out exactly the expired connections |
| PassOutcome.DispatchFates | src/forker.c:106-138 | the same as for the pass, for dispatch alone, and no other fate changes |
| PassOutcome.CloseFates | src/forker.c:94-104 | shutting down shuts down exactly the connections that are still in slots |
| PassOutcome.ChildIff | src/forker.c:112-131 | this process is a child exactly when fork has returned 0 for a connection that is in time and ready |
| PassOutcome.ProcessIs | src/forker.c:106-169 | slots and count after one call, for every state |
| PassOutcome.ProcessFates | src/forker.c:106-169 | the fates after one call |
| PassOutcome.PassEnds | src/forker.c:183-202 | when a pass gives up, ends in a child, goes on listening |
| PassOutcome.StopsAtOnce | src/forker.c:183-204 | after an interruption or a signal the loop does not go round again: everything is closed and shut down |
| PassOutcome.RunIsPasses | src/forker.c:183-204 | every run is its passes, one event after the other, until the first state that does not listen |
| Forker.Forker.InitDescriptorSet | src/forker.c:57-80 | the arrays follow the scan; the set is the listening socket and the remaining entries, the number returned its maximum |
| Forker.Forker.InsertDescriptor | src/forker.c:82-92 | the first free slot is taken, -1 when there is none |
| Forker.Forker.CloseDescriptors | src/forker.c:94-104 | the arrays are emptied and everything in them closed |
| Forker.Forker.DispatchSlots | src/forker.c:106-138 | the arrays and the open descriptors follow the dispatch of the state machine |
| Forker.Forker.AcceptConnection | src/forker.c:139-168 | accept, setsockopt and insertion follow the accept step |
| Forker.Forker.ProcessFileDescriptors | src/forker.c:106-169 | dispatch and accept in one; for a process that stays the parent, what each place of the two arrays holds, how many connections have been counted, and who was refused |
| Forker.Forker.Stop | src/forker.c:42-45 | the loop will not go round again |
| Forker.Forker.LoopRead | src/forker.c:171-204 | the code runs the state machine, pass after pass |
| Forker.Forker.constructor | src/forker.c:171-176 | the table is empty and the listening socket is all that is open |
| Forker.Listen | src/forker.c:206-220 | the outcome is that of the run of the state machine; whatever the environment does within its promises, a parent that has left the loop holds no descriptor and has accounted for every connection, a child holds exactly its own |
| SelectLoop.InitialInv | src/forker.c:171-176 | the invariant holds before the first pass |
| Server.ResolvePath | src/http.c:377-391 | the file a request target names, as a C string inside its buffer or the default page; -1 when the target has no path |
| Server.LengthCoversPath | src/http.c:377-408 | the length used for the type covers the path, except for a replaced "/" |
| Server.TypeOfWholePathIff | src/http.c:388-408 | with the index of the scan read as signed, the type is that of the whole path unless "/" stands for a page whose ending has another type than the default |
| Server.TypeScanInsideIff | src/http.c:388-408 | for every target, the scan for its type stays inside the path exactly when that has a dot and is not the page of "/" |
| Server.RootRequest | src/http.c:388-408 | for "/" the scan leaves the path |
| Server.DotlessRequest | src/http.c:388-408 | so it does for every plain target without a dot |
| Server.PlainTarget | src/http.c:377-391 | a target without marks names itself |
| Server.QueriedTarget | src/http.c:377-391 | with a query or fragment it names the same |
| Server.AbsoluteTarget | src/http.c:377-391 | behind a scheme and a server a path names the same as alone |
| Server.PortTarget | src/http.c:377-391 | behind a server and a port a path is named without its slash |
| Server.EmptyTarget | src/http.c:377-386 | an empty target, or one that begins with a query or fragment, names nothing |
| Server.BareServer | src/http.c:377-386 | nor does a server and port with nothing behind them |
| Server.ProcessGetHead | src/http.c:370-440 | what goes onto the wire is the answer to the request, whether the process goes on, and what the response makes of the window |
| Server.Serve | src/http.c:457-476 | one round of the keep-alive loop: what goes onto the wire, what is left in front of the parser, and where the window stands |
| Server.Round | src/http.c:457-476 | a round and what the client sends next: sent and still to be received make up the same as before |
| Server.Accept | src/http.c:442-478 | for every client and every split of its stream, the wire grows by exactly what is specified, responses overwriting what was read ahead |
| Server.UndisturbedReplies | src/http.c:457-476 | as long as every response finds the window empty, or its bytes behind its longest line, the n-th request that is read is the n-th that was sent |
| Server.WaitingSpares | src/http.c:457-476 | a client that waits for each response keeps the window empty whenever one is printed |
| Server.FilesAreDelivered | src/http.c:442-478 | such a client reads back exactly the files it asked for, with GET and HEAD mixed, and for one that is missing at the end the report, with nothing behind it |
| Server.AskedAndDelivered | src/http.c:370-440 | the reply to one request reads back, and leaves what follows it |
| Server.MissingIsReported | src/http.c:393-403 | the report of a missing file reads back as status 404 with the page as its body, which is left over for a client that expects none |
| Server.NothingFollowsMissing | src/http.c:393-403 | it is all that is received, whatever the client sends behind the request |
| Server.OneReplyOnly | src/http.c:442-478 | on a connection that is not kept the first reply is all that is received |
| Server.NothingForMalformed | src/http.c:457-462 | a client that does not begin with a well-formed request receives nothing |
| Server.NothingWithoutPath | src/http.c:377-386 | nor does one whose target has no path |
| Daemon.SettingOf | src/configuration.c:73-101 | the last directive for an ending is the decisive setting |
| Daemon.ConfiguredTypes | src/configuration.c:191-212 | a file of well-formed directives leaves exactly their types, in order |
| Daemon.ServedAsConfigured | src/contenttype.c:91-127 | a path is served as the type last configured for what follows its last dot |
| Daemon.ServedAsInitially | src/contenttype.c:69-114 | an ending no directive names is image/jpeg for jpg and text/html otherwise |
| Daemon.OrdinaryConfiguration | src/configuration.c:191-212 | a configuration whose lines lack no word means the same in any line buffer and its types fit their header lines |
| Daemon.FromConfigurationToReply | src/http.c:370-478 | from the text of a configuration to the bytes a client reads |
| Daemon.SetUp | src/eldritch.c:255-287 | the database holds the initial types and those of the configuration; beside it only the four strings are allocated |
| Daemon.SeesReplies | src/http.c:442-478 | a client that waits for each response sees the answers to its requests |
| Daemon.ServeClient | src/http.c:442-478 | a connection with its own window and token buffer, for any client |
| Daemon.Run | src/eldritch.c:255-327 | set up, configure, serve, take down: the replies are those of the configuration, and only the list of keys stays allocated |

## Left out
- Server.ProcessGetHead: mapping a file and undoing it always succeed. In the original an empty file, which the kernel does not map, is answered to a GET and then ends the process.
- Server.Accept: what is on the wire after a failed send is bounded for each response by `Response.SendBuffer`, not over the whole connection.
- Server.Serve: needs types of at most 240 characters, as a longer header line is sent from behind its buffer; `Daemon.OrdinaryConfiguration` says that a configuration whose lines lack no word has no longer ones. Types of 239 and 240 characters are covered as the original sends them, cut.
- Daemon.Run: serves one connection where the original forks; a child works on a copy of the database and never changes it.
- Daemon.FromConfigurationToReply: types with a CR and types of more than 238 characters are excluded, as they break the header they are printed in; a configuration with CRLF line ends produces the former. For the targets of `Server.RootRequest` and `Server.DotlessRequest` only the body is promised independently of how the index of the scan is read.
- Configuration.EldritchConfig.ReadStream: excludes files for which the original reads behind its line buffer: a word is missing and nothing up to the end of the buffer terminates the search.
- Configuration.EldritchConfig.InterpretLine: excludes lines for which the original reads behind its line buffer.
- Configuration.EldritchConfig.ReadContentType: excludes a second word that is missing with nothing in the buffer to terminate the search.
- Configuration.EldritchConfig.ReadListen: excludes the same.
- Configuration.EldritchConfig.constructor: the strings start out empty here; the built-in defaults that src/eldritch.c copies into them are not part of this model.
- ContentTypes.Database.Get: the index is read as signed. Its test in src/contenttype.c:100 is always true, so where no dot is among the characters it is to look at the original reads before the string (`ContentTypes.ScanInsideIff`).
- Response.WriteChunked: the test for a failed send in src/io.c:115 is read as signed, for the same reason. The pause between small chunks is not modelled.
- HashTables.HashTable.Get: a table of size 0 can be created but not searched, in the original too; a lookup needs a hash function whose result is below the size.
- HashTables.HashTable.Set: its allocations always succeed; a failed malloc is not checked in the original. Key copies are always made, as HASH_TABLE_SAFE_KEY asks.
- RequestReader.Connection.NextChar: `read` returns at least one byte or fails. The original takes a result of 0 for a window of no bytes and reads behind it.
- RequestReader.HttpRequest.Append: a capacity below 2 is excluded; the daemon starts with 128. The request and its token buffer are not entered in the ledger; the child that owns them exits.
- Forker.Forker.DispatchSlots: FD_ISSET of the -1 of an empty slot counts as not ready.
- SelectLoop.RunIsSafe: asks for a clock that does not run backwards, for accept to return no descriptor that is open at that time, and for setsockopt to succeed unless the table is full. Nothing is said about whether connections are ever served.
- Characters are Dafny's `char`; the hash sign-extends them as an 8-bit signed char does. `strncmp`, `strnlen` and `snprintf` are what they do to C strings.
- The text of the page that reports a missing file is a parameter.
- Logging, panics beyond ending the run, `fcntl` on the listening socket, `setSocketTimeout`, `stat` and its file kinds.
- Command line, privileges, chroot, daemonizing and binding (src/eldritch.c); authentication, which is declared and not written.
