# ezNet: a verified model

ezNet is an epoll reactor with an HTTP layer and, as its largest example, the file-drop server
ezdrop. This project models the data structures and protocols of the library and of ezdrop and
proves what they guarantee over every input, every kernel answer and every interleaving.

Where the C++ code updates objects or runs loops, the model does the same: classes and methods with
loops, each proved equal to a specification function on values. The theorems are then proved about
those functions and about all runs of them. Where the code falls short of what it is meant to do,
the model keeps what the code does, a lemma gives a concrete input or run, and another one says
exactly when the code meets its purpose.

| file | what it models |
|---|---|
| `Countdown.dfy` | the meaning of the timing wheel: a map from key to ticks left, and its runs |
| `TimeWheel.dfy` | the wheel itself: heap nodes in intrusive doubly linked lists, one list per bucket, a cursor |
| `Sessions.dfy` | the meaning of the server: the descriptors with an open connection, and how long each may stay silent |
| `TcpServer.dfy` | accept, data, close, tick and stop: who owns which wheel entry, and the idle timeout |
| `UrlPath.dfy` | splitting a path, percent decoding |
| `RouteTable.dfy` | the meaning of routing: a flat table of pattern shapes, and the search on values |
| `RouteParams.dfy` | the parameters a search leaves, under the names of the trie's nodes |
| `DeclaredNames.dfy` | the same under the names the routes were declared with, and names of other routes |
| `Router.dfy` | the trie of heap nodes, grown in place, searched with backtracking |
| `Buffer.dfy` | the byte buffer with head room, compaction and growth |
| `OutputStream.dfy` | the output side of a connection on values, for every schedule of kernel answers |
| `LoopErrors.dfy` | which steps of a connection throw out of the event loop, told beforehand |
| `Connection.dfy` | the connection object, method by method |
| `Headers.dfy` | the header list as a case-insensitive map |
| `Numbers.dfy` | decimal and hexadecimal text, 64-bit limits |
| `ByteRange.dfy` | parsing and resolving byte ranges, against section 14.1.2 of RFC 9110 |
| `HttpResponse.dfy` | building a response and reading it back, chunked framing included |
| `FileRun.dfy` | a file on its way out, over any number of writability events |
| `IdleDownload.dfy` | a file on its way out while the idle timer runs |
| `HttpServer.dfy` | file responses, from the range request to the bytes on the wire |
| `ThreadPool.dfy` | the pool as a transition system of workers, enqueuers and shutdown |
| `Multipart.dfy` | the multipart form parser and its round trip |
| `ConfigJson.dfy` | the configuration reader and its round trip |
| `Filename.dfy` | sanitising uploaded file names |
| `CodeTable.dfy` | the table of pick-up codes, shared by the loop thread and the sweeper thread |
| `Downloads.dfy` | admission and accounting of downloads |
| `DownloadReports.dfy` | how a download request is reported complete, and what the accounts make of it |
| `Strings.dfy` | the few `std::string` operations used |

## Where the code departs from its purpose

- A parameter that two routes share at one place of the trie keeps the name of the route that was
  added first (`DeclaredNames.NamedByFirst`, `RouteParams.FirstNameWins`), so a later route finds its own
  name only if it agrees with the first (`DeclaredNames.DeclaredIff`).
- A name that occurs twice along a path of the trie is bound to the wrong segment
  (`RouteParams.SameNameTwice`, `RouteParams.BindsOwnIff`). Handlers can rely on the names they were
  declared with exactly if no route that can answer uses a name twice, and each calls every parameter as
  the first route through its place does (`DeclaredNames.BindsDeclaredIff`).
- A failed branch leaves its bindings behind (`RouteParams.FailedBranchLeavesName`). A request finds a
  name that its route does not declare exactly when the routes have a fork (`DeclaredNames.ForeignIff`).
- The descriptor is cleared before the close callback erases it from the table, so key -1 is erased
  and a closed connection, every one, stays in the table until its descriptor is used again
  (`TcpServer.TcpServer.Close`).
- Closing a connection in the middle of a file can throw out of the event loop, because the
  write-complete callback closes the connection a second time (`OutputStream.HangUpCrashes`,
  `OutputStream.CloseCrashesIff`). So does an error of `sendfile`
  (`LoopErrors.HandleWriteCrashesIff`). What decides is the connection's keep-alive flag
  (`HttpServer.FileResponseEnds`), which nothing in the library sets, so every file response is of this
  kind and ends its connection, whether or not the request asks for keep-alive.
- An event that brings the end of the stream and writability at once is handled as a close and then as a
  write on the closed connection. It throws exactly if the output buffer is empty
  (`LoopErrors.HangUpEventThrowsIff`, `LoopErrors.HangUpEventCrashes`).
- Sending does not count as activity: the idle timer closes every download that is still under way at
  the 60th tick after its request, and that throws if the header is out
  (`IdleDownload.LongDownloadThrowsIff`, `IdleDownload.SlowClientCrashes`).
- If writing the header of a file response fails, queueing the file afterwards throws as well
  (`HttpServer.ResetBeforeHeadCrashes`, `HttpServer.FileResponseCrashesIff`).
- A send while part of a file has gone out puts its bytes into the middle of the file
  (`OutputStream.SendInsideFile`, `OutputStream.SendKeepsExactIff`).
- A file that has become shorter since the handler looked is never finished
  (`FileRun.ShortFileNeverCompletes`). Once all of it is out, writing changes nothing
  (`FileRun.ShortFileStandsStill`): with edge-triggered events, the default
  (src/core/EventLoop.h:24, src/core/EventLoop.cpp:47-49), the connection hangs, and with level-triggered
  ones it keeps the loop busy. Only a close ends it, and that throws (`FileRun.ShortFileEndsInThrow`).
- A suffix range longer than the file, an empty file included, and a range whose end lies before its
  start, are answered with 416; the standard asks for the whole file. A range with a number beyond 64
  bits is ignored (`ByteRange.SuffixBeyondFile`, `ByteRange.AgreesWithStandardIff`).
- An end with a minus sign counts as no end, where the standard has the range ignored
  (`ByteRange.NegativeEndIsOpen`).
- The length of a suffix may be written with a minus sign, and then the subtraction from the file size
  can overflow (`ByteRange.SuffixOverflows`, `ByteRange.SuffixOverflowIff`); elsewhere the range is
  refused, where the standard has it ignored (`ByteRange.NegativeSuffixIsRefused`).
- A content length spelled in other letters survives chunking (`HttpResponse.LowerCaseLengthStays`,
  `HttpResponse.LengthSurvivesChunkingIff`).
- A chunked response without a body, the 416 answer, and the 404 answer for a file that vanished while
  it was looked up, do not say where they end (`HttpResponse.BodySetIsDelimited`,
  `HttpServer.RepliesDelimited`, `HttpResponse.FrameIff`).
- The multipart parser finds its markers inside names and file names (`Multipart.MarkerHidesFilename`,
  `Multipart.RoundTripIff`), and takes the rest of the body as data when a delimiter follows the blank
  line at once (`Multipart.DelimiterBecomesData`, `Multipart.DataEndBelowIff`).
- The configuration reader goes round for ever on a bare word such as `true`
  (`ConfigJson.BareWordIsEndless`, `ConfigJson.OutcomeIff`), cannot read back a size of 2^63 or more
  (`ConfigJson.HugeSizeIsUndefined`), and drops the characters that only a `\u` escape can write
  (`ConfigJson.ControlIsLost`, `ConfigJson.RoundTrip`).
- When a download and the sweeper deal with the same expired code at the same time, a later upload
  under that code can lose its file (`CodeTable.ContestedIsReachable`, `CodeTable.ContestedLoses`).
- A download that does not find the file of its entry erases the entry and leaves its directory behind.
  Since an upload fails if the directory of its code is there, such a code is lost for ever, and so is
  every code whose directory was there when the server started, after a crash say
  (`CodeTable.OrphanStepIff`, `CodeTable.LostIff`, `CodeTable.OrphansHappen`).
- A download that is admitted and then answered without a file, with 410, 416 or 404, is reported
  complete only if the answer had to be buffered, and then counts with its full size
  (`DownloadReports.CountedIff`). Otherwise its place stays taken, and as many of them as the limit
  allows make the server refuse downloads until a write completes on one of their descriptors
  (`HttpServer.RefusalReportsNothing`,
  `DownloadReports.RefusalsFillServer`, `Downloads.FullUntilCompletion`).
- A download on a connection that is tracked already is never completed. That takes up at most all
  places of the limit but one (`Downloads.LeakIsTight`), so the server never refuses downloads for
  good (`Downloads.NeverRefusesForGood`).
- A download that is cut off counts as complete, with its full size (`DownloadReports.CountedIff`).
- A thread pool without threads accepts tasks and never runs them (`ThreadPool.NoWorkerNeverRuns`,
  `ThreadPool.DrainedIff`).

## Model

| member | source | states |
|---|---|---|
| `Countdown.FiresExactly` | src/core/TimeWheel.cpp:62-80 | In any run that leaves a key alone, the key fires at an operation if and only if that operation is its `left`-th tick: not earlier, not later, not twice |
| `Countdown.FiresAtTickAfterSet` | src/core/TimeWheel.cpp:24-80 | The same over a whole history: only the latest add or refresh before it decides at which tick a key fires |
| `Countdown.CancelledNeverFires` | src/core/TimeWheel.cpp:40-46 | A removed key does not fire unless it is set again |
| `TimeWheel.TicksForIsFirstTick` | src/core/TimeWheel.cpp:31-33 | The rounded and clamped count is the one tick that comes first among those no earlier than the timeout, or the last of a full turn when even that is too early |
| `TimeWheel.FiresOnTime` | src/core/TimeWheel.cpp:24-80 | Over a whole history an entry fires at that tick after its latest add or refresh; beyond a full turn of n buckets at the n-th one, and no earlier |
| `TimeWheel.TicksLeftSet` | src/core/TimeWheel.cpp:31-36 | Bucket (cursor + k) mod n is k ticks away for every k from 1 to n, k = n (the current bucket) included |
| `TimeWheel.TicksLeftTick` | src/core/TimeWheel.cpp:62-66 | Advancing the cursor and emptying its bucket is one tick of the countdown, and the bucket holds exactly the keys that are due |
| `TimeWheel.TimeWheel.constructor` | src/core/TimeWheel.cpp:7-11 | A new wheel is empty, and valid if it has a bucket and a positive interval |
| `TimeWheel.Unlink` | src/core/TimeWheel.cpp:83-98 | Taking a node out of a doubly linked list leaves a proper list of the others, in order, and a cleared node |
| `TimeWheel.Link` | src/core/TimeWheel.cpp:101-108 | Putting a node in front keeps the list proper |
| `TimeWheel.TimeWheel.Detach` | src/core/TimeWheel.cpp:83-98 | Removes exactly this entry from its bucket; all buckets stay disjoint, acyclic, with matching links, and every entry names its own bucket |
| `TimeWheel.TimeWheel.Attach` | src/core/TimeWheel.cpp:101-108 | Adds exactly this entry to the bucket, with the same shape kept |
| `TimeWheel.TimeWheel.Add` | src/core/TimeWheel.cpp:24-38 | The abstract map gets the new entry with the first tick no earlier than its timeout, or a full turn; nothing else changes |
| `TimeWheel.TimeWheel.Remove` | src/core/TimeWheel.cpp:40-46 | The entry leaves the map and is deleted, once |
| `TimeWheel.TimeWheel.Refresh` | src/core/TimeWheel.cpp:49-59 | The entry gets the ticks of its timeout again, in the same sense; the set of attached entries does not change |
| `TimeWheel.TimeWheel.Tick` | src/core/TimeWheel.cpp:62-80 | Exactly the due entries leave and are deleted once each; the callbacks of those with a live owner run, each once |
| `TimeWheel.TimeWheel.Destroy` | src/core/TimeWheel.cpp:13-22 | After the destructor every entry ever added has been deleted exactly once |
| `TcpServer.IdleTicksIsARevolution` | src/core/TcpServer.cpp:100-107 | Sixty seconds on the loop's wheel are 60 ticks, which put the entry into the current bucket |
| `TcpServer.ClosedAtSixtiethTick` | src/core/TcpServer.cpp:92-119 | A connection is force-closed by an operation if and only if that is the 60th tick after its latest accept or data event |
| `TcpServer.OpenUntilSixtieth` | src/core/TcpServer.cpp:92-119 | After any history a connection is open if and only if fewer than 60 ticks have passed since its latest accept or data event |
| `TcpServer.TcpServer.Dispatch` | src/core/EventLoop.cpp:88-109 | One event on the objects changes the open descriptors and their ticks exactly as specified; no other connection opens, closes, or takes another one's descriptor |
| `Sessions.OpenIff` | src/core/TcpServer.cpp:92-119 | After any events a descriptor is open if and only if some accept or data event found it free or open, fewer than 60 ticks have followed, and neither data nor an end; or it was open before, with ticks enough for the silence since |
| `TcpServer.TcpServer.Loop` | src/core/EventLoop.cpp:88-109 | A run of the server over any events: the open connections are those in the table under the descriptors open by that condition on the events, one each, and a connection open before is open still if and only if its descriptor was open throughout |
| `TcpServer.TcpServer.Accept` | src/core/TcpServer.cpp:92-109 | The new connection is in the table, owns an attached entry and has 60 ticks; the others keep theirs |
| `TcpServer.TcpServer.HandleAccept` | src/core/TcpServer.cpp:81-111 | One accept call does this for every descriptor the kernel hands out, in order |
| `TcpServer.TcpServer.OnData` | src/http/HttpServer.cpp:84-91 | Data on an open connection restarts its 60 ticks; on a closed one nothing happens |
| `TcpServer.TcpServer.HandleClose` | src/core/Connection.cpp:339-359 | The first close clears the descriptor, drops the wheel entry and erases key -1; a second close does nothing |
| `TcpServer.TcpServer.Close` | src/core/TcpServer.cpp:113-119 | Closing cancels the connection's countdown, nulls its pointer, and leaves it in the table under its old descriptor |
| `TcpServer.TcpServer.OnTick` | src/core/EventLoop.cpp:29-35 | A tick closes exactly the connections with no time left, and keeps every open connection's pointer attached and owned by it |
| `TcpServer.TcpServer.Stop` | src/core/TcpServer.cpp:54-63 | Afterwards no connection is open, the table is empty and the wheel holds no entry |
| `UrlPath.Split` | src/http/Router.cpp:31-47 | The loop computes the segments of the specification |
| `UrlPath.DecodeUrl` | src/http/Router.cpp:6-29 | The loop computes the decoding of the specification, which never lengthens |
| `UrlPath.DecodeInvertsEncode` | src/http/Router.cpp:6-29 | Decoding inverts every percent-encoding (section 2.1 of RFC 3986, and + for a space) of every byte string, however each byte is written |
| `UrlPath.EveryByteWrites` | src/http/Router.cpp:10-18 | Every byte has an escape, so every byte string has an encoding |
| `UrlPath.DecodeIsIdentityIff` | src/http/Router.cpp:6-29 | A string is its own decoding exactly when it has no plus sign and no complete escape |
| `UrlPath.SplitInvertsJoin` | src/http/Router.cpp:31-47 | Splitting inverts joining for all lists of non-empty slash-free segments, with any number of slashes between them and at the end |
| `UrlPath.SplitIsClean` | src/http/Router.cpp:31-47 | No segment is empty or holds a slash |
| `UrlPath.HasSegmentsIff` | src/http/Router.cpp:31-47 | A path has segments exactly if it starts with a slash and holds anything else |
| `RouteTable.KeyIff` | src/http/Router.cpp:66-82 | A leading colon makes a parameter of the name behind it, and nothing else does |
| `RouteTable.AddIsUpdate` | src/http/Router.cpp:60-86 | Registration is a map update of the flat table on the pattern's shape; every other pattern keeps its handler |
| `RouteTable.NamesAfterAdd` | src/http/Router.cpp:67-82 | Every position of the pattern has a node afterwards, named by the route that created it |
| `RouteTable.SearchSound` | src/http/Router.cpp:105-133 | What the search finds is a registered pattern that fits the path |
| `RouteTable.SearchPicksFirst` | src/http/Router.cpp:105-133 | The search misses no fitting pattern, and every other one comes later in static-before-parameter order |
| `RouteTable.RoutesLikeTheTable` | src/http/Router.cpp:88-133 | A handler is found if and only if some pattern of the method fits, and it is that of the first fitting pattern |
| `RouteTable.BeforeIsTotal` | src/http/Router.cpp:111-129 | Of two different patterns that fit one path exactly one comes first |
| `RouteTable.VisitsOnce` | src/http/Router.cpp:105-133 | A search visits each node at most once, and only nodes that fit the path so far |
| `RouteTable.ParamsAreReplay` | src/http/Router.cpp:123-129 | The parameters left behind are exactly the bindings of all nodes entered, in order, failed branches included |
| `RouteTable.LastBindingWins` | src/http/Router.cpp:126 | The value of a name is the decoded segment at the last node entered that has this name |
| `RouteParams.BuiltIsGrounded` | src/http/Router.cpp:60-86 | In tries built by registering routes every node lies on the way to a registered pattern |
| `RouteParams.BindsOwnSegments` | src/http/Router.cpp:88-133 | If no node name occurs twice along a path of the trie, a successful route binds each parameter of its pattern, under the name of its node, to the decoded segment at its own position |
| `RouteParams.BindsOwnIff` | src/http/Router.cpp:88-133 | For tries built by registering routes, every successful request finds the parameters of its pattern right, under the names of the trie's nodes, if and only if no node name occurs twice along a path |
| `RouteParams.VisitedIff` | src/http/Router.cpp:105-133 | A search enters exactly the nodes that fit the path so far and are on the way to the pattern found or before it in static-before-parameter order |
| `RouteParams.NamesLeftIff` | src/http/Router.cpp:123-129 | The names left behind are exactly those of the parameter nodes among these |
| `DeclaredNames.AnswersIff` | src/http/Router.cpp:60-86 | After registering any list of routes a pattern is in the table if and only if some route has it, with the handler of the last one |
| `DeclaredNames.NamedByFirst` | src/http/Router.cpp:67-82 | After registering any list of routes every place has the name that the first route through it gives it |
| `DeclaredNames.DeclaredIff` | src/http/Router.cpp:67-82 | The names all routes of a method declare are those of their nodes if and only if any two routes that share a pattern up to a parameter call it the same |
| `DeclaredNames.BindsDeclaredIff` | src/http/Router.cpp:60-133 | Every request finds the parameters of the route that answers it, under the names declared for it, bound to its own segments, if and only if each route that can answer uses no name twice and calls each parameter as the first route through its place |
| `DeclaredNames.AgreeingBind` | src/http/Router.cpp:60-133 | So routes that agree and use no name twice can rely on their names |
| `DeclaredNames.ForeignIff` | src/http/Router.cpp:88-133 | No request ever finds a name that the route answering it does not declare if and only if the routes have no fork, a condition on pairs of registered nodes alone |
| `RouteParams.SameNameTwice` | src/http/Router.cpp:126 | A concrete registered route with a wrong binding |
| `RouteParams.TwoDepthsAreFine` | src/http/Router.cpp:88-133 | Two concrete routes with one name at two depths, for which all bindings are right |
| `RouteParams.FailedBranchLeavesName` | src/http/Router.cpp:123-129 | Two concrete registered routes and a path on which a foreign name stays bound |
| `RouteParams.FirstNameWins` | src/http/Router.cpp:66-71 | Two concrete registered routes, the second of which does not get its own name |
| `Router.WiredGrow` | src/http/Router.cpp:67-82 | Adding a leaf below a node that points at it keeps all child pointers in agreement with the registered places |
| `Router.Router.GetOrCreateMethodRoot` | src/http/Router.cpp:49-58 | The root of a method exists afterwards and no other node changes |
| `Router.Router.AddRoute` | src/http/Router.cpp:60-86 | The heap trie afterwards stands for the specification's trie after this registration |
| `Router.Router.Match` | src/http/Router.cpp:105-133 | The recursive search over heap nodes finds the handler and leaves the parameters that the specification's search does |
| `Router.Router.Route` | src/http/Router.cpp:88-103 | Routing calls the handler found, else the default handler, else reports that it did nothing |
| `Buffer.Buffer.EnsureWritableBytes` | src/core/Buffer.cpp:84-95 | Room for `len` bytes, contents unchanged, the array replaced exactly when free space at both ends would not do, and compaction only moves left |
| `Buffer.Buffer.Append` | src/core/Buffer.cpp:68-72 | The contents grow by exactly the bytes at the end |
| `Buffer.Buffer.Prepend` | src/core/Buffer.cpp:78-82 | The contents grow by the bytes in front, or stay the same when the head room is too small |
| `Buffer.Buffer.Retrieve` | src/core/Buffer.cpp:48-52 | The first `len` bytes go; asking for more than there is changes nothing |
| `Buffer.Buffer.RetrieveAll` | src/core/Buffer.cpp:54-56 | Nothing is left to read, and the head room is free again |
| `Buffer.Buffer.RetrieveAsString` | src/core/Buffer.cpp:58-62 | The bytes returned followed by the bytes left are the old contents; asking for more returns what lies behind them in the array and consumes nothing |
| `Buffer.Buffer.Shrink` | src/core/Buffer.cpp:97-100 | Contents unchanged, exactly `reserve` bytes writable |
| `Buffer.Buffer.ReadFromFd` | src/core/Buffer.cpp:102-124 | A scatter read appends exactly the bytes received, also when they overflow into the spare buffer |
| `Buffer.Buffer.WriteToFd` | src/core/Buffer.cpp:126-137 | The bytes given to the kernel followed by the contents are the old contents |
| `OutputStream.HandleCloseIsFlat` | src/core/Connection.cpp:339-359 | What closing does when the write-complete callback closes again from inside, without the nesting |
| `OutputStream.CloseCrashesIff` | src/core/Connection.cpp:344-358 | Closing throws exactly when a file response without keep-alive is cut off with its header already out |
| `OutputStream.HandleCloseShuts` | src/core/Connection.cpp:339-359 | Closing, however nested, moves no byte, tears down once and tells the owner once |
| `OutputStream.SendKeepsExactIff` | src/core/Connection.cpp:55-86 | An accepted send extends the stream by its bytes, and the wire stays exact if and only if no part of a file is in the way |
| `OutputStream.HandleWriteKeepsExact` | src/core/Connection.cpp:241-337 | A writability event keeps wire + buffer equal to the accepted stream + the part of the file sent, for every schedule of partial writes, EAGAIN, EINTR and errors |
| `OutputStream.RunKeepsExact` | src/core/Connection.cpp:37-337 | The same over whole runs of sends, files, writability events and closes |
| `OutputStream.FileCompletesExactly` | src/core/Connection.cpp:244-310 | When a file leaves the connection without an error, the wire holds everything accepted before it and exactly file[offset..offset+length) |
| `OutputStream.WritesAllItCan` | src/core/Connection.cpp:268-324 | One writability event writes until nothing is left or the kernel takes nothing more: the buffer, or the file once its header is out |
| `OutputStream.StepKeepsJob` | src/core/Connection.cpp:126-157 | No step replaces a queued file, changes which part of it is due, or takes back what was sent |
| `OutputStream.CloseAfterDrain` | src/core/Connection.cpp:37-44 | After a close with output pending, the connection is open exactly as long as the buffer is not empty, nothing is lost and nothing new gets in |
| `OutputStream.RunKeepsSane` | src/core/Connection.cpp:37-359 | In every reachable state output that is due has its writability events registered, a close is reported exactly once, and only a removed descriptor makes the loop throw |
| `OutputStream.RunKeepsRegistered` | src/core/Connection.cpp:37-359 | In every reachable state writability events are registered only on an open connection with something to write |
| `OutputStream.HangUpCrashes` | src/core/Connection.cpp:339-359 | A concrete run from a fresh connection that throws out of the loop |
| `OutputStream.SendInsideFile` | src/core/Connection.cpp:55-86 | A concrete run that puts a byte into the middle of a file |
| `LoopErrors.FileStepFate` | src/core/Connection.cpp:241-359 | Whether a step leaves a file queued, told from the state and the kernel's answers |
| `LoopErrors.HandleWriteCrashesIff` | src/core/Connection.cpp:241-337 | A writability event throws exactly if, with a file, its response ends the connection, the header is out or goes out whole, and `sendfile` fails before the file ends; without one, if the connection is closed and nothing is buffered |
| `LoopErrors.StepThrowsIff` | src/core/Connection.cpp:37-359 | Exactly which sends, files, writability events and closes throw, told from the state and the step |
| `LoopErrors.RunThrowsIff` | src/core/Connection.cpp:37-359 | And exactly which runs |
| `LoopErrors.HangUpEventThrowsIff` | src/core/Connection.cpp:119-123 | An event with the end of the stream and writability throws exactly if the output buffer is empty |
| `LoopErrors.HangUpEventCrashes` | src/core/Connection.cpp:119-123 | A concrete one whose close goes well |
| `FileRun.FileRunCompletes` | src/core/Connection.cpp:244-311 | Over any number of error-free writability events: once no file is left, the wire holds what was accepted before and all of the due part of the file |
| `FileRun.FileUnderWay` | src/core/Connection.cpp:244-311 | While the file is under way over error-free events, nothing but bytes moves: no report, no close, no change of state |
| `FileRun.FileLeaves` | src/core/Connection.cpp:291-309 | The event in which the file of a response leaves reports it once, and closes the connection and reports that once, or with keep-alive leaves it open for the next request |
| `FileRun.FileProgress` | src/core/Connection.cpp:244-311 | An error-free event in which the kernel takes a byte brings a file that is long enough nearer to its end |
| `FileRun.FileFinishes` | src/core/Connection.cpp:244-311 | Such a file has left after at most as many of these events as there are bytes left, and one |
| `FileRun.ShortFileNeverCompletes` | src/core/Connection.cpp:268-309 | A file that does not hold what is due never completes, is never reported, and its connection stays open, registered and in its state, over any error-free events |
| `FileRun.ShortFileStandsStill` | src/core/Connection.cpp:274-311 | Once all of such a file is out, a writability event changes nothing |
| `FileRun.ShortFileEndsInThrow` | src/core/Connection.cpp:268-359 | After any error-free events on such a file, its close by the peer or by the timer throws exactly if the header is out |
| `IdleDownload.LongDownloadThrowsIff` | src/core/TcpServer.cpp:100-107 | With nothing more from the peer and no failing write, whatever the other descriptors do: nothing throws before the 60th tick after the request, which closes a download still under way, and throws exactly if its header is out |
| `IdleDownload.SlowClientCrashes` | src/core/TcpServer.cpp:100-107 | A concrete client that takes nothing for a minute |
| `IdleDownload.FastDownloadEnds` | src/core/TcpServer.cpp:100-107 | A download with as many productive writability events before the 60th tick as bytes left, and one, is done and closed by then, and the tick does nothing to it |
| `Connection.Connection.Send` | src/core/Connection.cpp:55-86 | The method carries out the specification's send on the fields and the buffer |
| `Connection.Connection.SendFile` | src/core/Connection.cpp:126-157 | The method queues the file as specified; a second file is refused |
| `Connection.Connection.HandleWrite` | src/core/Connection.cpp:241-337 | The two write loops carry out the specification's writability event |
| `Connection.Connection.HandleClose` | src/core/Connection.cpp:339-359 | The method, with its re-entrant callback, carries out the specification's close |
| `Connection.Connection.Close` | src/core/Connection.cpp:37-49 | The method closes at once with an empty buffer, else only marks the connection |
| `Headers.CompareNames` | src/http/HttpRequest.cpp:95-110 | The character loop decides equality up to ASCII case |
| `Headers.GetAfterPut` | src/http/HttpResponse.cpp:32-68 | A stored value is found under every spelling of its name, and no other value changes |
| `Headers.NamesAfterPut` | src/http/HttpResponse.cpp:32-51 | Storing keeps order and spelling of the names; a new name comes last |
| `Headers.PutKeepsOneEach` | src/http/HttpResponse.cpp:32-51 | No two stored names are ever equal up to case |
| `Headers.Store` | src/http/HttpRequest.cpp:112-130 | The loop computes the specification's update |
| `Headers.Lookup` | src/http/HttpResponse.cpp:53-68 | The loop computes the specification's lookup |
| `Numbers.StollOfDecimal` | src/http/HttpRequest.cpp:250-280 | Reading back a printed number gives the number if it fits 64 bits, else the read fails |
| `Numbers.StollOfText` | src/http/HttpRequest.cpp:250-280 | What every text reads as: white space of six kinds, a sign or none, digits, anything else |
| `Numbers.HexFits` | src/http/HttpResponse.cpp:217-219 | A size below 16 to the k has at most k hexadecimal digits, so every 64-bit size fits the chunk header's buffer |
| `ByteRange.HttpRequest.ParseRange` | src/http/HttpRequest.cpp:217-284 | The fields afterwards are those of the specification's parse of the Range header |
| `ByteRange.ParseOfPrint` | src/http/HttpRequest.cpp:217-284 | Parsing a printed range of each of the three forms gives back its numbers, if they fit 64 bits, else no range |
| `ByteRange.HasRangeIff` | src/http/HttpRequest.cpp:217-284 | Among all texts of the header exactly those are taken for a range: the unit, and one pair of numbers around the first dash, without a comma |
| `ByteRange.RangeIs` | src/http/HttpRequest.cpp:241-284 | And the numbers such a text has |
| `ByteRange.ListIsWhole` | src/http/HttpRequest.cpp:236-239 | Every list of two or more ranges is ignored and the whole file sent |
| `ByteRange.NegativeEndIsOpen` | src/http/HttpRequest.cpp:217-284 | A range whose end has a minus sign is read as one without an end |
| `ByteRange.NegativeSuffixIsRefused` | src/http/HttpServer.cpp:157-184 | A suffix with a minus sign is refused wherever the subtraction is possible |
| `ByteRange.ResolveRange` | src/http/HttpServer.cpp:152-187 | The steps on local variables compute the specification's answer, and the length is end - start + 1 |
| `ByteRange.PartialIsInFile` | src/http/HttpServer.cpp:157-187 | A 206 answer satisfies 0 <= start <= end < size with a length of at least 1, without leaving 64 bits, for every Range header |
| `ByteRange.HttpRequest.SetHeader` | src/http/HttpRequest.cpp:112-130 | The header list takes one case-insensitive update |
| `ByteRange.SuffixOverflowIff` | src/http/HttpServer.cpp:157-162 | For the header bytes=--m the subtraction of the suffix leaves 64 bits exactly when INT64_MAX - size < m <= 2^63 |
| `ByteRange.SuffixOverflows` | src/http/HttpServer.cpp:157-162 | It does for every size with m = 2^63, and for no header with a suffix that is not negative |
| `ByteRange.SuffixBeyondFile` | src/http/HttpServer.cpp:152-187 | Concrete ranges that are answered differently from the standard |
| `ByteRange.PartialIff` | src/http/HttpServer.cpp:152-187 | A printed range is answered with 206 exactly when it is satisfiable (for a suffix n: 1 <= n <= size), and then with the interval of the standard |
| `ByteRange.AgreesWithStandardIff` | src/http/HttpServer.cpp:152-187 | Exactly which ranges are answered as section 14.1.2 of RFC 9110 asks, for every file size, 0 included |
| `HttpResponse.HttpResponse.SetContentRange` | src/http/HttpResponse.cpp:74-80 | Status 206, and the two range headers can be looked up with these values |
| `HttpResponse.HttpResponse.SetBody` | src/http/HttpResponse.cpp:82-85 | The body and its content length are stored together |
| `HttpResponse.HttpResponse.Build` | src/http/HttpResponse.cpp:178-230 | The text of the specification, and the reserved size exceeds it by exactly one byte, or, chunked, by at least 28 |
| `HttpResponse.SizeOfText` | src/http/HttpResponse.cpp:179-196 | The size estimate against the length of the text, exactly |
| `HttpResponse.DechunkOf` | src/http/HttpResponse.cpp:217-224 | Decoding the chunked body by section 7.1 of RFC 9112 gives the body back, and whatever follows it |
| `HttpResponse.ClientReadsBack` | src/http/HttpResponse.cpp:178-230 | A client that parses the text gets the status line, every retained header once and in order, and the body |
| `HttpResponse.FrameIff` | src/http/HttpResponse.cpp:178-230 | A client that keeps the connection open and frames by section 6.3 of RFC 9112 finds the body, and the next message behind it, if and only if the response is chunked with a body or keeps a right content length |
| `HttpResponse.BodySetIsDelimited` | src/http/HttpResponse.cpp:82-85 | A body that was set always delimits a response that is not chunked; chunking an empty body loses the end |
| `HttpResponse.LengthSurvivesChunkingIff` | src/http/HttpResponse.cpp:210-215 | A chunked response carries a content length exactly when one is stored in other letters |
| `HttpResponse.KeptParts` | src/http/HttpResponse.cpp:209-215 | Chunking leaves out the fields spelled Content-Length, wherever they stand, and keeps all others in order |
| `HttpResponse.LowerCaseLengthStays` | src/http/HttpResponse.cpp:32-51 | A concrete way to get there |
| `HttpServer.ProcessFile` | src/http/HttpServer.cpp:133-211 | The file branch of request processing carries out the specification's response on the connection |
| `HttpServer.ProcessRequest` | src/http/HttpServer.cpp:133-219 | And so does the whole, with or without a file |
| `HttpServer.FileResponseEnds` | src/http/HttpServer.cpp:63-76 | For every answer with a file, in part or whole: while it is under way nothing is reported, and a close throws exactly if the header is out and the connection has no keep-alive; in the event in which it leaves, the connection is closed, or with keep-alive reads the next request, and each is reported once |
| `HttpServer.PlainAnswerEnds` | src/http/HttpServer.cpp:135-219 | For every request answered without a file (as the response stands, with 410, or with 416): the bytes follow the earlier ones; with keep-alive the connection reads the next request, else it closes as soon as all bytes are out, and not before |
| `HttpServer.ThrowStops` | src/http/HttpServer.cpp:143-209 | An exception in a send leaves undone all that follows it |
| `HttpServer.PartialOnTheWire` | src/http/HttpServer.cpp:152-200 | A satisfiable range request puts the header and exactly bytes first..last of the file on the wire, and is done at the latest after as many productive writability events as there are bytes, and one |
| `HttpServer.WholeOnTheWire` | src/http/HttpServer.cpp:203-210 | A request for the whole file puts the header and the file on the wire, with the same bound; length 0 means all of it here and only here |
| `HttpServer.LengthOfPartial` | src/http/HttpServer.cpp:186-202 | Content-Length and Content-Range of a partial answer name the interval that is sent, also with a content type added |
| `HttpServer.TypeOfPartial` | src/http/HttpServer.cpp:191-195 | A partial answer has the content type of the whole one, and none if that has none |
| `HttpServer.RepliesDelimited` | src/http/HttpServer.cpp:135-186 | The 410 answer says how long it is; the 416 answer, and the 404 answer of a failed `setFile`, do not |
| `HttpServer.GoneReadBack` | src/http/HttpServer.cpp:138-143 | What a client reads in the 410 answer |
| `HttpServer.RefusalReadBack` | src/http/HttpServer.cpp:172-177 | What a client reads in the 416 answer, the size of the file included |
| `HttpServer.StatusOfPartial` | src/http/HttpServer.cpp:189-198 | The status line of a partial answer |
| `HttpServer.PartialIsFramed` | src/http/HttpServer.cpp:186-202 | A client finds exactly the bytes of the range as the body of a 206 answer, and the next message behind them |
| `HttpServer.ResetBeforeHeadCrashes` | src/http/HttpServer.cpp:203-208 | A concrete file response that throws |
| `HttpServer.RefusalReportsNothing` | src/http/HttpServer.cpp:135-218 | A request answered without a file (410, 416, or no file set) reports no completed write when the kernel takes the answer at once |
| `HttpServer.FileResponseCrashesIff` | src/http/HttpServer.cpp:133-207 | A file response throws exactly when the connection is closed or the write of its header fails; a 410 or 416 answer exactly when output is pending on a closed connection, or its write fails while a file is being sent |
| `ThreadPool.ThreadPool.Enqueue` | src/util/ThreadPool.cpp:41-51 | Throws exactly if the queue has a bound and is at it, and leaves it alone; else appends the task |
| `ThreadPool.ThreadPool.WorkerSection` | src/util/ThreadPool.cpp:58-78 | One evaluation of the wait predicate: block, quit, or take the oldest task |
| `ThreadPool.ThreadPool.RequestStop` | src/util/ThreadPool.cpp:30-34 | The flag is set |
| `ThreadPool.StepKeepsFifo` | src/util/ThreadPool.cpp:41-78 | Every step keeps: tasks taken followed by tasks queued are the tasks accepted, and the queue is within its bound |
| `ThreadPool.StepKeepsConserved` | src/util/ThreadPool.cpp:58-78 | Every step keeps: the tasks taken are those that ran and those in the workers' hands, as multisets |
| `ThreadPool.EnqueueIff` | src/util/ThreadPool.cpp:41-51 | An enqueue appends its task if the queue has no bound or is below it, and else changes nothing |
| `ThreadPool.AcceptedIff` | src/util/ThreadPool.cpp:41-51 | Over every run exactly the tasks that find room are accepted, in order |
| `ThreadPool.FillsUp` | src/util/ThreadPool.cpp:41-51 | While its workers stand still a pool accepts all tasks, or exactly as many as its bound says, the first ones |
| `ThreadPool.WorkerSteps` | src/util/ThreadPool.cpp:58-78 | What every step makes of every worker |
| `ThreadPool.EveryRunIsSafe` | src/util/ThreadPool.cpp:30-78 | In every reachable state of every interleaving: FIFO, each accepted task taken at most once, bounded queue, every task taken has run or is running |
| `ThreadPool.NoLostWakeup` | src/util/ThreadPool.cpp:41-78 | While a task waits, a worker is awake or a notification is on its way |
| `ThreadPool.DrainedIff` | src/util/ThreadPool.cpp:30-78 | When all workers have exited, the queue is empty and every accepted task ran once, tasks enqueued during the shutdown included; exactly for pools with a worker or without a task |
| `ThreadPool.NoDeadlock` | src/util/ThreadPool.cpp:30-39 | After the broadcast every worker that is not gone can move |
| `ThreadPool.ShutdownProgress` | src/util/ThreadPool.cpp:58-78 | Every step but a task's own enqueue then brings the end nearer |
| `ThreadPool.ShutdownEnds` | src/util/ThreadPool.cpp:30-39 | After the broadcast every run is at most as long as the work left plus five steps per task enqueued meanwhile, and where no worker can move all have exited |
| `ThreadPool.NoWorkerNeverRuns` | src/util/ThreadPool.cpp:7-28 | A concrete run of a pool without workers that leaves a task behind |
| `Multipart.ParseMultipart` | examples/ezdrop/EzdropServer.cpp:193-268 | The loop computes the specification's parts and ends on every body |
| `Multipart.ParseStep` | examples/ezdrop/EzdropServer.cpp:199-265 | One turn of the loop: it stops, or takes one part and moves strictly forward |
| `Multipart.ParseOfBody` | examples/ezdrop/EzdropServer.cpp:193-268 | A body in the form of section 5.1.1 of RFC 2046 is split into exactly its parts, whatever the headers hold |
| `Multipart.PartStartAfter` | examples/ezdrop/EzdropServer.cpp:208-211 | However the delimiter's line ends, exactly one line break is skipped: CR LF, either alone, or none |
| `Multipart.DataOfContent` | examples/ezdrop/EzdropServer.cpp:219-233 | Whatever lies between the blank line and the next delimiter or the end is the data, less a CR LF at its end |
| `Multipart.RestOfLineEnds` | examples/ezdrop/EzdropServer.cpp:249-261 | A content type ends at the first CR, or without one at the first LF, or with the headers |
| `Multipart.RoundTrip` | examples/ezdrop/EzdropServer.cpp:193-268 | Parsing a written form gives back names, file names, types and data of all parts, for header values free of quotes, CR and the markers |
| `Multipart.RoundTripIff` | examples/ezdrop/EzdropServer.cpp:193-268 | For one-line values without quotes the round trip holds if and only if no name or file name holds the type marker, no name that ends in the file name marker hides a file name, and no type starts with a blank |
| `Multipart.FilenameIff` | examples/ezdrop/EzdropServer.cpp:236-247 | When exactly the file name is read back |
| `Multipart.TypeIff` | examples/ezdrop/EzdropServer.cpp:249-261 | When exactly the content type is read back |
| `Multipart.DataEndBelowIff` | examples/ezdrop/EzdropServer.cpp:219-233 | The data end before they start exactly when the delimiter or the end follows the blank line at once; then all the rest is taken |
| `Multipart.MarkerHidesFilename` | examples/ezdrop/EzdropServer.cpp:236-247 | A concrete part that is not read back |
| `Multipart.DelimiterBecomesData` | examples/ezdrop/EzdropServer.cpp:219-233 | A concrete body whose closing delimiter becomes data |
| `Filename.SanitizeFilename` | examples/ezdrop/EzdropServer.cpp:270-319 | The loops compute the specification's result |
| `Filename.SafeAndIdempotent` | examples/ezdrop/EzdropServer.cpp:270-319 | In both modes every result is a normal relative path (no backslash, no two dots, no empty or single-dot segment, no slash at either end) and is its own result |
| `Filename.ModesAgree` | examples/ezdrop/EzdropServer.cpp:286-318 | File mode refuses exactly the names with two dots and those that end in nothing or a dot, and else keeps the last segment of directory mode |
| `Filename.KeepsStructure` | examples/ezdrop/EzdropServer.cpp:270-307 | Directory mode over every way to write a path, with either separator, any number of them, and the current directory anywhere: two dots are refused, and else all segments that name something are kept, in order |
| `ConfigJson.ParseJsonString` | examples/ezdrop/EzdropServer.cpp:29-64 | The loop computes the specification's string and position, escapes included |
| `ConfigJson.ParseJsonNumber` | examples/ezdrop/EzdropServer.cpp:66-80 | The loop computes the specification's number and position |
| `ConfigJson.ParseJsonValue` | examples/ezdrop/EzdropServer.cpp:82-107 | The branches store what the specification does |
| `ConfigJson.ParseConfigJson` | examples/ezdrop/EzdropServer.cpp:109-139 | The loop computes the specification's outcome; where it would not end, it says so |
| `ConfigJson.Stuck` | examples/ezdrop/EzdropServer.cpp:117-137 | A turn of the loop that makes no progress also changes nothing, and happens exactly at an unknown character |
| `ConfigJson.OutcomeIff` | examples/ezdrop/EzdropServer.cpp:109-139 | For every text, by its characters alone: a number overflows if and only if a big one comes up outside strings before the first closing brace and any bare word, and the loop does not end if and only if a bare word comes up first |
| `ConfigJson.BareWordIsEndless` | examples/ezdrop/EzdropServer.cpp:117-137 | A concrete text on which the loop does not end |
| `ConfigJson.HugeSizeIsUndefined` | examples/ezdrop/EzdropServer.cpp:66-80 | A concrete configuration that overflows when it is read back |
| `ConfigJson.MembersRead` | examples/ezdrop/EzdropServer.cpp:117-137 | The fields of a written object are assigned in order, whatever their keys, values and white space |
| `ConfigJson.UnknownIgnored` | examples/ezdrop/EzdropServer.cpp:98-106 | Fields with unknown keys change nothing |
| `ConfigJson.Defaults` | examples/ezdrop/EzdropServer.h:20-27 | What an empty object, or no object, configures |
| `ConfigJson.RoundTrip` | examples/ezdrop/EzdropServer.cpp:109-139 | What every configuration written as a flat object in the style of sections 4 and 7 of RFC 8259, unknown fields mixed in, is read back as; it comes back itself if and only if its size limit is below 2^63 and its directory name has no control character without a short escape |
| `ConfigJson.ControlIsLost` | examples/ezdrop/EzdropServer.cpp:49-56 | A concrete configuration whose directory name comes back shorter |
| `CodeTable.Table.GenerateCode` | examples/ezdrop/EzdropServer.cpp:447-458 | The first drawn code that is free |
| `CodeTable.FirstFreeIff` | examples/ezdrop/EzdropServer.cpp:447-458 | Which draw that is, and when there is none |
| `CodeTable.CodeFormat` | examples/ezdrop/EzdropServer.cpp:453-455 | A code is six decimal digits that spell the number drawn |
| `CodeTable.FreeCodeExists` | examples/ezdrop/EzdropServer.cpp:447-458 | With fewer than a million entries a free code can be drawn |
| `CodeTable.Table.CollectExpired` | examples/ezdrop/EzdropServer.cpp:910-920 | The sweeper's locked loop erases exactly the expired entries and collects their paths, each once |
| `CodeTable.InsertNeverOverwrites` | examples/ezdrop/EzdropServer.cpp:664-736 | In every interleaving the code of an upload is free when it is inserted, though check and insert lock separately, and every key is its entry's code |
| `CodeTable.LeavesOnlySeen` | examples/ezdrop/EzdropServer.cpp:781-935 | In every interleaving an inserted entry is in the table unless it was seen expired, by a clock read past its time, or a download looked for its file and did not find it |
| `CodeTable.EraseHitsItsOwn` | examples/ezdrop/EzdropServer.cpp:800-822 | A download erases the entry it looked up or none, though the lock was released in between |
| `CodeTable.SafeUnlessContested` | examples/ezdrop/EzdropServer.cpp:664-935 | The sweeper deletes no files of a live entry or a running upload in any run in which it never shares an expired code with a download |
| `CodeTable.ContestedLoses` | examples/ezdrop/EzdropServer.cpp:797-935 | From every state where they share one, both can go on so that a new upload's files are deleted unseen |
| `CodeTable.ContestedIsReachable` | examples/ezdrop/EzdropServer.cpp:797-935 | And such a state can be reached from the start |
| `CodeTable.ChecksDecide` | examples/ezdrop/EzdropServer.cpp:664-822 | What the checks of a download and of an upload decide |
| `CodeTable.OneWayOn` | examples/ezdrop/EzdropServer.cpp:664-822 | The loop thread has one way to go on, except between requests and where a payload may fail to be stored |
| `CodeTable.AlwaysOn` | examples/ezdrop/EzdropServer.cpp:664-822 | And it can always go on |
| `CodeTable.DiskSteps` | examples/ezdrop/EzdropServer.cpp:799-930 | What the steps of the sweeper, a fault, and the clearing of an expired entry remove |
| `CodeTable.OrphanStepIff` | examples/ezdrop/EzdropServer.cpp:816-827 | A code loses its last holder, with its directory left behind, in the step in which a download erases an entry whose file it did not find, and in no other |
| `CodeTable.LostIff` | examples/ezdrop/EzdropServer.cpp:664-935 | From any state, whatever happens: the directory of a code stays for ever, so that every upload that draws the code fails, if and only if nobody holds the code |
| `CodeTable.OrphansHappen` | examples/ezdrop/EzdropServer.cpp:664-827 | A concrete run that loses a code, and a start on leftover directories, which loses theirs |
| `Downloads.AnswerIff` | examples/ezdrop/EzdropServer.cpp:762-827 | A request gets 200 exactly if the server has room, the code has six characters, and its entry is there, unexpired and on disk; and each refusal exactly in its own case |
| `Downloads.EzdropServer.HandleDownload` | examples/ezdrop/EzdropServer.cpp:760-838 | The status by the first check that fails, and the counters change exactly for an admitted download with a connection |
| `Downloads.EzdropServer.Serve` | examples/ezdrop/EzdropServer.cpp:760-888 | Any sequence of requests and finished writes on the object: the accounts are the run of their meanings, a request gets 200 exactly if it can be served and there is room then, and from an empty server the accounts balance with no more downloads active than the limit |
| `Downloads.EzdropServer.OnWriteComplete` | examples/ezdrop/EzdropServer.cpp:874-888 | A finished write completes the tracked download of its descriptor, if there is one |
| `Downloads.RunBalance` | examples/ezdrop/EzdropServer.cpp:770-888 | Over every run: admitted = completed + active; active = tracked + overwritten; bytes admitted = downloaded + tracked + overwritten |
| `Downloads.EveryRunBalances` | examples/ezdrop/EzdropServer.cpp:770-888 | The same from the start, with tracked <= active <= limit, and tracked = active exactly when nothing was overwritten |
| `Downloads.LeakIsTight` | examples/ezdrop/EzdropServer.cpp:830-837 | Over every run overwriting takes up at most all places of the limit but one, and one connection can make it take that many |
| `Downloads.NeverRefusesForGood` | examples/ezdrop/EzdropServer.cpp:770-888 | From every state a run can reach, some continuation admits a download |
| `Downloads.FullUntilCompletion` | examples/ezdrop/EzdropServer.cpp:770-888 | A full server admits a download only after a write has completed on a tracked descriptor, and one such completion is enough |
| `DownloadReports.FileReports` | src/core/Connection.cpp:241-359 | Over the rest of a connection's life a queued file is reported complete not at all while under way, then once, complete or cut off, or twice if the step that ends it is one that throws, told from the state it finds |
| `DownloadReports.AnswerReports` | src/core/Connection.cpp:312-337 | An answer without a file is reported complete once if it was buffered and drains, and else never |
| `DownloadReports.RequestReports` | src/http/HttpServer.cpp:133-219 | Exactly when and how often a request is reported complete, with or without a file, over every run of writability and close events |
| `DownloadReports.CountedIff` | examples/ezdrop/EzdropServer.cpp:760-888 | Which admitted downloads the accounts count as finished, each at most once and with the size stored for it: those whose file has left, complete or not, and those answered without a file, vanished ones included, whose answer was buffered and drained |
| `DownloadReports.RefusalsFillServer` | examples/ezdrop/EzdropServer.cpp:770-888 | As many unreported downloads as the limit allows, on different descriptors, block all further ones whatever else happens |

## Left out

- Sockets, epoll, timerfd and the file system: their answers are parameters, any value the calls can return.
- http_parser and pipelining: requests start out parsed; `onData` is modelled up to the refresh of the wheel entry.
- EventLoop dispatch, Timer, UdpServer, Logger, util/Config and the other examples: thin wrappers or one-branch code.
- TimeWheel.TimeWheel.Tick: a callback runs after its list has been taken apart and touches no other entry, as those of `TcpServer` do; a callback that refreshes or removes another entry of the same bucket is not modelled.
- TimeWheel.TicksFor: real arithmetic stands in for `double`, and a quotient beyond `int` does not overflow.
- TcpServer.TcpServer.Close: a close that throws is not part of the server's model, nor of `OnTick` and `Stop`; which closes throw is said in `LoopErrors` and `IdleDownload`.
- Destructors of connections and shared ownership: an owner is alive as long as the table holds it.
- The data callback inside `handleRead`, and the error path there: end of stream and errors are the step `PeerClosed`.
- OutputStream.Transfer: a schedule of kernel answers is finite; when it has run out, the kernel says EAGAIN.
- The failing `lseek` of `sendFile`: the file is left alone and nothing is queued.
- ThreadPool construction that fails half way, and what a task does besides enqueueing: a task may end in any way at any time.
- HttpResponse.Frame: statuses and methods that never have a body are not told apart.
- `setUrl`, `setFile` with its content types, `reset` and the plain getters and setters: easy.
- Locale and sign details of `tolower`, `isxdigit` and `stoll`: ASCII and digit strings.
- ConfigJson.ReadNumber: a number beyond 64 bits is signed overflow, which has no meaning in C++; the outcome then is `Undefined`.
- Random codes and suffixes: any draws; whether a free code comes up in time is not modelled.
- Payload and directory of a code: removing a directory is one step, and the two payload names count as one.
- Tar archives, upload names and statistics of uploads: easy.
- Integer widths of counters and sizes other than those named above: unbounded.
