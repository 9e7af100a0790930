# Hound, modelled in Dafny

Hound is an HTTP/1.1 server: an event loop, a chain buffer per connection, an incremental
parser, a router, a timer wheel and a coroutine scheduler. This project models that logic and
proves what it is for. Objects the server updates in place are classes here, with the fields
the server has; each method is proved against a specification function or an abstract value,
and the theorems are about those. What runs on several threads, and what must hold over whole
runs, is a machine of small steps with theorems over every run.

`dafny verify dfyconfig.toml` checks everything.

| file | what it holds |
|---|---|
| `Text.dfy`, `Strtoul.dfy` | scanning, and the C library's `strtoul` against tables of digits and white space, with the printer it inverts |
| `ParserSpec.dfy` | the parser as a machine over the unread bytes, one line or byte at a time (`Step`, `Run`), with any memory behind the view; independence of how the stream is cut |
| `Messages.dfy` | encodings of sections 3 and 4.1 of RFC 7230 and their round trips |
| `ChainBuffer.dfy` | the linked blocks as one byte sequence |
| `Windows.dfy` | what `parse` makes of a buffer of which it sees one block (`Rounds`), and when it gets as far as the bytes allow |
| `HttpParser.dfy` | the parser object over the chain buffer, proved to do exactly `Rounds` |
| `Pipelining.dfy` | the loop around the parser over a flat stream (`Serve`) |
| `Connection.dfy` | the same loop, readable events and whole connections over the real parser and blocks |
| `HttpRequest.dfy` | the scan for a cookie |
| `HttpResponse.dfy` | the response builder and printer, read back by the parser and by that scan |
| `EventLoop.dfy` | task queue and wakeup, all interleavings |
| `Timers.dfy`, `TimerWalk.dfy`, `TimerWheel.dfy` | slots and rounds against a map from timer to steps left; the walk over a bucket; the wheel object |
| `Lifecycle.dfy`, `HttpServer.dfy` | connections over every run, as a machine and as objects |
| `Router.dfy`, `RouterTrie.dfy` | what a pattern matches, and the trie that finds it |
| `SelectPoller.dfy` | channel map and list, and the scan that stops early |
| `Scheduler.dfy`, `Coroutines.dfy` | every unfinished coroutine in exactly one place and turns in order, as a machine and as objects |

How the layers meet: `HttpParser.Parse` is exactly `Rounds`, a function of the parser and of
what the reader of the buffer sees; `Rounds` is related to `Run` in one view (`RoundsOneView`),
over a clean stream with any future (`RoundsKept`), and exactly (`ReachesExactlyWhen`).
`ServeLoop` and `OnReadable` are exactly `Loop`, and `ServeStream` says what a whole connection
makes of its stream. `Wheel` carries a ghost map `due`; `HttpServer` and the scheduler object
carry a ghost state of their machine, and each method moves it by exactly one action or one
handler.

## Where the code does not do what one might expect

Each point is stated as the code behaves, with the exact condition where there is one.

- A chunk size is read by `strtoul` from the address of its line, so a blank size line takes
  its value from whatever follows in memory, arrived or not. And two more than a size of
  2^64 - 2 or above wraps around, which throws. The result is independent of the cuts and of
  that memory if and only if no size line met is blank and no size wraps around
  (`SegmentationTheorem`, `BlankSizeLineMatters`, `LargeSizeThrows`).
- The empty line after the last chunk stays unread, although a comment says otherwise, and is
  taken for the next request line (`ChunkedThenFails`).
- The two bytes after a chunk's data are skipped unseen, and a size line that is not blank but
  begins with no hex digit denotes 0 and ends the body (`ChunkedRoundTrip`).
- After `Content-Length: 0` the parser waits for one more byte (`CompleteExactlyWhen`).
- The parser sees only the first readable block. It gets as far as the bytes allow if and only
  if nothing that has to be seen whole lies across the end of the window or of a block that
  comes into view after it (`ReachesExactlyWhen`).
- The head block is never refilled while the reader is in it, so a connection looks at the
  first 4096 bytes it receives and at nothing after them: all its requests are handed over if
  and only if together they fit one block (`AllHandedExactlyWhen`, `HandedExactly`,
  `ServeStream`). `DrainedBlockStalls` and `StraddledLineStalls` are two such connections.
- A response that cannot be written closes the connection, but the request loop does not look
  at the closed flag: a request is handed over after the close if and only if the write for
  one that is not the last of its event failed (`ClosedExactlyWhen`). `ServedAfterClose` is
  such an event.
- A task queued by the loop thread before `loop()` has no wakeup (`NoLostWakeup`,
  `EarlyQueueIsLost`).
- `tick` sets `last_tick_` before it takes the difference to it, so it never advances
  (`Tick`). The slot loop inside it is modelled as `AdvanceSlots`.
- A delay of a whole number of turns fires a turn late (`AddTimer`). A repeating timer with
  such a period comes back a turn late exactly when it was the last of its bucket when it
  fired (`BackSoon`): one with a period of at least a step if and only if it was the only such
  timer due in the bucket and at its end (`LateExactlyWhen`), one with a shorter period
  exactly at its final firing in a walk (`ShortLastExactlyWhen`).
- The walk over a bucket ends if and only if at most one timer due in it has a period below
  one step (`WalkEndsExactlyWhen`). All walks end, for however many steps, if and only if no
  two such timers share a slot (`AdvanceSlots`).
- `ensure_writable` provides the space exactly when it is at most one block (`EnsureWritable`).
- `remove_channel` with another object for a known descriptor leaves map and list in
  disagreement (`RemoveChannel`).
- A second coroutine waiting on the same descriptor and direction displaces the first, and a
  bare yield is never resumed (`KeepsExactlyWhenDisciplined`). `Scheduler::tick` answers
  false when its queue was empty, whoever waits (`Tick`).
- `route` does not come back from a child it has taken: with `/a/b` and `/:x/c` registered,
  `/a/c` is lost (`NoWayBack`). A pattern is the one found if and only if the walk follows it
  (`FoundExactlyWhen`).

## Model

| member | source | states |
|---|---|---|
| `Strtoul.StrToUlToDigits` | hound/src/http/http_parser.cpp:154 | printing a number and reading it back gives the number, in every base up to 16 and up to the largest unsigned long |
| `Strtoul.StrToUlReads` | hound/src/http/http_parser.cpp:236-237 | on every text, the value is the positional value of the digits in their base, with the digits given by a table in both cases, after white space, a sign and the 0x of base 16: saturated above 2^64 - 1 and taken from 2^64 after a minus |
| `Strtoul.EveryText` | hound/src/http/http_parser.cpp:236-237 | every text is white space, sign, prefix, digits and a rest in that sense, so the value is fixed for all of them |
| `Strtoul.StrToUlLocal` | hound/src/http/http_parser.cpp:235-237 | a line with anything but white space fixes its number, whatever follows the carriage return |
| `ParserSpec.Step` | hound/src/http/http_parser.cpp:57-79 | a step consumes no more than is in view, only from an unfinished state, and consuming nothing ends the parse |
| `ParserSpec.RunConsumes` | hound/src/http/http_parser.cpp:49-86 | a run removes exactly a prefix, and a non-empty one if it completes a request from the start |
| `ParserSpec.RunIdempotent` | hound/src/http/http_parser.cpp:49-86 | a run ends where another run cannot go on |
| `ParserSpec.StepExtends` | hound/src/http/http_parser.cpp:92-273 | a step possible now is the same step when more bytes are in view, unless it is on a blank size line |
| `ParserSpec.StepShrinks` | hound/src/http/http_parser.cpp:92-273 | a step that consumes needs no more in view than what it consumes |
| `ParserSpec.RunSplits` | hound/src/http/http_parser.cpp:49-86 | running on a prefix and then on the rest ends where one run over the whole ends |
| `ParserSpec.RunAnyMemory` | hound/src/http/http_parser.cpp:235-237 | on a clean stream the memory behind the view does not matter |
| `ParserSpec.SegmentationTheorem` | hound/src/http/http_parser.cpp:49-273 | from every state and for every stream, all ways of cutting it, with any memory behind each piece, end without an exception in the same parser state, request, body and unread bytes if and only if no size line met is blank and no size wraps around |
| `ParserSpec.TellingPieces` | hound/src/http/http_parser.cpp:235-246 | for every other stream that does not throw, pieces and memory that give a different result |
| `ParserSpec.BlankSizeLineMatters` | hound/src/http/http_parser.cpp:235-246 | two concrete such streams: one that depends on the cut, one on the memory |
| `ParserSpec.MethodRoundTrip` | hound/src/http/http_request.cpp:86-108 | names and methods belong together both ways, and every other name is UNKNOWN |
| `Messages.HeadLeads` | hound/src/http/http_parser.cpp:92-194 | the head of every plain message is read into its method, path, version and header map, with any number of spaces after each colon, lines without a colon dropped, and later headers replacing earlier ones |
| `Messages.FieldRead` | hound/src/http/http_parser.cpp:175-188 | a line sets exactly its key to its value, whatever the number of spaces between them, none included; a line without a colon sets nothing |
| `Messages.FieldStep` | hound/src/http/http_parser.cpp:166-190 | the same for the parser: that one line is consumed and nothing else changes |
| `Messages.EveryLine` | hound/src/http/http_parser.cpp:166-188 | every line but the empty one is of that form |
| `Messages.BadLineFails` | hound/src/http/http_parser.cpp:102-116 | a first line with fewer than two spaces is an error, and nothing is consumed |
| `Messages.BodyLeads` | hound/src/http/http_parser.cpp:200-214 | a body of the announced length is taken whole and nothing after it |
| `Messages.MessageRoundTrip` | hound/src/http/http_parser.cpp:92-214 | every well-formed message, with no body, an empty one or more, is read back exactly with the following bytes left unread; after an announced empty body there must be one |
| `Messages.CompleteExactlyWhen` | hound/src/http/http_parser.cpp:200-211 | on its own a well-formed message is read to its end exactly when it does not announce an empty body; one that does waits in the body with its request otherwise complete |
| `Messages.ChunksLead` | hound/src/http/http_parser.cpp:221-273 | every list of non-empty chunks is joined into the body, however the sizes are spelled |
| `Messages.ChunkedRoundTrip` | hound/src/http/http_parser.cpp:221-273 | in every segmentation and with any memory, with sizes in any mix of cases, with or without 0x, leading zeros, white space or an extension behind them: body is the chunks joined, state done, unread bytes begin right after the line that denotes 0 |
| `Messages.LargeSizeThrows` | hound/src/http/http_parser.cpp:252-266 | a size that wraps around, however spelled, throws as soon as a byte of the chunk is there |
| `ChainBuffer.Block.Fill` | hound/src/io/buffer.h:120-129 | copying into the free space makes nothing readable |
| `ChainBuffer.Block.Commit` | hound/src/io/buffer.h:120-129 | committed bytes follow the readable ones |
| `ChainBuffer.Block.Consume` | hound/src/io/buffer.h:120-129 | consumed bytes leave from the front |
| `ChainBuffer.Block.Reset` | hound/src/io/buffer.h:128 | both indices go to the start |
| `ChainBuffer.Buffer.constructor` | hound/src/io/buffer.cpp:15-22 | an empty chain of one block |
| `ChainBuffer.Buffer.AllocateNext` | hound/src/io/buffer.cpp:34-41 | one more reset block behind the last, contents unchanged |
| `ChainBuffer.Buffer.Append` | hound/src/io/buffer.cpp:47-74 | the bytes go behind all others, over as many blocks as it takes, and the window gains those that fit its own block |
| `ChainBuffer.Buffer.BeginWrite` | hound/src/io/buffer.cpp:76-87 | contents and window unchanged, never no space; a full block, and only a full one, is left for the next |
| `ChainBuffer.Buffer.HasWritten` | hound/src/io/buffer.cpp:89-97 | exactly the bytes written, clamped to the space, become part of the contents, and of the window exactly when reader and writer share the block |
| `ChainBuffer.Buffer.EnsureWritable` | hound/src/io/buffer.cpp:99-107 | contents unchanged; the space is there exactly when at most one block was asked for |
| `ChainBuffer.Buffer.Peek` | hound/src/io/buffer.cpp:113-129 | the first readable block, a prefix of the contents |
| `ChainBuffer.Buffer.WindowIsPrefix` | hound/src/io/buffer.cpp:113-129 | how window and contents are related in every state |
| `ChainBuffer.Buffer.Retrieve` | hound/src/io/buffer.cpp:137-182 | drops exactly min(n, size) bytes, through compaction too; the window is then the rest of the head block, or as much as fits one block |
| `ChainBuffer.Buffer.Advance` | hound/src/io/buffer.cpp:144-170 | consuming across blocks drops exactly that prefix, leaves drained blocks behind, and leaves a block exactly when it drains it |
| `ChainBuffer.Buffer.Compact` | hound/src/io/buffer.cpp:172-181 | moving the rest back to the head keeps the contents and shows the first block's worth of them |
| `ChainBuffer.Buffer.RetrieveAll` | hound/src/io/buffer.cpp:184-196 | nothing left, every block reset |
| `ChainBuffer.Buffer.Find` | hound/src/io/buffer.cpp:202-250 | the smallest offset at which the needle occurs in the contents, across any number of blocks; -1 exactly when there is none or the needle is empty |
| `ChainBuffer.Buffer.MatchFrom` | hound/src/io/buffer.cpp:217-240 | the inner walk answers yes exactly when the needle occurs at that offset |
| `ChainBuffer.Buffer.FindChar` | hound/src/io/buffer.cpp:252-273 | the same for one byte |
| `ChainBuffer.Buffer.ReadUntil` | hound/src/io/buffer.cpp:275-292 | up to and including the first delimiter when that is within the first block, else nothing |
| `ChainBuffer.Buffer.ReadN` | hound/src/io/buffer.cpp:294-312 | the first n bytes across blocks, or nothing when there are fewer |
| `HttpParsing.FindCrlf` | hound/src/http/http_parser.cpp:36-43 | the first CRLF or -1 |
| `HttpParsing.HttpParser.constructor` | hound/src/http/http_parser.cpp:11-13 | the initial state |
| `HttpParsing.HttpParser.Reset` | hound/src/http/http_parser.cpp:15-25 | the initial state again, whatever came before |
| `HttpParsing.HttpParser.ParseRequestLine` | hound/src/http/http_parser.cpp:92-129 | exactly one step of the machine: request line, error or nothing |
| `HttpParsing.HttpParser.AddHeaderLine` | hound/src/http/http_parser.cpp:175-188 | one entry of the header map: the key up to the first colon, the value behind all spaces after it, for every line; a line without a colon is dropped |
| `HttpParsing.HttpParser.FinishHeaders` | hound/src/http/http_parser.cpp:143-164 | chunked, fixed-length or no body, as the headers say |
| `HttpParsing.HttpParser.ParseHeaders` | hound/src/http/http_parser.cpp:135-194 | takes exactly the steps of the machine that the view allows in this phase: header lines up to the empty one |
| `HttpParsing.HttpParser.ParseBody` | hound/src/http/http_parser.cpp:200-214 | takes exactly the steps of the machine that the view allows in this phase: a fixed-length body |
| `HttpParsing.HttpParser.ReadChunkSize` | hound/src/http/http_parser.cpp:228-249 | exactly one step, with whatever memory lies behind the view: the size is the number those bytes denote in hex; zero ends the body |
| `HttpParsing.HttpParser.ReadChunk` | hound/src/http/http_parser.cpp:251-269 | a whole chunk, part of one, or an exception where size and two wrap around |
| `HttpParsing.HttpParser.ParseChunkedBody` | hound/src/http/http_parser.cpp:221-273 | takes exactly the steps of the machine that the view allows in this phase: sizes, data and line ends of chunks, wrap-around included |
| `HttpParsing.HttpParser.ParseRound` | hound/src/http/http_parser.cpp:53-82 | one turn: exactly one call on the window, and exactly its bytes retrieved |
| `HttpParsing.HttpParser.Parse` | hound/src/http/http_parser.cpp:49-86 | for every stream, block layout and memory: the end configuration as a function of parser, window, contents and whether the reader is at the head; removes exactly the prefix it reports |
| `Windows.PhaseStops` | hound/src/http/http_parser.cpp:76-79 | a call that uses nothing has found nothing to do, or has come to an end |
| `Windows.RoundsStop` | hound/src/http/http_parser.cpp:52-83 | the loop removes a prefix, ends with nothing left or nothing to do in view, and stays as it is where there is nothing to do |
| `Windows.RoundsOneView` | hound/src/http/http_parser.cpp:49-86 | with everything in one view it ends where the machine's run ends |
| `Windows.RoundsKept` | hound/src/http/http_parser.cpp:49-86 | over a clean stream what it leaves leads where everything would have led, whatever comes later |
| `Windows.RoundsByWindow` | hound/src/http/http_parser.cpp:52-83 | from the head block it runs the window to a standstill and, if that uses it up, goes on with the next block's worth of bytes |
| `Windows.ReachesExactlyWhen` | hound/src/http/http_parser.cpp:52-83 | over a clean stream `parse` reaches the end of the run if and only if, before the call, nothing is split by the end of the window or of a block to come |
| `Pipelining.ServeSplits` | hound/src/http/http_server.cpp:167-191 | serving a prefix and then the rest hands over what serving the whole does |
| `Pipelining.ServePiecesTheorem` | hound/src/http/http_server.cpp:135-192 | the same requests in every segmentation, and the same parser and unread bytes unless it fails |
| `Pipelining.ServeMessages` | hound/src/http/http_server.cpp:167-191 | well-formed messages in front of any clean tail are handed over in order |
| `Pipelining.IncompleteWaits` | hound/src/http/http_server.cpp:188-191 | a message that has not fully arrived, or announces an empty body and nothing follows, is neither handed over nor rejected |
| `Pipelining.PipeliningTheorem` | hound/src/http/http_server.cpp:167-191 | over a flat buffer, any messages, with empty bodies announced or not, and the beginning of one more, in every segmentation: exactly those requests in order, and only the incomplete one left |
| `Pipelining.HandedAndWaiting` | hound/src/http/http_server.cpp:167-191 | over real blocks: the requests handed over and those still in the buffer are together the ones sent, in order |
| `Pipelining.ChunkedThenFails` | hound/src/http/http_parser.cpp:240-246 | a chunked message is handed over and then fails the connection, whatever follows |
| `Connection.LoopOneView` | hound/src/http/http_server.cpp:167-191 | with everything in one view the loop serves everything |
| `Connection.LoopStops` | hound/src/http/http_server.cpp:188-191 | the loop ends with nothing left or nothing to do in view, and where there is nothing to do in view nothing changes, whatever lies behind the window |
| `Connection.LoopOnTrack` | hound/src/http/http_server.cpp:167-191 | over a clean stream in every layout the requests handed over are a prefix of those of the whole, and serving the rest supplies the others |
| `Connection.ClosedExactlyWhen` | hound/src/http/http_server.cpp:255-262 | a connection is closed if and only if the parse or some write failed, and requests are handed over after that if and only if a write for one that was not the last failed |
| `Connection.ServeLoop` | hound/src/http/http_server.cpp:167-191 | terminates, and is exactly `Loop`: requests, failure, parser and buffer as a function of what was there, the same whether responses can be written or not; closed, and which requests came after, as `Closes` says |
| `Connection.OnReadable` | hound/src/http/http_server.cpp:142-191 | in one block with room everything is served; where the new bytes do not come into view and there is nothing to do in view, nothing is handed over and the same holds of every later event |
| `Connection.ServeStream` | hound/src/http/http_server.cpp:135-192 | one connection from its first byte, any pieces, any memory, any failed writes: exactly the requests of the first 4096 of the bytes received come out, in order, and the rest piles up unread; all bytes are received unless the connection closes or fails |
| `Connection.ServedAfterClose` | hound/src/http/http_server.cpp:255-262 | two requests in one read, the first response unwritten: closed, and the second handed over after that |
| `Connection.HandedExactly` | hound/src/http/http_server.cpp:135-192 | of messages that reach past 4096 bytes exactly those that end within them are handed over |
| `Connection.AllHandedExactlyWhen` | hound/src/http/http_server.cpp:135-192 | all requests of a connection are handed over if and only if together they fit one block |
| `Connection.DrainedBlockStalls` | hound/src/io/buffer.cpp:76-87 | a request that fills the block exactly, and a whole one after it that is never looked at |
| `Connection.StraddledLineStalls` | hound/src/http/http_parser.cpp:53-54 | a request line cut by the end of the block, never completed |
| `Responses.HttpResponse.SetStatus` | hound/src/http/http_response.h:27-30 | status code and message |
| `Responses.HttpResponse.SetHeader` | hound/src/http/http_response.h:36-38 | one entry; the framing survives exactly when it is not a wrong Content-Length |
| `Responses.HttpResponse.SetBody` | hound/src/http/http_response.h:45-48 | Content-Length tells the size of the new body |
| `Responses.HttpResponse.AppendBody` | hound/src/http/http_response.h:50-53 | Content-Length tells the size of the longer body |
| `Responses.HttpResponse.SetCookie` | hound/src/http/http_response.h:56-68 | one more cookie, attributes as asked |
| `Responses.CookieIsPlain` | hound/src/http/http_response.h:56-68 | a cookie of plain parts survives as a header value |
| `Requests.Cookie` | hound/src/http/http_request.cpp:66-84 | the scan of the cookie header, item by item |
| `Requests.CookieReadBack` | hound/src/http/http_request.cpp:66-84 | for every list of items the scan finds the value of the first with that name, and nothing if there is none |
| `Requests.EveryCookieHeader` | hound/src/http/http_request.cpp:70-82 | every header is such a list |
| `Responses.CookieTextIs` | hound/src/http/http_response.h:56-68 | a cookie that was set is its value, its path, its age and its flag as items, the last two when asked for |
| `Responses.CookieSurvives` | hound/src/http/http_response.h:56-68 | value, path and age are read back from it by name |
| `Responses.DecimalReadBack` | hound/src/http/http_response.h:47 | a printed number is its decimal numeral: `strtoul` reads it back in base 10, and it has no superfluous zero |
| `Responses.HttpResponse.Serialize` | hound/src/http/http_response.cpp:6-29 | the encoding of a message whose headers are the map's entries, once each in some order, then the cookies |
| `Responses.ResponseRoundTrip` | hound/src/http/http_response.cpp:6-29 | parsing a printed response with a body recovers headers and exact body for every header order, the last cookie standing for all |
| `Responses.FramedCompleteIff` | hound/src/http/http_response.h:45-48 | a printed response is complete on its own exactly when its body is not empty |
| `Responses.CookiesCollapse` | hound/src/http/http_request.h:37-39 | several cookies leave the last one under the one key |
| `EventLoop.BookkeepingKept` | hound/src/reactor/event_loop.cpp:255-269 | every action of every thread keeps a batch inside its own turn and the calling flag with it |
| `EventLoop.WakefulKept` | hound/src/reactor/event_loop.cpp:192-281 | every action keeps queued tasks and quits announced between the swap and the next poll |
| `EventLoop.NoLostWakeup` | hound/src/reactor/event_loop.cpp:192-281 | in every interleaving the loop never polls with an unannounced task or quit, if and only if none was queued unannounced before `loop` |
| `EventLoop.EarlyQueueIsLost` | hound/src/reactor/event_loop.cpp:245-253 | a concrete unannounced task |
| `EventLoop.ExactlyOnceInOrder` | hound/src/reactor/event_loop.cpp:245-269 | over every run, executed, batch and queue are together what was there before and the tasks handed to `queue_in_loop` in the run, read off its actions in order; nothing executed is taken back |
| `EventLoop.BatchOnlyShrinks` | hound/src/reactor/event_loop.cpp:255-269 | a task that queues tasks never extends its own batch |
| `EventLoop.RunBeforeNextPoll` | hound/src/reactor/event_loop.cpp:196-220 | what was queued when poll returned has run, in order, before the loop tests quit, polls again or exits |
| `EventLoop.FullTurn` | hound/src/reactor/event_loop.cpp:200-220 | from every poll the loop can finish its turn, and has then run exactly what was queued, in order |
| `EventLoop.PushIsRun` | hound/src/reactor/event_loop.cpp:245-269 | a task queued from another thread during poll runs last in that turn |
| `EventLoop.QuitExactlyWhen` | hound/src/reactor/event_loop.cpp:226-231 | over every run, quit is set afterwards exactly if it was before or somebody asked for it |
| `EventLoop.QuitIsHeeded` | hound/src/reactor/event_loop.cpp:200-231 | a quit from another thread during poll ends the loop after that turn, with everything queued run |
| `EventLoop.QuitStops` | hound/src/reactor/event_loop.cpp:200-231 | once quit is set outside poll the loop never polls again |
| `Timers.SlotAndRounds` | hound/src/reactor/timer_wheel.cpp:62-64 | slot and rounds together are the step count, a turn more for whole turns |
| `Timers.RoundsAgree` | hound/src/reactor/timer_wheel.cpp:62 | rounds from the delay are rounds from the step count |
| `Timers.AgreeInsert` | hound/src/reactor/timer_wheel.cpp:53-74 | a new timer keeps slots and rounds in agreement with steps left, also within a walk |
| `Timers.AgreeTurn` | hound/src/reactor/timer_wheel.cpp:115-116 | moving the hand brings every timer exactly one step closer |
| `Timers.AgreeVisit` | hound/src/reactor/timer_wheel.cpp:122-125 | one round less in the bucket under the hand is the same steps left |
| `Timers.AgreeRemove` | hound/src/reactor/timer_wheel.cpp:126-131 | taking a timer out takes out exactly that one |
| `TimerWheel.Wheel.constructor` | hound/src/reactor/timer_wheel.cpp:8-15 | no timers |
| `TimerWheel.Wheel.Insert` | hound/src/reactor/timer_wheel.cpp:53-74 | k steps ahead fires in k steps, or k + N for whole turns, except at the end of a bucket still being walked, where it is k; count and ids stay right |
| `TimerWheel.Wheel.AddTimer` | hound/src/reactor/timer_wheel.cpp:26-37 | a fresh id and one entry more, with the whole steps to its time left, or a full turn more if those are whole turns; a time already past counts as now |
| `TimerWheel.Wheel.AddRepeating` | hound/src/reactor/timer_wheel.cpp:39-51 | the same with a period |
| `TimerWheel.Wheel.Cancel` | hound/src/reactor/timer_wheel.cpp:76-98 | exactly the named timer goes, if it is there |
| `TimerWheel.Wheel.AdvanceSlot` | hound/src/reactor/timer_wheel.cpp:114-150 | whenever the walk ends at all: it is the walk over the bucket, end iterator included; exactly the timers with one step left fire, the others come a step closer, repeating ones are due again after their period, or a turn more if last |
| `TimerWheel.Wheel.AdvanceSlots` | hound/src/reactor/timer_wheel.cpp:114-150 | over any number of steps each timer fires in exactly the step its count says, never early, and every step is one of `Stepped`; it comes to a walk that does not end, within `Doom` steps, if and only if two periods below one step share a slot |
| `TimerWheel.Wheel.Fire` | hound/src/reactor/timer_wheel.cpp:126-148 | one firing is one step of the walk, and keeps what is due in agreement |
| `TimerWheel.Wheel.Tick` | hound/src/reactor/timer_wheel.cpp:100-105 | as coded nothing fires and nothing moves |
| `TimerWheel.Wheel.NextTimeout` | hound/src/reactor/timer_wheel.cpp:153-170 | -1 exactly when no timer exists, otherwise exactly the smallest distance of any timer beyond whole turns, so never past the moment one fires; the last return is unreachable |
| `TimerWalk.WalkEndsExactlyWhen` | hound/src/reactor/timer_wheel.cpp:118-149 | a walk ends if and only if at most one of the timers still to be walked is due with a period below one step |
| `TimerWalk.BackSoon` | hound/src/reactor/timer_wheel.cpp:62-64 | a timer comes back after its k steps, or k + N exactly when it was last and k is a multiple of N |
| `TimerWalk.LateExactlyWhen` | hound/src/reactor/timer_wheel.cpp:118-149 | in every walk a timer with a period of whole turns, at least a step, is last when it fires if and only if the bucket ended with the only such timer due |
| `TimerWalk.ShortLastExactlyWhen` | hound/src/reactor/timer_wheel.cpp:118-149 | one with a period below a step is last exactly at its final firing in the walk |
| `TimerWalk.FewAfterWalk` | hound/src/reactor/timer_wheel.cpp:118-149 | a walk that ends brings the short timers of its bucket a round closer and loses none |
| `TimerWalk.DoomNears` | hound/src/reactor/timer_wheel.cpp:114-150 | each slot step brings two short timers in one slot a step closer to the walk that does not end |
| `TimerWalk.MidwayFire` | hound/src/reactor/timer_wheel.cpp:126-148 | what is due in the middle of a walk, from one firing to the next |
| `TimerWalk.OneStepOn` | hound/src/reactor/timer_wheel.cpp:114-150 | in one step a timer comes closer, or fires and is due again |
| `TimerWalk.HasLineage` | hound/src/reactor/timer_wheel.cpp:140-147 | a repeating timer followed through all its ids over any number of steps |
| `TimerWalk.Rhythm` | hound/src/reactor/timer_wheel.cpp:140-147 | with a period of k steps, not whole turns, it fires in the steps left, left + k, left + 2k and so on, and in no other |
| `Lifecycle.CloseKeeps` | hound/src/http/http_server.cpp:194-215 | closing keeps one erase per closed connection and timers with open ones |
| `Lifecycle.RefreshKeeps` | hound/src/http/http_server.cpp:97-103 | refreshing keeps the invariant |
| `Lifecycle.RefreshRenews` | hound/src/http/http_server.cpp:97-103 | an open connection's timer is cancelled, the one it has afterwards was not live before and is its own, and every other connection and timer is as it was |
| `Lifecycle.CloseShuts` | hound/src/http/http_server.cpp:194-215 | an open connection is closed, has no live timer and one erase more in the queue, and all others are as they were; any other close does nothing |
| `Lifecycle.MessageDoes` | hound/src/http/http_server.cpp:135-192 | bytes that do not close renew the timer; end of stream, an error and a close on the way shut the connection; nothing else happens |
| `Lifecycle.AcceptKeeps` | hound/src/http/http_server.cpp:105-133 | a new connection replaces none |
| `Lifecycle.AcceptAdds` | hound/src/http/http_server.cpp:105-133 | one open connection more, with a key never used before and a timer of its own, and all others as they were |
| `Lifecycle.EraseHitsItsOwn` | hound/src/http/http_server.cpp:211-214 | a deferred erase finds the closed connection it was queued for, never a newer one on the same descriptor |
| `Lifecycle.EraseKeeps` | hound/src/http/http_server.cpp:211-214 | erasing keeps the invariant |
| `Lifecycle.EraseRemoves` | hound/src/http/http_server.cpp:211-214 | the connection goes, its descriptor is free again, and all others are as they were |
| `Lifecycle.TimeoutIsClose` | hound/src/http/http_server.cpp:99-102 | a timer that fires belongs to an open connection and closes it |
| `Lifecycle.EventKeeps` | hound/src/reactor/event_loop.cpp:208-213 | a dispatched channel belongs to a connection not yet destroyed |
| `Lifecycle.EventDoes` | hound/src/reactor/event_loop.cpp:208-213 | an event renews or shuts the connection at the head of the dispatch list, as its failure and its read say, and no other |
| `Lifecycle.ClosedExactlyWhen` | hound/src/http/http_server.cpp:97-215 | an open connection is closed exactly by an event of its own that failed, ended or closed, and by the timer it has now |
| `Lifecycle.FullTurn` | hound/src/reactor/event_loop.cpp:200-220 | from every poll the loop can finish its turn, and with nothing else happening the closed connections are destroyed and the open ones are as they were |
| `Lifecycle.LifecycleTheorem` | hound/src/http/http_server.cpp:97-215 | every run keeps the invariant |
| `Lifecycle.EveryRun` | hound/src/http/http_server.cpp:97-215 | in every run from the start: one erase for each closed connection and none for an open one, timers and open connections one to one, erases hit their own, no destroyed channel is dispatched |
| `Serving.HttpServer.constructor` | hound/src/http/http_server.cpp:24-29 | no connections, the machine's start |
| `Serving.HttpServer.OnClose` | hound/src/http/http_server.cpp:194-215 | an open connection is closed, loses its timer and has its erase queued, and no other object changes; a second close does nothing |
| `Serving.HttpServer.RefreshTimeout` | hound/src/http/http_server.cpp:97-103 | the timer the object had is cancelled, and it has one that was not live before and holds this very object; no other object changes |
| `Serving.HttpServer.OnAccept` | hound/src/http/http_server.cpp:105-133 | a fresh object, with a parser, a buffer and a timer of its own, under a descriptor the table did not hold; all others stay |
| `Serving.HttpServer.OnMessage` | hound/src/http/http_server.cpp:135-192 | closed or unknown connections are left alone; end of stream closes; bytes go through the connection's own parser and buffer, and either replace its timer or close it, exactly as the loop over their requests says |
| `Serving.HttpServer.Read` | hound/src/http/http_server.cpp:142-191 | the parsers and buffers of all other connections are untouched |
| `Serving.HttpServer.HandleEvent` | hound/src/reactor/event_loop.cpp:208-213 | the dispatched object is in the table, close comes before read, after a close nothing is read, and its timer is replaced or it is shut down as the event says |
| `Serving.HttpServer.OnTimeout` | hound/src/http/http_server.cpp:99-102 | the object the timer captured is in the table and open, and is shut down |
| `Serving.HttpServer.RunTask` | hound/src/http/http_server.cpp:211-214 | one erase takes one closed connection and nothing else |
| `Serving.HttpServer.RunTasks` | hound/src/reactor/event_loop.cpp:255-269 | after the queue has run exactly the closed connections are gone and every open one is the object it was |
| `Routing.Split` | hound/src/http/router.cpp:26-34 | the non-empty pieces between slashes |
| `Routing.SegmentsOfJoin` | hound/src/http/router.cpp:26-34 | splitting inverts joining |
| `Routing.SegmentsAround` | hound/src/http/router.cpp:26-34 | a slash anywhere separates, and several in a row separate once |
| `Routing.MatchesExactlyWhen` | hound/src/http/router.cpp:51-55 | a pattern matches segment by segment, a piece with a colon any one segment; or up to a last piece with a star, which takes any rest but an empty one |
| `Routing.WalkMatches` | hound/src/http/router.cpp:85-133 | the walk ends only at patterns that match what was walked |
| `Routing.OwnPath` | hound/src/http/router.cpp:93-97 | a path that is in the trie is walked to its own node |
| `Routing.DeterminedExactlyWhen` | hound/src/http/router.cpp:93-118 | the order of children never matters exactly when no node has two parameter children, or two wildcard children and no parameter child |
| `Routing.RouteSound` | hound/src/http/router.cpp:69-149 | a handler that comes out is the one registered for a pattern that matches |
| `Routing.RouteComplete` | hound/src/http/router.cpp:69-149 | a registered pattern is found on its own path whatever else is registered |
| `Routing.RefusedOnOwnPath` | hound/src/http/router.cpp:136-142 | on its own path a pattern is refused with 405 exactly for the verbs it does not have |
| `Routing.RouteRefuses` | hound/src/http/router.cpp:69-149 | 405 only where a pattern matches that has other verbs and not this one, 404 whenever none matches, and no answer exactly when nothing was registered |
| `Routing.WalkInWalks` | hound/src/http/router.cpp:85-133 | the walk taken is one of those the set of patterns allows |
| `Routing.FoundExactlyWhen` | hound/src/http/router.cpp:85-133 | in every trie a pattern is the one found if and only if each of its steps is the literal, the first parameter or the first wildcard taken there |
| `Routing.NoWayBack` | hound/src/http/router.cpp:93-97 | a path that is lost although a registered pattern matches it |
| `Routing.RouteUnique` | hound/src/http/router.cpp:69-149 | with the same registrations and no ambiguous node there is one answer |
| `Routing.TableHolds` | hound/src/http/router.cpp:63-64 | the table of a list of registrations holds exactly those |
| `Routing.OrderIndependent` | hound/src/http/router.cpp:20-67 | registrations of distinct method and pattern may come in any order |
| `Trie.Router.FindExact` | hound/src/http/router.cpp:40-46 | the child for a segment exactly when the trie has one |
| `Trie.Router.AddChild` | hound/src/http/router.cpp:48-58 | one node more, behind its siblings, which are still distinct |
| `Trie.Router.Add` | hound/src/http/router.cpp:20-67 | the trie equals the old table with this one entry set, and missing nodes go behind their siblings |
| `Trie.Scan` | hound/src/http/router.cpp:88-107 | the exact child, and the first parameter and wildcard among the children |
| `Trie.Router.StepDown` | hound/src/http/router.cpp:93-133 | one step of the walk |
| `Trie.Router.Ask` | hound/src/http/router.cpp:135-148 | handler, 405 or 404 as the table says |
| `Trie.Router.Route` | hound/src/http/router.cpp:69-149 | the answer at the end of the walk of the path, of several parameters or wildcards the one added first |
| `Polling.SelectPoller.UpdateChannel` | hound/src/reactor/select_poller.cpp:15-23 | map and list gain the channel together, or neither changes |
| `Polling.SelectPoller.RemoveChannel` | hound/src/reactor/select_poller.cpp:25-35 | map and list still agree exactly when the descriptor was unknown or this channel's |
| `Polling.RemoveCuts` | hound/src/reactor/select_poller.cpp:30-31 | the channel is cut out of the list and all others keep their order |
| `Polling.SelectPoller.RebuildFds` | hound/src/reactor/select_poller.cpp:41-67 | the three sets asked for, and one more than the largest descriptor |
| `Polling.BitsCoverFds` | hound/src/reactor/select_poller.cpp:96-121 | there are at least as many bits as ready descriptors |
| `Polling.EarlyBreakIsSafe` | hound/src/reactor/select_poller.cpp:115-120 | stopping when the bits are used up skips no ready channel |
| `Polling.SelectPoller.Poll` | hound/src/reactor/select_poller.cpp:69-124 | exactly the ready channels in list order, each with its own events; the others keep theirs |
| `Polling.EveryReportDelivered` | hound/src/reactor/select_poller.cpp:96-121 | every descriptor reported has one active channel |
| `Scheduling.ResumesOnlyWaiting` | hound/src/coro/coroutine.cpp:46-67 | resume is only applied to READY or SUSPENDED coroutines |
| `Scheduling.WaitReadKeepsExactlyWhen` | hound/src/coro/scheduler.cpp:39-62 | waiting to read keeps everyone exactly when nobody waits there already |
| `Scheduling.WaitWriteKeepsExactlyWhen` | hound/src/coro/scheduler.cpp:64-78 | the same for writing |
| `Scheduling.BareYieldLoses` | hound/src/coro/coroutine.cpp:69-84 | a bare yield always loses the coroutine |
| `Scheduling.KeepsExactlyWhenDisciplined` | hound/src/coro/scheduler.cpp:29-134 | an action keeps every unfinished coroutine in exactly one place if and only if it follows the discipline |
| `Scheduling.ConservedOverRuns` | hound/src/coro/scheduler.cpp:29-134 | conservation over every disciplined run |
| `Scheduling.FirstInFirstOut` | hound/src/coro/scheduler.cpp:35-37 | over every disciplined run turns are given strictly in the order of joining the queue: those resumed and those still queued are those queued at first and those who joined |
| `Scheduling.WokenMoves` | hound/src/coro/scheduler.cpp:80-101 | a ready descriptor moves its reader, or without one its writer, to the queue, and nobody else |
| `Scheduling.TickAnswer` | hound/src/coro/scheduler.cpp:130-133 | with the queue drained the maps are empty exactly when everyone has finished |
| `Coroutines.Scheduler.CreateCoroutine` | hound/src/coro/scheduler.cpp:29-37 | a fresh object at the end of the queue |
| `Coroutines.Scheduler.WaitForRead` | hound/src/coro/scheduler.cpp:39-62 | the running coroutine is registered; outside one nothing happens |
| `Coroutines.Scheduler.WaitForWrite` | hound/src/coro/scheduler.cpp:64-78 | the same for writing |
| `Coroutines.Scheduler.SwitchBack` | hound/src/coro/coroutine.cpp:69-84 | yield leaves SUSPENDED, return leaves DONE, and nobody runs |
| `Coroutines.Scheduler.OnFdReady` | hound/src/coro/scheduler.cpp:80-101 | one waiter moves to the queue, a reader before a writer |
| `Coroutines.Scheduler.RunTurn` | hound/src/coro/scheduler.cpp:119-122 | the running coroutine creates as many as its turn says and ends as it says |
| `Coroutines.Scheduler.ResumeNext` | hound/src/coro/scheduler.cpp:108-130 | the front of the queue plays the turn; one that has finished is dropped |
| `Coroutines.Scheduler.Tick` | hound/src/coro/scheduler.cpp:103-134 | the loop ends with the queue drained or the given turns used up, and has done exactly what the turns dictate, each played by the front of the queue unless that has finished; after a disciplined run that drained the queue the answer is whether someone is unfinished, and no for a queue empty at entry |

## Left out

- Sockets, addresses, `select` itself, clocks and contexts: what they deliver is a parameter or an arbitrary choice.
- Bytes: a byte is a Dafny `char`; no result depends on how many there are.
- Strtoul: `unsigned long` is taken to have 64 bits.
- HttpParsing.HttpParser.ReadChunk: after the exception for a size that wraps around, what parser and buffer hold is not modelled; nothing catches it.
- TimerWheel.Wheel.AdvanceSlots: callbacks leave the wheel alone; times are whole milliseconds instead of floating-point seconds. The cap of one turn per tick is behind the branch that is never taken.
- EventLoop: is a machine over values, so that all threads can be interleaved; `run_in_loop` is a direct call or a push. A `quit` made before `loop()` is reset by the code and not covered.
- Lifecycle: `HttpServer::stop` and the listening channel are not part of this model. That the kernel hands out only descriptors not in use is part of the accept action.
- Connection.ServeLoop: `handle_request` is the handing over of the request and whether its response can be written; handlers and static files are not part of this model.
- Trie.Router.Route: captured parameters, which the code collects and drops, and the response texts of 404 and 405 are not part of this model.
- Coroutines.Scheduler.Tick: what a coroutine does in a turn is an input, and the loop ends when those run out; `co_sleep`, which parks a coroutine in a timer, and the channels made by the wait calls are not part of this model.
- `take_request` and `finalize`, which the server never calls: keep-alive keeps its default (hound/src/http/http_request.h:85), and in `handle_request` only a failed write closes; query and form maps of requests; `capacity`, `block_count`, `peek_byte` and the destructors.
- Logger, thread pool, `Result`, `Timestamp` arithmetic and the example servers, which would add only easy members.
