# remote-backup-m1-client: a Dafny model

The repository is a backup client. A watcher compares a directory with the client's own record of it and posts
CREATE, UPDATE and ERASE jobs to a thread pool; each job marks its entry as pending and queues a request on a
strand; the strand exchanges messages with the server and calls back a handler that settles the entry. Messages
are TLV byte strings, files travel in 4096-byte chunks built in one buffer, and responses may come in several frames.
The project models both halves and proves what they achieve, for every input and every interleaving. One
condition on runs appears: a step is *guarded* unless it is a look of the watcher that posts for a path with a job still in
the pool. The code does not ensure it. The invariant of a path holds along a run exactly as far as the looks at that path
are guarded, and safety (`NoMissingEntry`, `RecordsAreTrue`, and `PostedAgain` below) is for such paths, whatever happens to
others. The other results over runs need no guard, and convergence is from any quiet state, with true records or false ones.

| file | what it models |
|---|---|
| `Wrappers.dfy`, `Bytes.dfy` | optional and three-valued values; TLV lengths and frame headers as machine integers |
| `Message.dfy`, `TlvView.dfy` | the message writer, the TLV iterator, the END comparison |
| `FMessage.dfy` | the in-place file chunker |
| `Tools.dfy` | signs (path, NUL, digest) |
| `Connection.dfy` | framing, reassembly over several frames, the two asynchronous posts and their callbacks |
| `Directory.dfy` | the record of the directory and its iteration order |
| `Scheduler.dfy`, `FileWatcher.dfy` | job bodies, reply handlers, `sync`, and the two passes of a watcher tick, as classes |
| `SyncPlan.dfy` | what `sync` plans, from the bytes on the wire to the server's final files |
| `Protocol.dfy` | the whole client as a transition system, and its invariant |
| `Runs.dfy`, `Convergence.dfy` | safety over runs, paths left alone for good, convergence of ticks and of `sync` |
| `Vectors.dfy` | requests, replies and frames spelled out byte by byte |
| `Wiring.dfy` | the classes as they carry out the steps of the transition system; its answers against the callbacks of the posts |

The classes are imperative where the C++ is: their methods are proved against functions on values (`Parse`, `Receive`,
`CutFile`, `Settled`, `VisitAll`, `TickOps`), and `Wiring.dfy` proves that the methods, called on objects that match a
state of the transition system, leave objects that match the state after its step.

The server is abstract. An accepted CREATE or UPDATE stores the digest of its sign, an accepted ERASE removes the path, a
rejected request changes nothing, and a failed exchange may or may not have been carried out (`Lost(applied)`).

## Where the code does something else than its comments say

- *Chunking.* The condition at communication/f_message.cpp:61 lets a full chunk be read when up to four bytes less are left.
  Exactly the files whose length leaves a remainder among the last four below the capacity raise "Unexpected EOF" (`CutLength`).
- *Lengths.* The top length byte is shifted as a signed `int`, so a length from 2^31 up comes back with its sign extended
  (`LengthRoundTrip`, `LengthSurvives`).
- *END.* `verify_end` looks at five bytes, so a value that ends in 03 00 00 00 00 passes for an END (`VerifyEndMeaning`,
  `VerifyEndFooled`); messages whose last value does not end in a zero byte are safe (`VerifyEndExact`).
- *Missing callback.* "Executed on completion" (core/connection.cpp:148-149) is not what the plain-message post does: it calls
  back on failure only. A replied ERASE leaves its entry indeterminate, for good if and only if nothing else is outstanding
  for its path (`ErasedForever`), which is then out of the client's reach (`ErasedIsStuck`, `StuckForever`). Two ERASEs for
  one path, which guarded looks never post, are the other case: the loss of the second settles the entry (`SecondErase`).
  So a tick does not always bring the server to the files: it does so on exactly the paths it posts for or that agreed
  before (`Converges`, `ConvergesToFiles`).
- *Stale reply.* When a later write of an upload fails, `result.second` still holds the reply to the chunk before, and the
  callback gets it (core/connection.cpp:193-197). A handler can therefore settle a failed upload as done; this can happen
  exactly to uploads of two chunks or more (`UploadResultMeaning`, `StaleReplyIff`). The transition system has it as the
  answer `Stale`, and keeps the paths concerned apart as `doubtful` (`DoubtfulIff`). A CREATE settled so counts as stored
  on a server that lacks the file, and the watcher leaves it at that until the file changes (`MisledForever`).
- *Files that cannot be cut.* An upload can be accepted iff its file can be cut (`AcceptableIff`). A file that cannot never
  reaches the server (`NeverStored`), and is posted again whenever nothing is outstanding for its path (`PostedAgain`).
- *Overlapping ticks.* The watcher does not wait for its own jobs. A look breaks the invariant exactly when it posts for a
  path that still has a job in the pool; looks that find nothing to do or forget an entry are harmless (`WatchInv`,
  `StepInvAt`, `RunInvAt`). Unguarded runs can end with a false record (`GuardNeeded`), and with a handler that finds no
  entry and leaves the process (`EntryMissing`). A handler that runs finds no entry exactly when the watcher has forgotten
  the path since the last of its jobs ran (`ExitIff`).

## Model

| member | source | states |
|---|---|---|
| Bytes.LengthRoundTrip | communication/tlv_view.cpp:30-33 | decoding an encoded length gives it back modulo 2^32, with the sign of bit 31 extended to 64 bits |
| Bytes.LengthSurvives | communication/message.cpp:37-39 | the lengths that survive writer and parser are exactly those below 2^31 and the top 2^31 of the 64-bit range |
| Bytes.HeaderRoundTrip | core/connection.cpp:224-226 | the native 8-byte frame header gives back every 64-bit size |
| Bytes.LittleEndianAt | core/connection.cpp:224-226 | its byte i is the size over 256^i, modulo 256 |
| Messages.Message.constructor | communication/message.cpp:14-16 | a new message is its type byte |
| Messages.Message.FromBuffer | communication/message.cpp:24 | a message over received bytes holds just them |
| Messages.Message.AddTlv | communication/message.cpp:34-43 | appends type, big-endian length and value, and nothing else |
| Messages.Message.Resize | communication/message.cpp:87-89 | cuts the tail off or pads with zeros |
| Messages.ParseEncoded | communication/tlv_view.cpp:21-37 | parsing the encoding of any list of segments gives the list back |
| Messages.EncodeParsed | communication/tlv_view.cpp:21-37 | whatever parses is the encoding of what it parses to |
| TlvViews.TlvView.constructor | communication/tlv_view.cpp:11-13 | a new view stands before the first segment, neither valid nor finished |
| TlvViews.TlvView.NextTlv | communication/tlv_view.cpp:21-37 | shows the next remaining segment with its bytes in place and consumes at least 5 bytes, or finishes for good; finished excludes valid |
| TlvViews.TlvView.ReadLength | communication/tlv_view.cpp:30-33 | the four additions compute the sign-extended length |
| TlvViews.TlvView.VerifyEnd | communication/tlv_view.cpp:44-51 | true iff the last five bytes are 03 00 00 00 00, on every buffer on which the comparison stays inside |
| TlvViews.Collect | communication/message.cpp:95-106 | iterating until `next_tlv` fails yields all segments in order |
| TlvViews.VerifyEndMeaning | communication/tlv_view.cpp:44-51 | on an encoded message: true iff the last segment is an empty END, or its value has 5 bytes or more and ends in 03 00 00 00 00 |
| TlvViews.VerifyEndExact | communication/tlv_view.cpp:39-51 | exact when the last value does not end in a zero byte |
| TlvViews.VerifyEndFooled | communication/tlv_view.cpp:39-51 | some message without END passes |
| Tools.SplitSign | utilities/tools.cpp:31-38 | fails iff there is no NUL; otherwise cuts the sign at a NUL with none after it |
| Tools.SplitIsGreedy | utilities/tools.cpp:34-59 | no other cut at a NUL has a longer first group |
| Tools.SignRoundTrip | utilities/tools.cpp:15-38 | splitting undoes joining iff the digest has no NUL |
| Tools.SignInjective | utilities/tools.cpp:15-22 | a sign determines path and NUL-free digest |
| FMessages.FMessage.constructor | communication/f_message.cpp:17-33 | header and CONTENT type are in place in a buffer of 4096 bytes, for every sign with which they fit; the buffer begins with the type byte given; up to 4080 bytes the object is ready to cut the file, all of it unread |
| FMessages.SignFitsIff | communication/f_message.cpp:61-80 | the signs of at most 4080 bytes are those with which the message of an empty file fits 4096 bytes |
| FMessages.FMessage.NextChunk | communication/f_message.cpp:58-82 | full chunk, last chunk with END, exhausted, or Unexpected EOF, by what is left to read; the buffer is exactly the chunk's message, begins with the upload's type byte, and the header survives |
| FMessages.FMessage.FillChunk | communication/f_message.cpp:67-73 | the in-place writes replace length and content only |
| FMessages.FMessage.WriteLength | communication/f_message.cpp:67-69 | the four length bytes are overwritten in place |
| FMessages.FMessage.ReadInto | communication/f_message.cpp:70-73 | a short read fails the stream and leaves the buffer before it alone |
| FMessages.CutLength | communication/f_message.cpp:61-75 | chunking goes through iff length mod capacity is at most capacity - 5, in length div capacity + 1 messages |
| FMessages.CutConserves | communication/f_message.cpp:58-82 | the chunks of a completed file are, in order, the file; all but the last are full |
| FMessages.ChunkMessageParses | communication/f_message.cpp:22-82 | a chunk's message has the upload's type byte and parses to ITEM, CONTENT and, for the last only, END; full chunks fill 4096 bytes exactly |
| Connections.Connection.Write | core/connection.cpp:222-251 | success sends header and buffer; a failure sends the prefix that the socket took, and only a broken connection is indeterminate |
| Connections.Connection.Read | core/connection.cpp:261-307 | the loop returns what `Receive` says and consumes exactly its bytes; end of file is indeterminate |
| Connections.Connection.SyncPost | core/connection.cpp:137-144 | nothing is read unless the write succeeded |
| Connections.ReceiveWhole | core/connection.cpp:261-291 | frames cut at segment boundaries are joined to one message with all segments, and nothing beyond is consumed |
| Connections.StreamAligned | core/connection.cpp:261-291 | k reads on k framed responses return them in order and leave what follows |
| Connections.ReadUndoesWrite | core/connection.cpp:222-291 | a written message ending in END is read back whole |
| Connections.TryExchange | core/connection.cpp:191-202 | failure and kept response of one write and read, and a reconnection for a connection lost in either |
| Connections.AsyncPost | core/connection.cpp:155-172 | the callback runs once with nothing if the exchange fails, and never if it succeeds; one reconnection iff the write, or the read after a good write, lost the connection |
| Connections.AsyncPostFile | core/connection.cpp:184-210 | one callback; the messages written are those of the chunks up to the first failure; one reconnection iff that failure was a connection lost in the write, or in the read after a good write |
| Connections.UploadResultMeaning | core/connection.cpp:191-208 | the callback gets a response iff every chunk was exchanged, or a later write was the first failure; it is the reply to the last chunk, or to the chunk before the failure |
| Connections.StaleReplyIff | core/connection.cpp:193-197 | a failed upload can hand over a response iff it has two chunks or more |
| Connections.UploadMessages | core/connection.cpp:192-203 | the messages of an upload that goes through have the upload's type byte and parse to chunks whose concatenation is the file |
| Connections.TruncatedIsLost | core/connection.cpp:261-307 | a response that breaks off at any byte is a lost connection, never a message |
| Directories.Dir.InsertOrAssign | directory/dir.cpp:35-39 | sets one entry and tells whether it is new |
| Directories.Dir.Erase | directory/dir.cpp:47-51 | removes one entry, from the iteration order too |
| Directories.AfterAt | directory/dir.cpp:95-100 | the incremented iterator is at the next entry of the order |
| Directories.WithoutOne | directory/dir.cpp:95-100 | erasing the current entry leaves the entries before and after it as they were |
| Schedulers.ConfirmsEncoding | core/scheduler.cpp:101-106 | a reply confirms iff it has the type, an ITEM with the sign first, and an OK second |
| Schedulers.ConfirmsOne | core/scheduler.cpp:101-106 | no reply confirms two different operations |
| Schedulers.Scheduler.PostCreate | core/scheduler.cpp:318-319 | posts the one job |
| Schedulers.Scheduler.PostUpdate | core/scheduler.cpp:361-362 | posts the one job |
| Schedulers.Scheduler.PostErase | core/scheduler.cpp:404-405 | posts the one job |
| Schedulers.Scheduler.RunTask | core/scheduler.cpp:318-434 | marks the entry indeterminate, with the server flag of its kind and the job's digest, then queues the request |
| Schedulers.Scheduler.EraseRequest | core/scheduler.cpp:416-419 | an ERASE's request is its type, an ITEM with path, NUL and digest, and END |
| Schedulers.CheckReply | core/scheduler.cpp:99-106 | the chained condition is `Confirms` |
| Schedulers.Scheduler.HandleCreate | core/scheduler.cpp:86-111 | settles the entry by the reply, field by field, keeping its digest, or leaves the process iff the entry is missing |
| Schedulers.Scheduler.HandleUpdate | core/scheduler.cpp:121-143 | the same for UPDATE, which keeps the server flag |
| Schedulers.Scheduler.HandleErase | core/scheduler.cpp:153-177 | the same for ERASE, which clears the server flag when confirmed |
| Schedulers.Scheduler.VisitItem | core/scheduler.cpp:282-298 | one listed item posts an ERASE of the listed version, an UPDATE to the client's, or marks its entry synced |
| Schedulers.Scheduler.VisitSegment | core/scheduler.cpp:280-300 | other segments are skipped, and an ITEM without NUL raises before changing anything |
| Schedulers.Scheduler.CreateUnlisted | core/scheduler.cpp:303-307 | posts a CREATE for exactly the unlisted entries, whatever the iteration order |
| Schedulers.Scheduler.ApplyListing | core/scheduler.cpp:277-308 | both loops: the listing rebuilt, entries and posted jobs as `VisitAll` and `PostCreates` give, or the exception at the first unreadable item |
| Schedulers.Scheduler.Sync | core/scheduler.cpp:256-308 | reconnects, exits, raises or completes, by fault and response; an answer of another type, without segments or with an ERROR first exits and posts nothing; the request sent is SYNC with END |
| Schedulers.ListingEncoding | core/scheduler.cpp:270-275 | an answer is taken for a listing iff it has type SYNC and a first segment that is not ERROR |
| SyncPlan.VisitAllClosed | core/scheduler.cpp:279-300 | the first loop in closed form, the same for every order of the listing |
| SyncPlan.SyncPosts | core/scheduler.cpp:277-308 | both loops post each path the operation it is owed, once |
| SyncPlan.ServerCanList | core/scheduler.cpp:277-300 | any files of a server have a listing without repeated paths |
| SyncPlan.PlanExact | core/scheduler.cpp:277-308 | the posted jobs exactly: an ERASE names the listed version of a path the client lacks, CREATE and UPDATE the client's own |
| SyncPlan.SyncThrows | core/scheduler.cpp:280-300 | the first ITEM without NUL raises, after exactly the items before it were dealt with |
| SyncPlan.OneOpPerPath | core/scheduler.cpp:277-308 | no path gets two operations |
| SyncPlan.SyncPlanCorrect | core/scheduler.cpp:277-308 | applied in any permutation, the plan turns the listed files into the client's path-to-digest map |
| SyncPlan.ListingEndToEnd | core/scheduler.cpp:268-300 | a listing cut into any frames is read whole, accepted, and split back into exactly its items |
| SyncPlan.SyncFromWire | core/scheduler.cpp:256-308 | on such a response `sync` completes, with that listing and the full plan posted |
| FileWatchers.FileWatcher.constructor | core/file_watcher.cpp:17-33 | every file found gets an indeterminate entry, not on the server |
| FileWatchers.FileWatcher.CheckEntry | core/file_watcher.cpp:50-62 | a missing file's entry is erased, posted for erasure with its own digest, or left, by its state |
| FileWatchers.FileWatcher.EraseMissing | core/file_watcher.cpp:50-62 | the erase-while-iterating pass acts on each starting entry once: it forgets and posts exactly what the decision table says |
| FileWatchers.FileWatcher.CheckFile | core/file_watcher.cpp:70-85 | one present file, by its entry and digest |
| FileWatchers.FileWatcher.ScheduleChanged | core/file_watcher.cpp:64-87 | the second pass posts exactly what the decision table says for the files found |
| FileWatchers.FileWatcher.Tick | core/file_watcher.cpp:47-88 | both passes on one file system are the pointwise decision table, in any iteration order |
| FileWatchers.TickExact | core/file_watcher.cpp:50-87 | the posted jobs exactly: an ERASE carries the entry's digest, CREATE and UPDATE the file's |
| FileWatchers.ForgottenExact | core/file_watcher.cpp:56-61 | exactly the settled entries without file that the server lacks are forgotten |
| FileWatchers.TickSplits | core/file_watcher.cpp:50-87 | what the first pass forgets does not affect the second |
| Protocol.InitInv | core/file_watcher.cpp:41-45 | the invariant of every path holds when `sync` begins |
| Protocol.VisitInv | core/scheduler.cpp:280-300 | the invariant of any path is kept by each item of the listing |
| Protocol.FinishInv | core/scheduler.cpp:303-307 | kept by the second loop |
| Protocol.WatchInv | core/file_watcher.cpp:50-87 | kept by a look at the path iff it does not post with a job for the path still in the pool |
| Protocol.OtherWatchInv | core/file_watcher.cpp:50-87 | kept by any look at another path, guarded or not |
| Protocol.WatchedIsFree | core/file_watcher.cpp:50-87 | a path the watcher posts for, guarded, has nothing outstanding and is not stuck |
| Protocol.ForgetInv | core/file_watcher.cpp:56-61 | kept when an entry is forgotten, even with a job for it in the pool |
| Protocol.RunTaskInv | core/scheduler.cpp:318-434 | kept by any posted job starting at any time |
| Protocol.ExchangeInv | core/scheduler.cpp:86-177 | kept by every answer to the request at the head of the strand |
| Protocol.StepInvAt | core/file_watcher.cpp:41-89 | the invariant of a path is kept by every step but an unguarded look at that path, which breaks it |
| Protocol.StepInv | core/file_watcher.cpp:41-89 | the invariant of all paths is kept by a step iff it is guarded |
| Runs.RunInvAt | core/file_watcher.cpp:41-89 | the invariant of a path holds up to a state of a run iff the looks at the path before it are guarded |
| Runs.RunInv | core/file_watcher.cpp:41-89 | that of all paths holds up to a state iff every step before it is guarded |
| Runs.NoMissingEntry | core/scheduler.cpp:91-92 | the request being answered finds its own pending entry, so its handler does not exit, if the looks at its path so far were guarded |
| Runs.MissingIff | core/scheduler.cpp:91-92 | in any run a queued request has no entry iff the watcher forgot its path and no job of the path ran since |
| Runs.ExitIff | core/scheduler.cpp:91-92 | in any run an exchange ends the process iff its callback runs and the watcher forgot its path after the last job of the path |
| Runs.EntryMissing | core/scheduler.cpp:91-92 | without the guard, a run with every exchange replied to comes to a handler without entry, which exits |
| Runs.DoubtfulIff | core/connection.cpp:193-197 | a path is doubtful iff its last exchange that misled the client was not followed by an accepted one |
| Runs.RecordsAreTrue | core/scheduler.cpp:86-177 | for every path that is not doubtful and whose looks so far were guarded: synced means stored with that digest, not synced means the server flag is right, pending means outstanding or stuck, no entry and nothing outstanding means not stored, at most one operation per path, CREATE outstanding iff absent on the server |
| Runs.StuckIff | core/connection.cpp:166-171 | a path is stuck iff one of its ERASEs was replied to |
| Runs.LastCarriedOut | core/scheduler.cpp:318-434 | the server's copy of a path is what the last request carried out for it says |
| Runs.DigestStep | core/scheduler.cpp:86-177 | a job gives its entry the digest it carries; no other step, and so no reply, changes the digest of an entry |
| Runs.DigestKept | core/scheduler.cpp:86-177 | in any run, an entry keeps its digest as long as it is there and no job of its path runs |
| Runs.RestsForever | core/file_watcher.cpp:50-86 | in any run, an entry with nothing outstanding that the watcher finds as it should be stays so, and so does the server's copy |
| Runs.StuckForever | core/file_watcher.cpp:50-86 | in any run, guarded or not, a stuck path keeps its entry, gets no operation and is frozen on the server, whatever its file does |
| Runs.ErasedIsStuck | core/connection.cpp:166-171 | with nothing else outstanding for its path, any reply to an ERASE leaves the path stuck in any run from then on, with the entry pending and the server's copy as the reply left it; a failed exchange settles it |
| Runs.PendingForeverIff | core/file_watcher.cpp:50-86 | a pending entry stays pending in every run iff nothing is outstanding for its path |
| Runs.ErasedForever | core/connection.cpp:166-171 | the entry of a replied ERASE stays pending in every run iff no other operation of its path is outstanding |
| Runs.SecondErase | core/connection.cpp:166-171 | without the guard, a run in which an ERASE is replied to and the loss of a second one settles the entry |
| Runs.MisledForever | core/connection.cpp:193-208 | with nothing else outstanding for its path, in any run, after a stale reply the entry counts as stored while the server keeps what it had (nothing, for a CREATE), and nothing is posted as long as the file stays as it is |
| Runs.SyncPlanFixed | core/scheduler.cpp:279-307 | however jobs and handlers interleave with `sync`, it posts exactly the plan of the state it began with |
| Runs.SyncErasesStored | core/scheduler.cpp:291-292 | until the watcher looks at a path, an outstanding ERASE of it names the version the server has |
| Runs.GuardNeeded | core/file_watcher.cpp:47-87 | without the guard, a run with every exchange replied to ends with a false record |
| Convergence.WatchAllIsTick | core/file_watcher.cpp:50-87 | looking at paths one by one, in any order, equals the tick |
| Convergence.TickInvAt | core/file_watcher.cpp:50-87 | the tick keeps the invariant of a path iff the look at it is guarded where the tick begins |
| Convergence.DrainDecreases | core/scheduler.cpp:318-434 | each job or OK answer lowers twice the posted plus the queued by one |
| Convergence.DrainProgress | core/scheduler.cpp:318-434 | unless quiet, one of these steps is possible |
| Convergence.Converges | core/file_watcher.cpp:47-88 | from any quiet state, after one tick every schedule of such steps ends after that many, the server agrees with the files on every path the tick posts for and is as it was on all others, and another tick changes nothing |
| Convergence.AgreesAlready | core/file_watcher.cpp:50-87 | a path with a sound record and nothing outstanding that is neither stuck nor doubtful is posted for or agrees already |
| Convergence.ConvergesToFiles | core/file_watcher.cpp:47-88 | the server ends up with exactly the file system iff the tick posts for every path that disagreed; always, with sound records and nothing stuck or doubtful |
| Convergence.SyncConverges | core/scheduler.cpp:256-308 | every interleaving of `sync` with pool and strand, all answered OK, leaves the server with exactly the files the client began with |
| Wiring.Begin | core/file_watcher.cpp:17-33 | the constructors leave the objects at the start of the transition system, with the files found as entries |
| Wiring.Start | core/scheduler.cpp:318-434 | running a job on matching objects takes the job step |
| Wiring.Serve | core/scheduler.cpp:86-177 | serving the head request and running the handler of its kind for each callback takes the exchange step, and exits iff a callback finds no entry |
| Wiring.Visit | core/scheduler.cpp:280-298 | one item of the listing takes the visit step |
| Wiring.Finish | core/scheduler.cpp:303-307 | the second loop takes the finish step |
| Wiring.ListingIsRun | core/scheduler.cpp:277-308 | both loops together end where the run of visit steps and the finish step ends |
| Wiring.Look | core/file_watcher.cpp:50-87 | one callback of either pass takes the watch step |
| Wiring.TickAll | core/file_watcher.cpp:47-88 | a whole tick takes the tick of the transition system |
| Wiring.EraseAnswered | core/connection.cpp:155-172 | every outcome of the plain post of an ERASE is an answer; success is one the handler never hears of |
| Wiring.UploadAnswered | core/connection.cpp:184-210 | every outcome of an upload is an answer: accepted or rejected, by the last reply, iff all chunks of a file that ends were exchanged; otherwise stale, when a later write failed first, or lost |
| Wiring.AcceptableIff | communication/f_message.cpp:61-75 | an upload can be accepted iff the length of its file does not leave one of the last four remainders |
| Wiring.StaleIff | core/connection.cpp:193-197 | an upload can come to a stale reply iff it takes two chunks or more |
| Wiring.NeverStored | communication/f_message.cpp:61-75 | in no run does the server get a file that cannot be cut |
| Wiring.PostedAgain | core/file_watcher.cpp:64-87 | such a file is posted again whenever nothing is outstanding for its path, unless the path is stuck or doubtful |
| Vectors.PositiveReply | communication/types.h:8-26 | the bytes of the reply that confirms a request, for each kind |
| Vectors.NegativeReply | communication/types.h:8-26 | an ERROR in the place of the OK confirms nothing |
| Vectors.EraseRequestBytes | core/scheduler.cpp:416-419 | the bytes of an ERASE request |
| Vectors.LastChunkBytes | communication/f_message.cpp:22-82 | the bytes of a last chunk |
| Vectors.SyncRequestBytes | core/scheduler.cpp:257-258 | the bytes of the SYNC request in its frame |
| Vectors.SyncAnswers | core/scheduler.cpp:270-275 | the bytes of a refused `sync`, and of an empty listing |
| Vectors.ShortestResponse | core/connection.cpp:261-291 | a frame of the five END bytes is a whole response |

## Left out

- Protocol.StepInv: reconnection is not a step, because `reconnect` runs `sync` again while requests are still queued; a run ends there.
- Protocol.StepInv: job bodies, handlers and looks of the watcher are atomic steps; the mutex inside `dir` is not modelled.
- Protocol.StepInv: the server is its map of digests; which requests it rejects is left open, so every answer is allowed to every request.
- FMessages.FMessage.constructor: signs from 4090 bytes on, with which the CONTENT type is written behind the buffer.
- FMessages.FMessage.NextChunk: signs above 4080 bytes, for which an empty last chunk does not fit and the size arithmetic may wrap.
- FMessages.FMessage.NextChunk: the file does not change while it is read.
- Schedulers.Scheduler.Sync: the reconnect branch ends the method, where the source connects, authenticates and syncs again.
- TlvViews.TlvView.NextTlv: requires a buffer of whole segments shorter than 2^31; other buffers take the iterator outside them.
- Messages.Message.AddTlv: values below 2^31 bytes, the range of its loop counter.
- Connections.Connection.Read: responses fail by end of file only; other socket errors, and headers too large to allocate, which end in false, are `Failed` outcomes of `AsyncPost` and `AsyncPostFile`, and a continuation frame without type byte is excluded, as are fewer than five gathered bytes that are all zero.
- Connections.AsyncPostFile: what `write` and `read` return for each chunk is given, and callbacks return normally.
- Directories.Dir.InsertOrAssign: a new key comes last in the iteration order, while a hash map may reorder; nothing inserts during an iteration.
- `directory::resource` is modelled as a value with field updates, since every use in the source copies it into or out of the map.
- MD5, file names and the file system: digests are given values, paths are byte strings compared for equality, directories and links do not occur.
- Login, credentials, program options, keepalive timer, sockets, TLS, threads and printing.
