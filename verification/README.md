# A model of the storage and tracker servers

This project models the hard parts of a distributed file store written in C++ and proves what they are for. A
storage node receives a file as a multipart upload, appends it to a file, and replicates it to its peers over
plain connections; a tracker sends each user to a group of storage nodes. The model keeps the form of the
program: a class per class, with the fields it changes in place, each method proved against a function of the
old state, and protocols between threads as state machines with one step per section under the mutex. Bytes are
characters and byte strings are strings; addresses in the ring log are page numbers, the byte offset divided by 64.

Each file is one module.

- `ByteSearch`, `FileScan`, `StreamParser`: searching a byte string, one pass of the flush loop that both body
  parsers run, and the parser of a stream that is cut arbitrarily, for any line protocol.
- `Buffer`: the growing, compacting buffer as a byte queue.
- `UploadSpec`, `RequestLines`, `UploadTurns`, `UploadRequest`, `UploadForm`: the upload request as a line protocol,
  what each kind of line means in terms of its text, the turns of the receive loop with the check of the user, the
  request object that implements them over the buffer, and the form a browser prints.
- `SyncWire`, `SyncReceiver`, `CutSafety`, `SyncTransfer`, `LineTransfer`, `SyncBacklog`: the text of a replication
  message, what a receiver makes of it read by read, when it arrives, and several messages on one connection.
- `TaskNode`, `StorageNode`, `Replication`, `UploadSync`: receiver and sender as objects, the two put together, and
  which file the change of an upload names.
- `RwLock`, `BlockDeque`: the readers-writer lock and the bounded queue as state machines, and as classes.
- `HeapTimer`: the indexed heap of timers.
- `PageBytes`, `RingLog`, `WriteAhead`: the bytes of a log page, the page file of log records, and the order in
  which the logs are written.
- `ConsistentHash`, `FormBody`: the hash ring and the login form of the tracker.

## Where the code does less than it promises

Each of these is proved: as an exact condition where one decides it, and by a run or an input that gets there.

- The receiver of a replicated file searches for CRLF, so a read that ends between the CR and the LF of a trailer
  flushes the CR, and that trailer is lost, unless an earlier CRLF close by is still held back
  (`CutSafety.SafeTrailerFound`, `CutSafety.UnsafeTrailerLost`). The receiver takes the first trailer that is not lost
  for the end of the file (`SyncTransfer.Completes`). So the content arrives if and only if the trailer at its end is
  not lost and every trailer inside it is (`SyncTransfer.TransferIff`, `Replication.Replicate`). Both failures have
  their inputs: a cut inside the trailer (`SyncTransfer.SplitTrailerIsLost`), and content that holds the trailer, which
  is cut short in one read (`SyncTransfer.EarlyTrailerCutsShort`), though not in two that split it
  (`SyncTransfer.SplitEarlyTrailerIsHarmless`). If no trailer survives the cuts, the messages behind go into the
  file too (`SyncTransfer.NeverCompletes`).
- A message that is complete waits until another read comes: a read completes at most one
  (`SyncBacklog.OnePerRead`, `SyncBacklog.AtMostAsMany`).
- The upload parser searches for a lone CR and has no such gap: an uploaded file keeps its content if and only if the
  delimiter printed behind it does not occur earlier; a delimiter begins and ends with CRLF and may overlap the end of
  the content (`UploadForm.UploadRoundTrip`).
- A header line named `boundary` behind the content type replaces the boundary. The upload succeeds if and only if the
  last one is that of the content type; otherwise it is given up and nothing is stored (`UploadForm.UploadRoundTrip`,
  `UploadForm.OtherBoundary`).
- The change that is handed on names the file by the name in the URL, and a private one by the user. It is the file
  that was stored if and only if the name in the part is the same, and a private upload has a user: the file of an
  unknown user is stored below the private directory and looked for in the public one (`UploadSync.SameFileIff`).
- The cookie of an upload is checked, and cleared if it is unknown, on every turn of the receive loop. How the stream is
  cut does not matter if at most one read brings cookies, as with one cookie line (`UploadTurns.SplitIndependence`,
  `UploadTurns.OneCookieIsTogether`). Two cookie lines in one read are looked up together, in two reads one by one
  (`UploadForm.TwoCookieNames`), so the place of the file can depend on the cut (`UploadForm.TwoCookiesDiffer`).
- If a file to be replicated is missing when its turn comes, only the head of its message is sent. The peer's file
  is emptied and takes in what is sent next, until a trailer of that head comes, and the sender frees the log pages of
  the task all the same (`Replication.MissingFileEmpties`, `Replication.Replicate`).
- A change queued through the overload of `AddTask` for `synPack` is tagged as the announcement of a node and
  is never sent (`StorageNodes.MistaggedIsLost`); the peer's files stay as they are
  (`Replication.MistaggedChangesNothing`). The transfer theorems enter through the overload that takes
  the tag from its caller.
- Copying the names of a rollback record into its page runs over the links of the page. They survive, whatever they
  were, if and only if the file name has at most 12 bytes and the user name at most 23
  (`PageBytes.LinksSurviveIff`). A file name of 13 bytes breaks the lists of a new log
  (`RingLogs.ThirteenByteNameBreaks`). Names that fit are still not always read back: a file name of exactly 12
  bytes comes back if and only if a NUL follows it, which in a log page depends on the number of the next free page
  (`PageBytes.FileReadsBackIff`, `PageBytes.PageReadsBackIff`), and a user name of 12 bytes or more only if its end
  is the file name (`PageBytes.UserReadsBackIff`).
- `FreeLog` writes the header at offset 64, over page 1. Both lists survive if and only if page 1 is the page
  that is freed (`RingLogs.FreedAsWrittenIff`; `RingLogs.FreeingPageTwoBreaks` is the shortest run that breaks them).
  With that one offset put right, the lists stay sound over every run of records whose names fit, as long as a page
  stays free (`RingLogs.RunFromInit`): `GetFreebody_` sets the predecessor of a page to the page that will be
  allocated next, which is its predecessor from then on. The two counts in the header are never maintained; they
  stay zero, so the branch for a last page is never taken and the redo after a restart never starts. The model has a
  switch for them: every theorem holds with the counts as they are, and with the counts maintained, as the lengths of
  the lists.
- Allocating the last free page makes the header name page 0 as free (`RingLogs.AllocatedLinkedIff`); a log of any
  capacity that is filled without a release gets there (`RingLogs.FillingBreaks`).
- `GetFreebody_` gives up the mutex before the page is written. If the record that was the newest is freed in
  between, the late write puts a link back to a page that is free by then; of all single operations, only that
  one does damage (`RingLogs.LateWriteIff`).
- The receive loop writes a rollback record with every chunk (`UploadTurns.OneOrderPerChunk`), and the last one is
  freed. All others stay in the ring for good (`WriteAhead.AllButOneStay`).
- `update` of a timer moves it only towards the leaves and inserts unknown ids at place 0. It keeps the timer
  sound if and only if the id is known and the new expiry is no earlier than its parent's
  (`Timers.HeapTimer.Update`). The callback that the servers register erases its own timer, so `tick` drops
  the next timer unfired, if and only if there are two timers and one has expired at the first look
  (`Timers.HeapTimer.TickErasing`, `Timers.EverySecondIsLost`); the next event of that
  connection then updates an unknown id (`Timers.LostTimerIsUpdated`). The result -1 of `GetNextTick` does not always
  mean that no timer is left (`Timers.MinusOneIsAmbiguous`, `Timers.MinusOneWithTimerLeft`), because its clamp at zero
  compares an unsigned value.
- `clear` of the blocking queue wakes no producer. It can lead to a deadlock of producers and consumers if and only
  if it finds a producer asleep and none notified (`BlockDeques.ClearCanDeadlockIff`; a run in
  `BlockDeques.ClearDeadlocks`). A timed pop that was notified but gives up keeps its notification
  (`BlockDeques.LateTimeoutServesIff`; a run in `BlockDeques.LateTimeoutLoses`). A pop that starts after Close sleeps
  on an empty queue until one of exactly five kinds of events (`BlockDeques.StrandedAfterClose`,
  `BlockDeques.ReleasedIff`; a run in `BlockDeques.CloseStrands`).
- A form with distinct names is read back if and only if no name or value holds `=` or `&` and its last field is not
  wholly empty (`FormBody.FormIff`).

## Model

| member | source | states |
|---|---|---|
| FileScan.DecideSound | storage/src/http/httprequest.cpp:282-312 | every pass of the flush loop makes progress: it writes at least one byte, none of which may begin the delimiter, or it stands at the delimiter or at bytes that may begin it |
| FileScan.FlushStep | storage/src/http/httprequest.cpp:282-312 | the pass on what is left, after any number of bytes written, decides as the search from the start of the pending bytes would; holds for the search for CR and for CRLF |
| FileScan.StopAppend | storage/src/http/httprequest.cpp:287-308 | more bytes never move a found delimiter, and never make bytes that were safe to write part of one |
| FileScan.StopClosedForm | storage/src/http/httprequest.cpp:287-308 | all passes together stop at the first occurrence of the delimiter, or, if there is none, at the first CR among the last bytes fewer than a delimiter |
| StreamParser.RunAbsorbs | storage/src/http/httprequest.cpp:24-79 | for any line protocol, parsing a first part of the bytes early changes nothing once the rest has arrived |
| UploadTurns.SplitIndependence | storage/src/http/httprequest.cpp:21-80 | any two ways of cutting an upload that leave its cookies in one read end in the same result, headers, names, files and pending bytes |
| UploadTurns.OneCookieIsTogether | storage/src/http/httprequest.cpp:209-210 | a header with one cookie line at most is left so by every way of cutting |
| UploadTurns.TwoTurns | storage/src/http/httprequest.cpp:36-80 | two turns end as one with the bytes of both, unless both bring cookies |
| UploadTurns.TurnIsStable | storage/src/http/httprequest.cpp:48-50 | behind every turn the check of the user has nothing more to do |
| UploadForm.TwoCookies | storage/src/http/httprequest.cpp:48-50 | what two cookie lines are looked up as, in one read and in two, behind any header with one cookie |
| UploadForm.TwoCookieNames | storage/src/http/httprequest.cpp:340-368 | the user that both ways find, in terms of the account table |
| UploadForm.TwoCookiesDiffer | storage/src/http/httprequest.cpp:48-50 | an account table and a header with two cookie lines for which the path of the file depends on the cut |
| UploadTurns.OneOrderPerChunk | storage/src/http/httprequest.cpp:52-57 | from the request line of an upload or a deletion on, every chunk writes a rollback record |
| UploadTurns.UploadSplit | storage/src/http/httprequest.cpp:268-324 | fed in any chunks, the file gets exactly the bytes before the first occurrence of the closing delimiter, and until it has come, everything but a tail that may begin it |
| UploadSpec.UploadTerminates | storage/src/http/httprequest.cpp:316-322 | once the closing delimiter is found the request is over, so the general parser theorems apply to it |
| RequestLines.RequestLine | storage/src/http/httprequest.cpp:93-141 | the request line of any three fields gives the method, the area, the action and the file, each if and only if the text names it |
| RequestLines.RejectedIff | storage/src/http/httprequest.cpp:93-98 | a request line is rejected if and only if it does not hold two blanks |
| RequestLines.ShortResource | storage/src/http/httprequest.cpp:112-133 | a resource with fewer directories is not found |
| RequestLines.OtherParses | storage/src/http/httprequest.cpp:211-212 | any other header stands under its key |
| RequestLines.ShortHeader | storage/src/http/httprequest.cpp:193-194 | what stands under a key without a value |
| RequestLines.LengthParses | storage/src/http/httprequest.cpp:196-197 | a length that fits an int is stored, a larger one throws |
| RequestLines.StoiNumbers | storage/src/http/httprequest.cpp:196-197 | what stoi makes of numbers with blanks, signs and any rest |
| RequestLines.ParameterParses | storage/src/http/httprequest.cpp:198-208 | a content type with a parameter stores both, one without stores itself |
| RequestLines.TypeEdges | storage/src/http/httprequest.cpp:199-205 | a content type that ends with its semicolon throws, and a parameter without a value stands for the whole |
| RequestLines.CookieSplits | storage/src/http/httprequest.cpp:215-224 | a cookie is split at its first equals sign, further ones are dropped, and a NUL ends it |
| RequestLines.EndIs | storage/src/http/httprequest.cpp:153-158 | the empty line completes a request without a body, opens the part of an upload, and lets any other body pile up |
| RequestLines.SkippedParses | storage/src/http/httprequest.cpp:261-262 | a line of the part without a file name changes nothing |
| RequestLines.NoQuote | storage/src/http/httprequest.cpp:263-265 | a file name that no quote ends is read past the end of the line |
| RequestLines.PartEndIs | storage/src/http/httprequest.cpp:268-281 | the file is opened in the area and below the user of the request, and there is none outside both areas |
| UploadRequest.HttpRequest.NextLine | storage/src/http/httprequest.cpp:144-163 | takes the first pending line with its line end and nothing else, if there is a whole one, and never leads back to an earlier stage |
| UploadRequest.HttpRequest.ParseHeadLine | storage/src/http/httprequest.cpp:144-164 | the header loop does not change where reading header lines leads and ends with them read, at the body, or at an error; what each line means is RequestLines |
| UploadRequest.HttpRequest.VerifyAndLog | storage/src/http/httprequest.cpp:48-57 | a known cookie is replaced by the user for good, an unknown one is cleared; an upload or a deletion writes one rollback record, with the file, and with the user unless it is public; anything else writes none |
| UploadRequest.HttpRequest.ParseFile | storage/src/http/httprequest.cpp:226-324 | the three stages of the file part reach exactly the state the protocol defines for the pending bytes |
| UploadRequest.HttpRequest.FlushLoop | storage/src/http/httprequest.cpp:282-312 | the in-place loop over the buffer writes and drops exactly what the specification of a flush says, and terminates |
| UploadRequest.HttpRequest.OnData | storage/src/http/httprequest.cpp:36-79 | one turn of the receive loop takes the request to the state that the turn defines: header lines, the check of the user, the body, errors and exceptions included; and it writes the rollback record of that turn |
| UploadRequest.HttpRequest.Process | storage/src/http/httprequest.cpp:21-82 | for every sequence of results of recv, the state is that of the turns for the chunks received, a rollback record is written for each as the turns define, and the return value tells success, error, closed and would-block apart; for printed requests that state is written out by UploadRoundTrip, OtherBoundary and PlainRequest |
| UploadForm.RunLines | storage/src/http/httprequest.cpp:84-164 | printed lines free of CR are read back one by one, in order |
| UploadForm.LinesParse | storage/src/http/httprequest.cpp:84-266 | the request line, header lines in any number and order and the lines of the part give back all fields of a printed form |
| UploadForm.Delivered | storage/src/http/httprequest.cpp:226-324 | any header that leads to a body, the lines of a part, the body and its delimiter, cut anyhow but inside the cookies, append to the named file, for the user that the cookies stand for, what comes before the first occurrence of the delimiter |
| UploadForm.UploadRoundTrip | storage/src/http/httprequest.cpp:21-324 | for every form with one cookie, a content type and any other header lines and lines of the part, account table, content and chunking: the request succeeds, lengths and headers stand as printed, and exactly the content is appended, in the private area under the user found, if and only if the delimiter does not occur before the place it is printed at |
| UploadForm.OtherBoundary | storage/src/http/httprequest.cpp:231-244 | if a header named boundary has replaced that of the content type, the request is given up with result 2 and nothing is stored |
| UploadForm.PlainRequest | storage/src/http/httprequest.cpp:59-65 | a request of another method is answered behind its header, with the action, area, file and user of its lines; a deletion or an upload writes its rollback record, a download none |
| UploadForm.UploadOrder | storage/src/http/httprequest.cpp:52-57 | an upload in one read writes one rollback record: upload, the user found or none for the public area, and the name in the URL |
| Buffers.Buffer.constructor | storage/src/buffer/buffer.cpp:3-3 | a new buffer is an empty queue |
| Buffers.Buffer.AddHandled | storage/src/buffer/buffer.cpp:37-40 | bytes leave the queue at the front and are the next bytes consumed |
| Buffers.Buffer.AddHandledAll | storage/src/buffer/buffer.cpp:45-50 | the queue is empty and everything received is consumed |
| Buffers.Buffer.MakeSpace | storage/src/buffer/buffer.cpp:122-132 | compaction in place or growth, whichever the free bytes call for, leaves the queued bytes as they are and makes room |
| Buffers.Buffer.EnsureFreeBytes | storage/src/buffer/buffer.cpp:54-59 | the assertion on the free space holds and the queue is unchanged |
| Buffers.Buffer.Append | storage/src/buffer/buffer.cpp:61-76 | the bytes join the queue at the end |
| Buffers.Buffer.ReadFd | storage/src/buffer/buffer.cpp:78-97 | a scattered read of any length, with or without overflow into the side array, appends exactly the bytes read; a call that fails, or finds nothing, changes nothing |
| Buffers.Buffer.WriteFd | storage/src/buffer/buffer.cpp:98-107 | a partial write takes exactly the accepted bytes from the front; a failed one takes nothing |
| Buffers.Buffer.UnhandleToStr | storage/src/buffer/buffer.cpp:109-113 | returns the queued bytes and empties the queue |
| SyncWire.ValueDecimal | storage/src/message/node/storagenode.cpp:148-148 | the decimal text of a size reads back as the size |
| SyncWire.NumberEdges | storage/src/message/node/tasknode.cpp:151-151 | what stream extraction makes of signed, too large and missing numbers |
| SyncWire.UploadFieldsRoundTrip | storage/src/message/node/tasknode.cpp:146-151 | area, user, name, size and boundary printed into the first line are extracted unchanged |
| SyncWire.OnlyWordsComeThrough | storage/src/message/node/tasknode.cpp:150-151 | the name read back is the name printed if and only if it is a non-empty word without white space |
| CutSafety.PassFlushes | storage/src/message/node/tasknode.cpp:56-88 | as long as no trailer is found, each pass flushes exactly up to the first CRLF that no read has split |
| CutSafety.SafeTrailerFound | storage/src/message/node/tasknode.cpp:56-88 | the first trailer that is safe from the ends of the reads is found by the read that brings its last byte, with exactly the bytes before it flushed, whatever trailers the cuts have lost before it |
| CutSafety.UnsafeTrailerLost | storage/src/message/node/tasknode.cpp:62-86 | the first byte of a trailer that is not safe is flushed into the file |
| SyncTransfer.ReceivePrefix | storage/src/message/node/tasknode.cpp:22-88 | after every prefix of the reads that does not bring the end of the first safe trailer, the receiver is in the one state that the bytes so far and the ends of the reads determine |
| SyncTransfer.Completes | storage/src/message/node/tasknode.cpp:22-104 | whatever bytes follow the head of an upload, the read that brings the end of the first safe trailer completes it with exactly the bytes before that trailer |
| SyncTransfer.SafeTransfer | storage/src/message/node/tasknode.cpp:22-104 | a transfer whose own trailer is safe, and no trailer inside its content, completes with the read that brings its last byte, with the same area, names and bytes, and leaves what follows for the next message |
| SyncTransfer.UnsafeTransfer | storage/src/message/node/tasknode.cpp:56-88 | if the trailer is not safe, and none inside the content is, then with the end of the message the file holds the content and the beginning of the trailer, whatever the last read brings behind it |
| SyncTransfer.EarlyTransfer | storage/src/message/node/tasknode.cpp:56-104 | a safe trailer inside the content completes the transfer with the content before it, and the receiver never comes to the state of the whole transfer |
| SyncTransfer.NeverCompletes | storage/src/message/node/tasknode.cpp:56-88 | if no trailer that arrives is safe, no message is completed, and everything goes into the file but for a last part shorter than a trailer |
| SyncTransfer.TransferIff | storage/src/message/node/tasknode.cpp:22-104 | the receiver ends with exactly the file sent if and only if the trailer behind the content is safe and none inside it is, for every content, names, split into reads and bytes of following messages in the last read |
| SyncTransfer.OneReadIff | storage/src/message/node/tasknode.cpp:22-104 | a message in one read arrives if and only if the trailer does not occur before the end of its content |
| SyncTransfer.EarlyTrailerCutsShort | storage/src/message/node/tasknode.cpp:62-72 | content that begins with its own trailer, in one read, leaves an empty file |
| SyncTransfer.SplitEarlyTrailerIsHarmless | storage/src/message/node/tasknode.cpp:62-86 | the same message, cut inside that trailer, arrives whole |
| SyncTransfer.UncutTransfer | storage/src/message/node/tasknode.cpp:62-88 | for content without the trailer it is enough that no read ends right behind the first byte of the trailer |
| SyncTransfer.SplitTrailerIsLost | storage/src/message/node/tasknode.cpp:62-86 | for content without CR it is necessary: the message cut there is never completed |
| LineTransfer.DeleteArrives | storage/src/message/node/tasknode.cpp:129-144 | a deletion, cut in any way, removes exactly the file named with the read that brings its last byte, and leaves what follows for the next message |
| LineTransfer.AnnouncementArrives | storage/src/message/node/tasknode.cpp:105-128 | the announcement of a node, cut in any way, adds a peer if the connection to it succeeds and does nothing else, and changes no file |
| LineTransfer.UnknownName | storage/src/message/node/tasknode.cpp:27-34 | of a line with an unknown name four bytes are dropped |
| LineTransfer.NothingBehindName | storage/src/message/node/tasknode.cpp:27-34 | a name with nothing behind it fails the assertion of the buffer |
| LineTransfer.WrongBoundary | storage/src/message/node/tasknode.cpp:44-53 | a second line that does not repeat the boundary drops what was received |
| LineTransfer.NoFile | storage/src/message/node/tasknode.cpp:85-86 | without an open file the first bytes fail |
| SyncBacklog.OnePerRead | storage/src/message/node/basenode.cpp:26-56 | of messages that come in one read, that read carries out the first, and each further read, whatever it brings, one more; the others wait |
| SyncBacklog.AtMostAsMany | storage/src/message/node/basenode.cpp:26-56 | however messages are cut, a number of reads completes at most as many |
| SyncBacklog.TransfersInTurn | storage/src/message/node/basenode.cpp:26-56 | transfers one after the other on one connection all arrive, the reads overlapping their ends, if for each its own trailer is the first that is safe |
| TaskNodes.TaskNode.ParseHead | storage/src/message/node/tasknode.cpp:22-35 | the head of a message is read off the buffer as the specification of a receiver says |
| TaskNodes.TaskNode.DealNEW | storage/src/message/node/tasknode.cpp:105-128 | a node that is connected to becomes a peer; if connect fails, the message is dropped and nothing counts as carried out |
| TaskNodes.TaskNode.DealDEL | storage/src/message/node/tasknode.cpp:129-144 | one path at most is removed and every other file stays; for the line that a sender prints it is the file of that user and name |
| TaskNodes.TaskNode.DealUPL | storage/src/message/node/tasknode.cpp:145-166 | one path at most is emptied and every other file stays; for the line that a sender prints, path, user, size and boundary are those of the sender |
| TaskNodes.TaskNode.FlushLoop | storage/src/message/node/tasknode.cpp:57-87 | the in-place loop writes and drops exactly what the specification of a pass says, and terminates |
| TaskNodes.TaskNode.ParseBody | storage/src/message/node/tasknode.cpp:36-104 | boundary line, content and trailer are handled as the specification of a receiver says |
| TaskNodes.TaskNode.OnRead | storage/src/message/node/basenode.cpp:28-53 | one read takes the receiver to the state of the specification after these bytes, and completes at most one message; with nothing queued, or if the read fails, it changes nothing |
| TaskNodes.TaskNode.ReadProcess | storage/src/message/node/basenode.cpp:26-56 | the read loop does so for the pieces it reads, whatever their sizes, until a message is complete or nothing more comes; the result is 2 if the parser failed, the peer closed or a read failed for good, and 1 otherwise |
| StorageNodes.StorageNode.constructor | storage/src/message/node/storagenode.cpp:6-20 | a new sender has sent nothing and has nothing queued |
| StorageNodes.StorageNode.AddTask | storage/src/message/node/storagenode.cpp:101-104 | any task joins the queue at the end, whether or not its file can be opened |
| StorageNodes.StorageNode.AddSynPack | storage/src/message/node/storagenode.cpp:109-112 | as written, what joins the queue is the announcement of a node |
| StorageNodes.MistaggedIsLost | storage/src/message/node/storagenode.cpp:109-121 | the text sent for it is the message of no change at all |
| StorageNodes.StorageNode.ReadySyn | storage/src/message/node/storagenode.cpp:122-154 | the send buffer gets exactly the head of the message for the change |
| StorageNodes.StorageNode.TakeTask | storage/src/message/node/storagenode.cpp:28-40 | the first task leaves the queue and its message is what remains to be sent; the file of an upload is the one at its public path, or at the private path of its user, as it is then, and if there is none only the head goes out |
| StorageNodes.StorageNode.Send | storage/src/message/node/storagenode.cpp:42-52 | a partial or refused write moves bytes from the buffer to the connection; sent and remaining bytes together stay the same; the result is 2 for a broken connection, 1 for a call to be repeated or bytes left, and 0 when all is out |
| StorageNodes.StorageNode.SendHead | storage/src/message/node/storagenode.cpp:41-57 | the next stage starts only when the head is accepted whole |
| StorageNodes.StorageNode.SendSome | storage/src/message/node/storagenode.cpp:61-73 | one sendfile of any length advances through the file; the trailer follows only after the last byte |
| StorageNodes.StorageNode.SendFile | storage/src/message/node/storagenode.cpp:59-74 | the loop ends with the file accepted and the trailer printed, or with a return to be called again |
| StorageNodes.StorageNode.SendTrailer | storage/src/message/node/storagenode.cpp:75-90 | the task is complete only when the trailer is accepted whole |
| StorageNodes.StorageNode.GiveBack | storage/src/message/node/storagenode.cpp:93-93 | for a change its sync log entry is finished once and its ring log page freed once, for an announcement nothing |
| StorageNodes.StorageNode.WriteProcess | storage/src/message/node/storagenode.cpp:27-100 | under every sequence of partial, refused and failed writes, and of files that come and go between the events, the accepted bytes are the messages of the finished tasks in order and a prefix of the next; result 0 means that the finish action has run for one task, with its own sync log entry and ring log page, 2 that the connection is broken, 1 anything else |
| Replication.NeverFaults | storage/src/message/node/tasknode.cpp:22-104 | no part of what is sent makes the receiver fail before the read that brings the first safe trailer |
| Replication.SendNext | storage/src/message/node/storagenode.cpp:27-100 | driven by writable events, the sender puts exactly the message of its next task on the connection |
| Replication.ReadAll | storage/src/message/node/basenode.cpp:26-56 | driven by readable events, the receiver takes in everything that is queued, in pieces of any size |
| Replication.Replicate | storage/src/message/node/basenode.cpp:26-70 | end to end on the two objects, with both paths written out: a queued upload ends as the same file under the same names if and only if the whole message is read, the trailer at its end is safe from the cuts and none inside the content is; the message is read whole unless one inside is; if the file is missing, the task is done all the same and the peer's file is empty |
| Replication.MissingFileEmpties | storage/src/message/node/storagenode.cpp:132-157 | the upload of a missing file, cut in any way, empties the peer's file, which takes in what is sent next as long as no trailer of its head is safe |
| Replication.DeletionArrives | storage/src/message/node/storagenode.cpp:122-131 | a queued deletion removes at the peer the file at the same place below its root and no other |
| Replication.MistaggedChangesNothing | storage/src/message/node/storagenode.cpp:109-121 | what is sent for a change queued as an announcement changes no file of the peer |
| UploadSync.SameFileIff | storage/src/http/httpconn.cpp:100-116 | the file that a change names is the one the request stored if and only if both names agree and a private upload has a user |
| UploadSync.StoredIsSent | storage/src/http/httpconn.cpp:100-116 | for every such form, what the task opens is the stored file with the content appended |
| RwLock.StepKeeps | tracker/src/lock/rwlock.h:24-59 | every section under the mutex keeps the invariant: counts, exclusion and that whoever sleeps will be woken |
| RwLock.RunIsSafe | tracker/src/lock/rwlock.h:24-59 | on every run, spurious wakeups included, reader and writeQuest count the holders and the pending writers, at most one writer and no reader beside it holds the lock, sleeping readers have a writer before them, and sleeping writers have a holder or a notified writer |
| RwLock.MutualExclusion | tracker/src/lock/rwlock.h:44-50 | on every run whoever writes holds the lock alone |
| RwLock.WritersGoFirst | tracker/src/lock/rwlock.h:26-31 | on every run a thread starts reading only when no writer waits or writes |
| RwLock.StuckMeansFree | tracker/src/lock/rwlock.h:26-59 | no deadlock: a reachable state in which nobody inside can run on is the free lock |
| RwLock.WorkFalls | tracker/src/lock/rwlock.h:26-59 | an explicit measure falls with every step of a thread that is inside |
| RwLock.Drains | tracker/src/lock/rwlock.h:26-59 | without arrivals the threads inside take a bounded number of steps, every maximal such run ends with the free lock, and every thread that waited has held it |
| RwLock.RWlock.ReaderLock | tracker/src/lock/rwlock.h:26-31 | the arrival of a reader is that step of the state machine and keeps its invariant |
| RwLock.RWlock.ReaderAgain | tracker/src/lock/rwlock.h:28-30 | a notified reader that looks again is that step |
| RwLock.RWlock.ReaderUnlock | tracker/src/lock/rwlock.h:32-37 | the last reader to leave wakes one writer |
| RwLock.RWlock.WriterLock | tracker/src/lock/rwlock.h:44-51 | the arrival of a writer is that step and keeps the invariant |
| RwLock.RWlock.WriterAgain | tracker/src/lock/rwlock.h:47-50 | a notified writer that looks again is that step |
| RwLock.RWlock.WriterUnlock | tracker/src/lock/rwlock.h:52-59 | a writer that leaves wakes one writer if any asked, and all readers otherwise |
| Timers.RootIsLeast | tracker/src/single/heaptimer.h:29-31 | no timer of a heap expires before the first one |
| Timers.HeapTimer.SwapNode | tracker/src/single/heaptimer.cpp:17-21 | the map stays the inverse of the array and the timers stay the same |
| Timers.HeapTimer.SiftUp | tracker/src/single/heaptimer.cpp:24-34 | a heap but for one node that is too early becomes a heap, swaps on ties included; the timers stay the same |
| Timers.HeapTimer.SiftDown | tracker/src/single/heaptimer.cpp:37-50 | a heap but for the neighbourhood of one node becomes a heap if the node moves, and a heap but for its parent if not |
| Timers.HeapTimer.Del | tracker/src/single/heaptimer.cpp:3-15 | deletion anywhere removes exactly the timer at that place |
| Timers.HeapTimer.Add | tracker/src/single/heaptimer.cpp:52-68 | a new timer is added; one that is set already is replaced, whatever its new expiry |
| Timers.HeapTimer.Update | tracker/src/single/heaptimer.cpp:71-74 | the heap and the map stay sound if and only if the id is known and the new expiry is no earlier than its parent's; then exactly its expiry changes |
| Timers.HeapTimer.Close | tracker/src/single/heaptimer.cpp:77-84 | the callback is called once if the timer is set, and the timer is gone; for callbacks that leave the timers alone |
| Timers.HeapTimer.CloseErasing | tracker/src/single/heaptimer.cpp:77-84 | with a callback that erases its own timer, one more timer is dropped, uncalled, if and only if the timer did not stand at the last place |
| Timers.HeapTimer.Erase | tracker/src/single/heaptimer.cpp:87-93 | the timer is gone, without its callback |
| Timers.HeapTimer.Pop | tracker/src/single/heaptimer.cpp:114-118 | the first timer is gone |
| Timers.FiredIsExpired | tracker/src/single/heaptimer.cpp:104-110 | on a clock that never runs backwards, what fired is exactly what had expired at the last look |
| Timers.ExpiredIsEarlier | tracker/src/single/heaptimer.cpp:106-107 | a timer has expired when less than a millisecond is left |
| Timers.HeapTimer.Tick | tracker/src/single/heaptimer.cpp:101-112 | with callbacks that leave the timers alone, the timers fire one by one in order of expiry, each once and as it was set; with a monotone clock exactly those expired at the last look, and the rest is untouched |
| Timers.HeapTimer.TickErasing | tracker/src/single/heaptimer.cpp:101-112 | with the callback that the servers register, which erases its own timer, the timers leave in order of expiry, the first, third and so on as they fire; none that is left has expired at the last look; and one is lost if and only if there are two and one has expired at the first look |
| Timers.EverySecondIsLost | tracker/src/single/heaptimer.cpp:104-110 | the timers that leave second, fourth and so on are gone without having fired |
| Timers.LostTimerIsUpdated | tracker/src/single/heaptimer.cpp:71-74 | a run: three timers, one tick with that callback, and the update of the lost timer leaves the heap unsound |
| Timers.HeapTimer.GetNextTick | tracker/src/single/heaptimer.cpp:119-127 | fires as tick does and returns the remaining time of the timer that expires first, in whole milliseconds cut towards zero, as far as an int keeps it, -1 if none is left |
| Timers.HeapTimer.GetNextTickErasing | tracker/src/single/heaptimer.cpp:119-127 | the same with the callback that the servers register: fires and loses as tick does then, and returns the remaining time of the first timer left |
| Timers.MinusOneIsAmbiguous | tracker/src/single/heaptimer.cpp:121-126 | with a timer left the result is -1 if and only if the next one expired between one and two milliseconds ago |
| Timers.MinusOneWithTimerLeft | tracker/src/single/heaptimer.cpp:119-127 | a run in which the result is -1 and a timer is left |
| BlockDeques.BoundedAndConserved | storage/src/log/blockqueue.h:80-138 | on every run the length never exceeds the capacity, and what was pushed is what was popped, what is queued and what was thrown away |
| BlockDeques.FirstInFirstOut | storage/src/log/blockqueue.h:80-122 | with push_back alone and before clear or Close, the items popped followed by those queued are the items pushed |
| BlockDeques.PoppedNext | storage/src/log/blockqueue.h:80-122 | an item pushed in front is popped next, one pushed at the back after all others |
| BlockDeques.NoLostWakeup | storage/src/log/blockqueue.h:80-122 | with careful events alone, sleeping consumers mean no more items than notified consumers, and sleeping producers no more free slots than notified producers |
| BlockDeques.NoDeadlock | storage/src/log/blockqueue.h:80-127 | on every run in which clear never finds producers asleep and none notified, a producer and a consumer never sleep together with nobody notified |
| BlockDeques.ClearCanDeadlockIff | storage/src/log/blockqueue.h:123-127 | from the state that clear leaves, ordinary events can lead to that deadlock if and only if clear found a producer asleep and none notified |
| BlockDeques.ClearDeadlocks | storage/src/log/blockqueue.h:123-127 | a run of four calls on a queue of capacity 1 that ends in the deadlock |
| BlockDeques.LateTimeoutServesIff | storage/src/log/blockqueue.h:113-114 | a notified consumer that gives up keeps that if and only if nobody else sleeps or the other notified consumers are enough |
| BlockDeques.LateTimeoutLoses | storage/src/log/blockqueue.h:113-114 | a run in which that loses the notification: a consumer sleeps on beside an item |
| BlockDeques.StrandedAfterClose | storage/src/log/blockqueue.h:99-103 | a consumer that finds the queue empty after Close sleeps on over every run without an event that can help it |
| BlockDeques.ReleasedIff | storage/src/log/blockqueue.h:99-103 | an event can wake or release it if and only if it is a push that finds room, consume, the notification of Close, its own timeout or a spurious wakeup |
| BlockDeques.CloseStrands | storage/src/log/blockqueue.h:130-138 | a run that gets there: Close, both notifications, and a pop |
| BlockDeques.SettledMeansIdle | storage/src/log/blockqueue.h:80-122 | when no notified thread is left, consumers sleep only on an empty queue and producers only on a full one; with capacity at least 1 the two sides never sleep together |
| BlockDeques.Settles | storage/src/log/blockqueue.h:80-122 | from any state the notified threads take a bounded number of steps until none is left |
| BlockDeques.BlockDeque.Push | storage/src/log/blockqueue.h:80-95 | the first section of push_back and push_front is that step of the state machine |
| BlockDeques.BlockDeque.PushAgain | storage/src/log/blockqueue.h:83-86 | the section after a notification is that step |
| BlockDeques.BlockDeque.Pop | storage/src/log/blockqueue.h:96-122 | the first section of both forms of pop is that step and returns the oldest item |
| BlockDeques.BlockDeque.PopAgain | storage/src/log/blockqueue.h:99-107 | the section after a notification is that step; after Close it returns nothing |
| BlockDeques.BlockDeque.ClearAll | storage/src/log/blockqueue.h:123-127 | keeps the invariants of the queue and accounts for the items thrown away; afterwards a deadlock can be reached if and only if a producer sleeps and none is notified |
| BlockDeques.BlockDeque.CloseDown | storage/src/log/blockqueue.h:130-135 | keeps the invariants of the queue and accounts for the items thrown away; whoever resumes in pop afterwards leaves without an item |
| BlockDeques.BlockDeque.NotifyAll | storage/src/log/blockqueue.h:136-137 | afterwards nobody of that kind sleeps, all that did are notified, and the invariants of the queue hold |
| BlockDeques.BlockDeque.ConsumeOne | storage/src/log/blockqueue.h:139-142 | one consumer changes from asleep to notified, or nobody if none sleeps, and the invariants of the queue hold |
| PageBytes.CopyName | storage/src/consistlog/ringlog/ringlog.cpp:42-51 | the loop over max(size, 12) characters leaves the name, its NUL and what it overwrote exactly where the specification of the lemmas has them |
| PageBytes.LinksSurviveIff | storage/src/consistlog/ringlog/ringlog.cpp:42-51 | bytes 48 to 63 of the page keep whatever they held if and only if the file name has at most 12 bytes and the user name at most 23 |
| PageBytes.BehindSurvivesIff | storage/src/consistlog/ringlog/ringlog.cpp:42-51 | what lies behind the page in memory is untouched if and only if the file name has at most 27 bytes and the user name at most 39 |
| PageBytes.FileReadsBackIff | storage/src/consistlog/ringlog/ringlog.cpp:47-51 | the file name is read back if and only if it has not exactly 12 bytes, the user name has 24, or it has less and the byte behind the field was NUL |
| PageBytes.PageReadsBackIff | storage/src/consistlog/ringlog/ringlog.cpp:47-51 | in a log page with a user name that fits, a file name of 12 bytes is read back if and only if the page that will be handed out next has a number divisible by 4 |
| PageBytes.UserReadsBackIff | storage/src/consistlog/ringlog/ringlog.cpp:42-46 | the user name is read back if and only if it has fewer than 12 bytes, or its end is the file name that is written over it, up to where a file name of 12 bytes lets it show again |
| RingLogs.InitLinked | storage/src/consistlog/ringlog/ringlog.cpp:155-179 | a new file holds all pages but the header in the free list, in order |
| RingLogs.AllocatedLinked | storage/src/consistlog/ringlog/ringlog.cpp:121-136 | with two pages free and names that do no damage, allocation keeps both lists linked, disjoint and covering, and adds exactly the new record at an address that held none |
| RingLogs.AllocatedLinkedIff | storage/src/consistlog/ringlog/ringlog.cpp:121-136 | allocation leaves two sound lists if and only if two pages were free and copying the names left the links of the page as they were |
| RingLogs.UnlinkedTodo | storage/src/consistlog/ringlog/ringlog.cpp:83-102 | at any position of its list the page is taken out and its neighbours are linked, page 0 standing in for a missing one |
| RingLogs.FreedLinked | storage/src/consistlog/ringlog/ringlog.cpp:77-119 | with the header written where it belongs, freeing a page at any position keeps both lists linked, disjoint and covering, and removes exactly its record |
| RingLogs.FreedAsWrittenIff | storage/src/consistlog/ringlog/ringlog.cpp:118-118 | with the header written at offset 64, two sound lists are left if and only if page 1 was freed |
| RingLogs.RunFromInit | storage/src/consistlog/ringlog/ringlog.cpp:77-179 | over every run of initialisation, allocation of records whose names fit and release in any order while a page stays free, the two lists share out all 16 * capacity - 1 pages, both doubly linked, with counts equal to lengths where they are maintained; the records are those written and not freed, and page 0 holds the current header |
| RingLogs.ThirteenByteNameBreaks | storage/src/consistlog/ringlog/ringlog.cpp:47-51 | a first record with a file name of 13 bytes leaves no sound lists |
| RingLogs.FillingBreaks | storage/src/consistlog/ringlog/ringlog.cpp:121-136 | in a log of any capacity, 16 * capacity - 2 records without a release leave sound lists, and the next one does not |
| RingLogs.FreeingPageTwoBreaks | storage/src/consistlog/ringlog/ringlog.cpp:118-118 | two records in a new log and the release of the second, as written, leave no sound lists |
| RingLogs.LateIsPrompt | storage/src/consistlog/ringlog/ringlog.cpp:35-56 | a page written after any run of other operations is written as if at once, if neither the record before it nor the one after it was freed meanwhile |
| RingLogs.LateWriteIff | storage/src/consistlog/ringlog/ringlog.cpp:35-56 | with one operation between the allocation and the write of the page, the lists are sound if and only if it did not free the newest record |
| RingLogs.RingLog.constructor | storage/src/consistlog/ringlog/ringlog.cpp:155-179 | the loop writes exactly the fresh file |
| RingLogs.RingLog.GetFreebody | storage/src/consistlog/ringlog/ringlog.cpp:121-136 | hands out a page that holds no record, linked to the page that will be handed out next and to the newest record |
| RingLogs.RingLog.WriteLog | storage/src/consistlog/ringlog/ringlog.cpp:35-75 | the log stays sound if and only if two pages were free and the names do no damage, which names that fit never do; then the record joins it under an unused address and the others stay |
| RingLogs.RingLog.FreeLogAt | storage/src/consistlog/ringlog/ringlog.cpp:77-119 | the reads and writes of FreeLog amount to the function that the lemmas are about |
| RingLogs.RingLog.FreeLog | storage/src/consistlog/ringlog/ringlog.cpp:77-119 | as written, the log survives if and only if page 1 is freed |
| RingLogs.RingLog.FreeLogRepaired | storage/src/consistlog/ringlog/ringlog.cpp:77-119 | with line 118 put right, exactly the record freed leaves the log |
| WriteAhead.StepKeeps | storage/src/http/httpconn.cpp:100-121 | every log operation of every request and peer keeps the invariant of the logs |
| WriteAhead.AlwaysCovered | storage/src/http/httpconn.cpp:100-121 | at every step of every interleaving, with peers that join and leave, the ring holds the rollback record of a request or, for every peer of the group that its loop found, a sync record or a finished sync log entry |
| WriteAhead.AllButOneStay | storage/src/http/httprequest.cpp:53-57 | on every run the rollback records of a request that are left in the ring are all that were written for it but the last, so none is left at its end if and only if one was written |
| WriteAhead.FinishedStays | storage/src/message/node/storagenode.cpp:163-167 | a finished entry of the sync log stays finished whatever follows |
| WriteAhead.EachIsOwned | storage/src/http/httpconn.cpp:104-117 | on every run each sync record in the ring is being handed out or owned by a task, once |
| WriteAhead.FinishedIsGone | storage/src/message/node/storagenode.cpp:163-167 | when the finish action of a change is over, no record of it is left in the ring and its sync log entry is finished |
| WriteAhead.Server.UpdateLog | storage/src/http/httpconn.cpp:100-121 | the loop over the peers, with anything happening elsewhere between its operations, ends with the last rollback record gone and every peer of the group it started with covered |
| ConsistentHashing.LowerBoundIsNearest | tracker/src/message/consistenthash.h:25-28 | lower_bound with wraparound finds the nearest point clockwise |
| ConsistentHashing.KeepsOrMoves | tracker/src/message/consistenthash.h:13-19 | when a node joins, each key keeps its group or moves to that node, for every hash function, collisions included |
| ConsistentHashing.MovesIff | tracker/src/message/consistenthash.h:13-30 | a key moves to a new node if and only if one of its points is at least as near as all others |
| ConsistentHashing.AcrossJoins | tracker/src/message/consistenthash.h:13-30 | across any sequence of joins a key that is not where it was is at one of the nodes that joined |
| ConsistentHashing.OrderMattersIff | tracker/src/message/consistenthash.h:13-19 | the order in which two nodes join does not matter if and only if they share no point |
| ConsistentHashing.ConsistentHash.AddNode | tracker/src/message/consistenthash.h:13-19 | the five points hash(node + "---0") to hash(node + "---4"), cut to 32 bits, are the node's whoever had them, every other point keeps its owner or absence, and keys move only to the node |
| ConsistentHashing.FivePoints | tracker/src/message/consistenthash.h:13-19 | they are five points if and only if the hash function tells the five names apart |
| ConsistentHashing.ConsistentHash.GetGroup | tracker/src/message/consistenthash.h:21-30 | returns the owner of the least point that is no less than hash(data) cut to 32 bits, of the least of all if there is none, or the empty name |
| FormBody.LoginRequest.ParseBodyLine | tracker/src/http/httprequest.cpp:141-159 | the loop computes the decoding that the lemmas are about |
| FormBody.LoginRequest.ParseUser | tracker/src/http/httprequest.cpp:202-214 | takes as many bytes as are there and still wanted, and decodes exactly when none is wanted any more |
| FormBody.LoginRequest.ReceiveBody | tracker/src/http/httprequest.cpp:24-74 | for any chunking the body is complete with the read that brings Content-Length bytes and not before, and it is these bytes |
| FormBody.DecodePrinted | tracker/src/http/httprequest.cpp:141-159 | what decoding makes of any printed list of clean fields, repeated and empty names included |
| FormBody.RoundTripIff | tracker/src/http/httprequest.cpp:141-159 | the printed fields are read back if and only if the last one is not wholly empty or was there before |
| FormBody.RoundTrip | tracker/src/http/httprequest.cpp:141-159 | for distinct non-empty names the decoded form has exactly the fields printed |
| FormBody.FormIff | tracker/src/http/httprequest.cpp:141-159 | a form of any size with distinct names is read back if and only if its names and values are free of `=` and `&` and its last field is not wholly empty |

## Left out

- RunFromInit: is about `FreeLog` with the header at offset 0; for the code as written the exact condition is FreedAsWrittenIff. That the counts equal the lengths is stated for the ring that maintains them; as written they are zero.
- WriteLog: is about a page that is written at once; LateWriteIff says what one operation before the write does, and LateIsPrompt what any run does that spares both neighbours. Names so long that they run over memory behind the page are undefined behaviour there: BehindSurvivesIff says from which lengths on, and the model keeps what lies behind apart.
- UserReadsBackIff: characters that the loop reads behind the end of a name are arbitrary but for the NUL at its end.
- AlwaysCovered: the ring is a map from addresses to records, which is what the ring log provides with the header at offset 0; a group that changes while the loop runs over it is looked at once, as the loop starts.
- Tick: a callback is recorded; TickErasing has the one that the servers register. Callbacks that set or move timers are not modelled.
- Close: as for Tick; CloseErasing has the callback that erases its own timer.
- Replicate: a file that is changed while it is open for sending keeps the bytes it had; the size printed for a missing file is an arbitrary natural number up to the largest file size; the peer's file can be opened; the result of a writable event is 0, 1 or 2 without the rearming of the event.
- ReadProcess: two messages that arrive in one read are not both handled by it; the second waits for the next read, as in the code.
- AnnouncementArrives: whether connecting succeeds is an arbitrary sequence of outcomes; the socket behind it is not part of the model.
- ReadAll: reads that fail, which close the connection, are in ReadProcess and not here.
- Process: the table of accounts is a map that stays the same during a request; a request that has thrown is over, and its names are of no account.
- StoredIsSent: the file is not changed between the end of the upload and the sending of the task.
- ReceiveBody: Content-Length is a natural number; a buffer of 4 GB or more is not modelled.
- NoLostWakeup: excludes `clear`, `Close` and late timeouts, whose exact effects are stated beside it.
- Sockets, epoll, sendfile and the file system: results of calls are arbitrary legal values, files are byte strings in a map.
- The connection that a node opens on the announcement of another, and the message to the tracker after a change: recorded by name only.
- Recovery after a restart (`RedoTask_`, `Redo_`): the branch for finished entries is empty in the code.
- The layout of the sync log on disk: its pages are never filled; it is a map of entries with a done bit.
- The server tables and the flag thread of the tracker: wall clock and unsynchronised globals.
- HTML pages, response headers, MD5, configuration, text logging and everything that only builds SQL.
- `ThreadPool`: an easier instance of the argument for the blocking queue.
- `front`, `back`, `size`, `empty` and `full` of the queue: one-line reads under the mutex.
- The second copies of Buffer, BlockDeque and HeapTimer in the other half of the tree: each is modelled once.
