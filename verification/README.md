# Data Broker: the Redis back-end, verified

The Data Broker keeps tuples in named namespaces. Its Redis back-end turns each request into Redis
commands, sends them over one connection per server, takes the replies apart as they arrive, and decides
from them what a request does next. This project is a Dafny model of the parts of that back-end where most
can go wrong, of the wire format and the queue of the function-shipping server, and of the example data
adapter, together with proofs about them.

Where the code changes memory step by step the model does too: classes with fields and arrays, methods with
loops, each proved against a function that says what it computes. Protocols are state machines over their
steps, and their theorems are about every run. Where a property does not hold of the code, the model keeps the
code as it is, gives an input on which the property fails, and states exactly when it holds.

| files | subject |
|---|---|
| `Definitions` | error codes and limits |
| `Resp`, `RespParser`, `RespParserWhole`, `RespParserCut`, `RespParserFrame`, `RespSession`, `RespUnlucky`, `SrBuffer` | parsing replies out of a receive buffer that fills in arbitrary pieces |
| `Protocol`, `Commands`, `CommandsWire`, `CommandsRead`, `CommandBuilder`, `CommandFits`, `CommandCreate`, `CommandBatch` | the commands of every request stage, from template and shared send buffer to the bytes that Redis reads |
| `Detach`, `DetachScans`, `DetachHandler` | detaching from, and deleting, a namespace over all connections |
| `Directory`, `DirectoryNames`, `DirectoryHandler` | listing a namespace over all connections |
| `Matching`, `MatchingQueues`, `S2rQueue` | which request a reply belongs to, and where every request is |
| `Redis`, `RedisWords`, `TupleSpace`, `TupleLaws`, `NamespaceLaws`, `TupleRuns`, `TupleScans` | what Redis makes of the commands, and what tuples and namespaces are after any sequence of requests |
| `Crc`, `CrcCode` | the hash slot of a key |
| `SlotBitmap`, `Locator` | the slot table and its cover bitmap; losing and restoring a connection |
| `Namespaces`, `NsRing` | namespace objects, their checksum, and the sorted ring that holds them |
| `SgeTransfer` | short sends and receives of scatter/gather lists |
| `SgeWire`, `SgeWireCut`, `SgeWireCode` | the wire format of scatter/gather lists |
| `ConnQueue`, `FshipQueue` | the queue of active connections; the queue of pending shipped requests |
| `HelloAdapter` | the adapter that stores values in halves |

Bytes are modelled by `char` (nothing depends on a byte being below 256, except in `CrcCode` and `Namespaces`,
which say so). Integers are unbounded unless a width is written out. The clock, sockets, memory allocation
and the choices of the network and of the server are parameters: arrivals, answers, events.

## Results that differ from what the code is meant to do

- A reply cut right after the `$` of a bulk string is taken for a broken one, a part of a top-level body is handed
  on as a result, and a line can be completed by bytes left over in the buffer. `RespParserCut.Cut` is the exact
  outcome of every cut, and a stream is delivered exactly if every cut is one that is retried
  (`RespUnlucky.StreamDeliveredIff`).
- A detach or a directory request completes once for every scan that fails while another is in flight, and
  then once more (`Detach.CompletionsCounted`, `Directory.CompletionsCounted`, and a run of each that completes
  twice). A directory request over no connection never completes.
- A detach whose reply lacks the fields it asked for deletes the namespace, referenced or not
  (`Detach.DeletedIff`).
- Two namespaces share Redis keys exactly if one name followed by the separator begins the other's
  (`CommandsRead.NamespacesShareKeys`).
- A directory lists a tuple under another name than it was put with, exactly if the name of its namespace holds
  the separator or ends with a colon (`CommandsRead.ListedNameIff`).
- A command that fills the send buffer to the last byte is accepted although its last byte is lost; the
  bytes sent are the command exactly if one byte of the room stays free (`CommandCreate.Create`).
- A put whose key does not fit takes the error for a length: with ninety bytes in use it is accepted, the buffer
  goes back by ninety bytes and the list announces almost the whole address space
  (`CommandFits.OverflowIsAccepted`, `CommandCreate.LongKeyOverflows`). The commands of a batch are all sent right
  exactly if each of them fits (`CommandBatch.CreateAll`).
- If the replies of one request arrive in two pieces, the second piece is not given to that request
  (`Matching.NextReplyRightIff`).
- An empty or overlong key is hashed through its error code (`CrcCode.Hash`).
- A name with an odd number of negative character groups can be neither attached nor detached
  (`Namespaces.ValidIff`, `Namespaces.UnsoundNeverMoves`).
- After a short send that uses up an entry, what lies behind the list is sent too, unless it is empty
  (`SgeTransfer.OnlyTheListIff`).
- A namespace object that is damaged leaves the ring when it is removed, and is not freed (`NsRing.Remove`).
- A payload that begins with white space does not survive the wire format (`SgeWire.RoundTripIff`). A list that
  arrives in pieces is taken too early or taken for a broken one at some cuts; `SgeWireCut.ListIsCut` is the exact
  outcome of every cut, and retrying gives the list exactly if every cut is one that is retried (`SgeWireCut.RetryIff`).
- A tuple whose key is the name of a namespace, or a namespace whose name is the key of a tuple, cannot be used
  (`TupleScans.SharedKeyFails`, `TupleScans.SharedNameFails`).
- The scans of a namespace whose name has pattern characters find tuples of other namespaces
  (`TupleScans.PatternCharacters`).
- A value put between the stages of a move is lost, an attach between the stages of a create is forgotten
  (`TupleScans.MoveInterleaved`, `TupleScans.CreateForgetsAttaches`).
- A delete or detach of a namespace that does not exist leaves one that can be attached but not queried
  (`TupleScans.StrayIsAttached`).
- A ring queue with holes refuses a push although slots are free (`ConnQueue.HolesFillTheQueue`).

## Model

| member | source | states |
|---|---|---|
| `Resp.DecimalReadsBack` | backend/redis/parse.c:86-149 | the digits printed for a length are read back as that length |
| `RespParserWhole.IntegerWhole` | backend/redis/parse.c:86-149 | a complete integer is read with its value and its length, sign included |
| `RespParserWhole.BulkWhole` | backend/redis/parse.c:174-264 | a complete bulk string is found with its bytes, which may hold NUL and CR LF |
| `RespParserWhole.ParseWhole` | backend/redis/parse.c:270-488 | every complete reply, nested to any depth, is parsed to its value and consumed exactly, whatever memory follows |
| `RespParserWhole.ElementsWhole` | backend/redis/parse.c:433-468 | all elements of an array are parsed in order and consumed exactly |
| `RespParserWhole.NoNumberSkipped` | backend/redis/parse.c:113-149 | a line that announces no number: an integer is taken as none, an array length gives an error value, a bulk length ends the buffer |
| `RespParserCut.IntegerCut` | backend/redis/parse.c:86-149 | an integer cut anywhere is incomplete, whatever memory follows |
| `RespParserCut.BulkCut` | backend/redis/parse.c:174-264 | the exact result for a bulk string cut anywhere: broken after the marker, a part inside the body, else incomplete |
| `RespParserCut.ParseCut` | backend/redis/parse.c:270-488 | the exact outcome (retry, accepted part, broken) of an attempt on any reply cut anywhere, at any nesting, over any leftover memory |
| `RespParserCut.LuckyOverClearedMemory` | backend/redis/parse.c:270-488 | over cleared memory an attempt is retried if and only if the cut is neither behind a marker nor inside a top-level body |
| `RespParserCut.StaleLineEndAccepted` | backend/redis/parse.c:59-84 | an input on which leftover CR LF turns half a line into a reply |
| `RespSession.TerminateWhole` | backend/redis/result.c:62-107 | terminating the strings of a reply writes only into that reply |
| `RespSession.ViewWhole` | backend/redis/result.c:62-107 | after termination the result reads as exactly the reply, as C strings and integers |
| `RespSession.TopWhole` | backend/redis/parse.c:494-498 | a complete reply is parsed, consumed exactly and readable, and no byte outside it is written |
| `RespSession.TopCut` | backend/redis/parse.c:494-498 | an attempt on a cut reply asks for more if and only if the cut is a lucky one, and then position and every byte are as before |
| `RespSession.TopPart` | backend/redis/parse.c:405-425 | a top-level bulk string cut in its body: the part that is handed on begins at the body, has just the bytes received and announces the whole length; only the byte behind it is written |
| `RespSession.PartIsCompleted` | backend/redis/parse.c:672-701 | part and announced length are enough to complete the value: the next bytes of the stream, as many as are missing, make it whole, and the line end follows |
| `RespSession.TopCodes` | backend/redis/parse.c:270-488 | over any memory: no data if and only if there is none, else success, retry or a broken reply |
| `RespParserFrame.ParseSame` | backend/redis/parse.c:270-488 | a parse attempt depends on no memory before its position |
| `RespUnlucky.AcceptedSpoils` | backend/redis/parse.c:270-488 | a part of a reply, at any nesting, that is taken for a reply says something else than the reply, or what follows it cannot begin a reply |
| `RespUnlucky.BrokenIsHopeless` | backend/redis/parse.c:270-488 | a part that is taken for a broken reply cannot be terminated, however deep it is nested |
| `RespUnlucky.WrongResultStays` | backend/redis/receiver.c:161-189 | a wrong result is never taken back |
| `RespUnlucky.NoReplyFollows` | backend/redis/receiver.c:161-189 | a byte that cannot begin a reply ends the session with an error |
| `RespUnlucky.StreamDeliveredIff` | backend/redis/receiver.c:161-189 | any stream of replies, cut into any arrivals, over any leftover memory, is delivered in order and consumed whole if and only if every cut is lucky |
| `RespUnlucky.ClearedStreamDeliveredIff` | backend/redis/receiver.c:161-189 | over cleared memory it is delivered if and only if no arrival ends behind a marker or inside a top-level body |
| `SrBuffer.Buffer.AddData` | backend/transports/sr_buffer.h:153-167 | data is added up to the size and no further; an amount over half the address space wraps around and goes back |
| `SrBuffer.Buffer.Advance` | backend/transports/sr_buffer.h:175-190 | the position moves up to the received data and no further |
| `SrBuffer.Buffer.RewindProcessedTo` | backend/transports/sr_buffer.h:238-255 | only a position inside the received data is taken |
| `SrBuffer.Buffer.ExtractInteger` | backend/redis/parse.c:86-149 | the digit loop computes the integer scan, for any memory |
| `SrBuffer.Buffer.FindTerminator` | backend/redis/parse.c:152-168 | the search that tolerates NUL finds the first line end inside its limit |
| `SrBuffer.Buffer.ExtractBulk` | backend/redis/parse.c:174-264 | the in-place extraction computes the bulk scan, for any memory |
| `SrBuffer.Buffer.TerminateStrings` | backend/redis/result.c:62-107 | the recursive in-place termination computes the memory of the specification |
| `SrBuffer.Buffer.ParseCheck` | backend/redis/parse.c:270-488 | the parser on the buffer computes the parse; a retry leaves position and data unchanged |
| `SrBuffer.Buffer.ParseArray` | backend/redis/parse.c:433-468 | the element loop computes the elements and rewinds on a retry |
| `Protocol.ExpandFills` | backend/redis/redis_cmds.h:333-391 | expanding a template is the template with each place replaced by its argument |
| `Commands.IndexTextIsBulk` | backend/redis/redis_cmds.h:448-453 | the index of a read, with a length taken from its logarithm, is a well-formed bulk string |
| `CommandsWire.TemplatesAreSound` | backend/redis/protocol.c:57-378 | templates name only arguments that their stage has, and hold no other percent sign |
| `CommandsWire.CommandsOnTheWire` | backend/redis/protocol.c:57-378 | for every stage and all arguments, the expanded template is the encoding of exactly the commands meant, as many as replies are awaited |
| `CommandsRead.SameBytesSameWords` | backend/redis/redis_cmds.h:333-391 | the bytes of a command determine its words: no two commands look alike |
| `CommandsRead.KeysDiffer` | backend/redis/redis_cmds.h:75-89 | different tuple names of one namespace have different Redis keys |
| `CommandsRead.NamespacesShareKeys` | backend/redis/redis_cmds.h:75-89 | two namespaces can share a Redis key if and only if one name and separator begin the other |
| `CommandsRead.NamespacesOverlap` | backend/redis/definitions.h:132-133 | two different names whose namespaces do share a key |
| `CommandsRead.ColonIsListed` | backend/redis/parse.c:1005-1011 | a namespace whose tuples are listed under other names |
| `CommandsRead.ListedNameIff` | backend/redis/parse.c:1005-1011 | a tuple is listed under the name it was put with if and only if the name of its namespace neither holds the separator nor ends with its first character |
| `CommandBuilder.FindPlace` | backend/redis/redis_cmds.h:344-349 | the next percent sign, or the end |
| `CommandBuilder.CreateSgeN` | backend/redis/redis_cmds.h:333-391 | the list gathered from template pieces and arguments flattens to the expansion; a bad place gives -EBADMSG, NULL ends the expansion |
| `CommandBuilder.CreateField` | backend/redis/redis_cmds.h:206-227 | a text is refused if it is longer than the room; it is held intact if and only if a byte stays free |
| `CommandBuilder.CreateFields` | backend/redis/redis_cmds.h:761-782 | several fields, one after the other, are all held if and only if a byte stays free |
| `CommandFits.KeyTextMeasured` | backend/redis/redis_cmds.h:80-87 | a key that fits is measured right although its length is taken only as far as the room |
| `CommandFits.GatheredIff` | backend/redis/redis_cmds.h:333-391 | arguments of the right lengths give the command if and only if they are the right arguments |
| `CommandFits.PrefixMeasured` | backend/redis/redis_cmds.h:924-931 | the room that the logarithm asks for is that of the next number |
| `CommandFits.FittingIsAccepted` | backend/redis/redis_cmds.h:206-227 | a command that fits is accepted and takes the room of its texts |
| `CommandFits.RoomyFits` | backend/redis/create.c:289-491 | a command whose key is within its limit fits every room that is longer than its bytes |
| `CommandFits.OverflowIsAccepted` | backend/redis/redis_cmds.h:905-912 | a put whose key does not fit is accepted if and only if at least ninety bytes of the buffer are in use |
| `CommandCreate.CreateKey` | backend/redis/redis_cmds.h:66-177 | the key of every stage, with the error of each: -EMSGSIZE where the length is checked, -E2BIG where the buffer is; what the buffer held stays |
| `CommandCreate.CreateKeyed` | backend/redis/redis_cmds.h:411-857 | key and fields of every command but put and scan: refused with this code, or right if and only if all fits |
| `CommandCreate.CreateScan` | backend/redis/create.c:256-287 | a scan: refused with this code, or right if and only if all fits |
| `CommandCreate.CreateOverflowingPut` | backend/redis/redis_cmds.h:905-912 | a key that does not fit: the error becomes a length, the buffer goes back by ninety bytes, and the list announces other bytes than the command has |
| `CommandCreate.CreatePut` | backend/redis/redis_cmds.h:893-958 | a put of any key and any bytes in any number of pieces: refused with this code, or right if and only if all fits |
| `CommandCreate.Create` | backend/redis/create.c:289-491 | the command of any stage of any request, in any room: the exact error, or the exact bytes if and only if a byte stays free; unless an overflowing put is accepted, what the buffer held stays and the list lies behind it |
| `CommandCreate.ExactRoomIsAccepted` | backend/redis/redis_cmds.h:217-221 | the commands that are accepted although they are damaged |
| `CommandCreate.LongKeyOverflows` | backend/redis/redis_cmds.h:905-912 | a namespace and a key of 1020 bytes, both allowed, overflow in every buffer |
| `CommandBatch.CreateAll` | backend/redis/sender.c:346-399 | the lists of any requests that share the send buffer all send their commands, when all have been created, if and only if each fits the room left for it |
| `CommandBatch.ConnectionSends` | backend/redis/sender.c:371-383 | the list that a connection collects sends the commands of its requests one after another |
| `CommandBatch.ConnectionIsRead` | backend/redis/sender.c:371-383 | read by the parser, what a connection sends is as many arrays as replies are awaited, each with the words of its command, and nothing more |
| `Detach.DeletedIff` | backend/redis/parse.c:1331-1372 | a namespace is deleted if and only if it is unreferenced and marked, or the reply lacks the fields that would say so |
| `Detach.UnmarkedIsDeleted` | backend/redis/parse.c:1331-1372 | a reply on which a referenced namespace without a mark is deleted |
| `Detach.StepKeepsInv` | backend/redis/parse.c:1374-1636 | every answer keeps the invariant that ties counter, sub-requests and collected keys together |
| `Detach.CounterIsExact` | backend/redis/refcounter.h:64-84 | in every run the counter is the number of scans and key deletions in flight |
| `Detach.CompletionsCounted` | backend/redis/parse.c:1374-1636 | in every run the number of completions is that of early scan failures, plus one once nothing is in flight |
| `Detach.StepRecords` | backend/redis/parse.c:1534-1587 | no step forgets a connection, a key or an answer, and every key that a scan returns is queued for deletion |
| `Detach.RunIsTruthful` | backend/redis/parse.c:1511-1613 | what is recorded as finished, failed or deleted has happened in the run |
| `Detach.NamespaceDeletedLast` | backend/redis/parse.c:1511-1613 | when the namespace is deleted, every scan has returned cursor 0 or failed, and every key that was returned has had its deletion answered |
| `Detach.KeepNeverDeletes` | backend/redis/parse.c:1498-1507 | without a verdict to delete nothing is ever deleted, and the request completes once |
| `DetachScans.CursorsFollowOn` | backend/redis/parse.c:1560-1573 | in every run, a scan in flight carries the cursor that its last answer gave, "0" if there was none |
| `DetachScans.NamespaceScanned` | backend/redis/parse.c:1511-1613 | when the namespace is deleted, every connection has failed or has been scanned in one unbroken iteration: the first scan asks for cursor 0, each next one for the cursor of the answer before, the last answer gives 0 |
| `DetachScans.StringsIff` | backend/redis/parse.c:1534-1558 | the keys taken from an answer are just its strings |
| `DetachScans.OnlyReturnedAreDeleted` | backend/redis/parse.c:1534-1558 | no key is deleted that no scan returned |
| `DetachScans.VerdictIff` | backend/redis/parse.c:1331-1372 | for every verdict on count and flags, the replies that give it, and no others |
| `DetachScans.CompletionsReported` | backend/redis/parse.c:1374-1636 | every completion of every run has the code that an answer of the run calls for |
| `DetachScans.SuccessMeans` | backend/redis/parse.c:1374-1636 | success is reported only for a namespace that was kept or whose deletion was answered with 1 |
| `Detach.EarlyFailureCompletesTwice` | backend/redis/parse.c:1528-1532 | a run in which a detach completes twice |
| `DetachHandler.Handler.Judge` | backend/redis/parse.c:1331-1372 | the loop over count and fields gives the verdict |
| `DetachHandler.Handler.ProcessDelCheck` | backend/redis/parse.c:1389-1509 | the check of count and flags: keep, refuse, or scan every connection |
| `DetachHandler.Handler.ProcessScan` | backend/redis/parse.c:1511-1588 | a scan reply in place is the step of the protocol: keys queued, the scan repeated with the cursor of the answer, counter taken down, the last one deletes the namespace |
| `DetachHandler.Handler.QueueKeys` | backend/redis/parse.c:1534-1558 | one deletion is queued for each key, in order, and counted |
| `DetachHandler.Handler.ProcessDelKeys` | backend/redis/parse.c:1590-1613 | a deletion that is answered is counted down; the last one deletes the namespace |
| `DetachHandler.Handler.Receive` | backend/redis/receiver.c:345-423 | handling an answer in place is a step of the protocol and keeps its invariant |
| `Directory.StepKeepsInv` | backend/redis/parse.c:923-1085 | every answer keeps the invariant on scans, key count, buffer and completions |
| `Directory.BufferHoldsListing` | backend/redis/parse.c:996-1037 | at every moment the buffer holds the first names that arrived, up to the limit, joined and cut where it ends |
| `Directory.CompletionsCounted` | backend/redis/parse.c:982-1078 | in every run the number of completions is that of early failures, plus one when no scan is in flight; success is reported at most once |
| `Directory.RunIsTruthful` | backend/redis/parse.c:982-1078 | a connection is recorded as scanned to its end, given up or failed if and only if an answer of the run says so |
| `Directory.CursorsFollowOn` | backend/redis/parse.c:1042-1062 | a scan in flight carries the cursor of the last answer of its connection: each connection is scanned in one unbroken iteration |
| `Directory.ListingIsComplete` | backend/redis/parse.c:1038-1078 | once a listing without failed answers, below its limit, has nothing in flight: every connection has answered with cursor 0 last, and every name that any answer brought is listed |
| `DirectoryNames.NameFollowsFirst` | backend/redis/parse.c:1005-1011 | the name is what follows the first separator of a key |
| `DirectoryNames.NoNameIff` | backend/redis/parse.c:1005-1010 | a key has no name if and only if it has no separator |
| `DirectoryNames.NamesSnoc` | backend/redis/parse.c:998-1037 | the names of a reply are those of its keys, one by one, until a key without separator |
| `DirectoryNames.CollectedIff` | backend/redis/parse.c:998-1037 | the loop stops at the limit if and only if more names come than it leaves room for, and else at the first stray key, if there is one |
| `DirectoryNames.CompletionsReported` | backend/redis/parse.c:936-1078 | every completion of every run has the code that an answer of the run calls for, and the length of the listing after it |
| `Directory.EarlyFailureCompletesTwice` | backend/redis/parse.c:982-994 | a run in which a listing completes twice |
| `Directory.NoConnectionNeverCompletes` | backend/redis/parse.c:956-978 | over no connection the request is lost |
| `Directory.JoinedIsJoin` | backend/redis/parse.c:1014-1019 | names are separated by newlines if and only if the first is not empty or is the only one |
| `DirectoryHandler.Handler.Write` | backend/redis/parse.c:1014-1033 | appending to the user buffer in place, cut where it ends |
| `DirectoryHandler.Handler.CollectKeys` | backend/redis/parse.c:998-1037 | the loop over keys accepts what the specification accepts and stops where it stops |
| `DirectoryHandler.Handler.Receive` | backend/redis/parse.c:982-1078 | handling a scan reply in place is a step of the protocol and keeps its invariant |
| `DirectoryHandler.Handler.ReceiveMeta` | backend/redis/parse.c:936-981 | handling the namespace reply in place is a step of the protocol |
| `Matching.BatchMatches` | backend/redis/receiver.c:128-148 | whatever replies a buffer holds from a group boundary on, each goes to the request that caused it, and all these requests are handled |
| `Matching.NextReplyRightIff` | backend/redis/receiver.c:381-385 | after a batch the next reply is matched right if and only if the batch ended with a whole group |
| `Matching.StepKeepsInv` | backend/redis/sender.c:346-399 | every step of sender, server and receiver keeps the posted queue in the order of replies, wire and command buffer |
| `Matching.EveryReplyMatched` | backend/redis/receiver.c:128-148 | in every run over any number of connections, with connections that are lost and requests that are resent or dropped, the replies that arrive are given, all and in their order, each to the request, and the sending of it, that caused it |
| `MatchingQueues.RequestsConserved` | backend/redis/receiver.c:97-102 | in every run and for every request: it has been posted as often as it waits, is buffered or is awaited now, has been completed, or has been dropped |
| `MatchingQueues.NothingForgotten` | backend/redis/receiver.c:97-102 | when nothing waits and nothing is awaited, every posted request has been completed or dropped |
| `MatchingQueues.AgainGoesLast` | backend/redis/receiver.c:406-430 | a request that is sent again goes behind all that wait, in the order of the replies and with the number of replies of its next stage |
| `MatchingQueues.LostGoLast` | backend/redis/receiver.c:97-102 | the requests of a lost connection go behind all that wait, in their order |
| `MatchingQueues.FirstIsSent` | backend/redis/sender.c:193-204 | what is sent is the first to be sent again, if any, else the first new request; nothing else moves |
| `S2rQueue.Queue.Push` | backend/redis/s2r_queue.c:78-94 | appends to the linked queue |
| `S2rQueue.Queue.Pop` | backend/redis/s2r_queue.c:99-119 | takes the first request, NULL if and only if there is none, and detaches it |
| `S2rQueue.ReceiveBatch` | backend/redis/receiver.c:128-148 | the loop over a batch of replies, on the linked queue, does what the matching theorems are about |
| `RedisWords.HeardIsSaid` | backend/redis/redis_cmds.h:333-391 | a server that parses the bytes hears the words of every command |
| `RedisWords.EffectIsSaid` | backend/redis/protocol.c:57-378 | what the bytes of any stage do to the store is what its commands do |
| `TupleSpace.NextStage` | backend/redis/protocol.c:57-378 | a stage is final if and only if it is the last one of its request |
| `TupleSpace.ResultOnce` | backend/redis/protocol.c:57-378 | every request has exactly one stage that says what the user is told |
| `TupleLaws.PutLaw` | backend/redis/parse.c:503-521 | a put appends the value to its tuple and tells the new length; nothing else changes |
| `TupleLaws.GetLaw` | backend/redis/parse.c:642-772 | a get takes the oldest value; without one it fails with -ENOENT or keeps polling |
| `TupleLaws.ReadLaw` | backend/redis/parse.c:642-772 | a read gives the value at its index and changes nothing |
| `TupleLaws.RemoveLaw` | backend/redis/parse.c:774-804 | a remove leaves the tuple empty and fails if and only if it was |
| `TupleLaws.MoveLaw` | backend/redis/parse.c:806-919 | the three stages of a move take a tuple, values in order, to a namespace where it is free; otherwise nothing changes and the code says why |
| `NamespaceLaws.CreateLaw` | backend/redis/parse.c:1165-1203 | a create of a new name makes a namespace with its id, its groups, one reference and no mark; of an existing one it changes nothing |
| `NamespaceLaws.AttachLaw` | backend/redis/parse.c:1292-1329 | an attach adds one reference, or finds nothing to attach to |
| `NamespaceLaws.DetachLaw` | backend/redis/parse.c:1331-1509 | a detach takes one reference; which verdict follows is told by what is left and by the mark |
| `NamespaceLaws.DeleteLaw` | backend/redis/parse.c:1638-1715 | a delete marks the namespace and tells how many others use it |
| `NamespaceLaws.QueryLaw` | backend/redis/parse.c:1205-1290 | a query succeeds if and only if the namespace exists, and changes nothing |
| `NamespaceLaws.QueryTells` | backend/redis/parse.c:1205-1290 | the reply of a query holds id, count, groups and mark, each behind its name |
| `TupleRuns.SpaceRefined` | backend/redis/protocol.c:57-378 | after any sequence of requests the store holds, for every tuple and every namespace, what the tuple space of values and reference counts holds |
| `TupleRuns.AnswersRefined` | backend/redis/receiver.c:379-430 | every request of any sequence is answered as that tuple space answers it |
| `TupleRuns.FirstInFirstOut` | backend/redis/protocol.c:57-378 | over any stretch of requests that neither moves nor removes a tuple: its values before and those put are those that the gets return followed by its values after |
| `TupleRuns.CountIsBalance` | backend/redis/protocol.c:57-378 | over any stretch of requests the count of an existing namespace changes by attaches minus detaches, and its id and groups stay |
| `TupleScans.ScanEffect` | backend/redis/create.c:256-287 | the scan of any stage asks for its cursor and for the keys of its namespace that match |
| `TupleScans.PatternFinds` | backend/redis/redis_cmds.h:75-89 | without pattern characters in the name, the pattern of a namespace matches just the keys of its tuples |
| `TupleScans.PatternCharacters` | backend/redis/redis_cmds.h:75-89 | a name whose pattern matches a tuple of another namespace |
| `TupleScans.IterationLists` | backend/redis/parse.c:1038-1062 | an iteration that follows its cursors to 0 lists just the tuples of the namespace |
| `TupleScans.NamespaceIsGone` | backend/redis/parse.c:1534-1613 | deleting the listed keys and then the namespace removes its tuples and itself, and nothing else |
| `TupleScans.MetaFinds` | backend/redis/parse.c:936-950 | the first stage of a directory finds the namespace if and only if it is there |
| `TupleScans.SharedKeyFails` | backend/redis/parse.c:503-521 | a put to a key that is the name of a namespace fails and changes nothing |
| `TupleScans.SharedNameFails` | backend/redis/parse.c:1165-1203 | a create of a name that is the key of a tuple fails and changes nothing |
| `TupleScans.MoveInterleaved` | backend/redis/parse.c:806-919 | what is put between the stages of a move is lost: the target gets what was dumped |
| `TupleScans.CreateForgetsAttaches` | backend/redis/parse.c:1165-1203 | the second stage of a create sets the count to one, whoever attached before |
| `TupleScans.StrayIsAttached` | backend/redis/parse.c:1638-1715 | deleting a namespace that does not exist leaves one that can be attached and not queried |
| `Crc.DivisionUnique` | backend/redis/crc16.h:33-81 | quotient and remainder by the generator are unique |
| `Crc.RegisterIsRemainder` | backend/redis/crc16.h:58-78 | after any bits the register is the only remainder of these bits modulo x^16 + x^12 + x^5 + 1 |
| `Crc.PaddedIsDirect` | backend/redis/crc16.h:48-51 | with sixteen zeros appended, the register is the direct CRC-16/XMODEM |
| `Crc.RegisterLinear` | backend/redis/crc16.h:58-78 | the register of a sum is the sum of the registers |
| `CrcCode.GeneratorValue` | backend/redis/crc16.h:30 | the constant of the loop is that generator |
| `CrcCode.CrcRemainder` | backend/redis/crc16.h:33-81 | the nested loops compute the remainder of the key times x^16, or the error code |
| `CrcCode.ByteValue` | backend/redis/crc16.h:60-67 | the masks of the loop read the bits of a byte |
| `CrcCode.CrcIsXmodem` | backend/redis/crc16.h:33-81 | the remainder of a key is its CRC-16/XMODEM |
| `CrcCode.CrcLinear` | backend/redis/crc16.h:33-81 | remainders of keys of one length are linear under exclusive or |
| `CrcCode.Hash` | backend/redis/locator.c:163-166 | the slot is the CRC modulo 16384; error codes are hashed too |
| `SlotBitmap.LowestZero` | backend/redis/slot_bitmap.h:138-148 | the lowest zero bit of a word, -1 if and only if it is full |
| `SlotBitmap.Bitmap.Set` | backend/redis/slot_bitmap.h:80-93 | sets one slot and no other; the top level stays exact |
| `SlotBitmap.Bitmap.Unset` | backend/redis/slot_bitmap.h:95-105 | unsets one slot and no other; the top level stays exact |
| `SlotBitmap.Bitmap.Reset` | backend/redis/slot_bitmap.h:107-113 | unsets all slots |
| `SlotBitmap.Bitmap.Get` | backend/redis/slot_bitmap.h:115-126 | 1 if and only if the slot is set; -EINVAL outside |
| `SlotBitmap.Bitmap.FullIsComplete` | backend/redis/slot_bitmap.h:61-71 | the four top words are full if and only if all 16384 slots are set |
| `SlotBitmap.Bitmap.Full` | backend/redis/slot_bitmap.h:61-71 | 1 if and only if every slot is set |
| `SlotBitmap.Bitmap.GetFirstUnset` | backend/redis/slot_bitmap.h:128-152 | the least slot that is not set, -1 if and only if there is none |
| `Locator.Table.GetConnIndex` | backend/redis/locator.c:71-78 | a connection is found for exactly the slots that the cover bitmap has |
| `Locator.Table.AssignConnIndex` | backend/redis/locator.c:83-98 | assigns one slot; a cover bit is set if and only if the index is valid |
| `Locator.Table.RemoveConnIndex` | backend/redis/locator.c:103-114 | takes one slot out, of table and cover |
| `Locator.Table.AssociateRange` | backend/redis/locator.c:119-131 | assigns a range, and refuses it after assigning what is inside the table |
| `Locator.Table.ReassociateConnIndex` | backend/redis/locator.c:140-161 | every slot of one index, and no other, goes to another; they are counted |
| `Locator.Table.HashCovered` | backend/redis/locator.c:169-175 | 1 if and only if every slot names a connection |
| `Locator.Table.RestoreConnection` | backend/redis/conn_mgr.c:263-282 | the slots of a bitmap are assigned to a connection, and no other |
| `Locator.RestoredIff` | backend/redis/conn_mgr.c:228-282 | failing and restoring a connection gives the table back if and only if it remembers just its slots; in between no slot names it |
| `Locator.FailAndRecover` | backend/redis/receiver.c:97-109 | a connection that remembers its slots fails and recovers without a trace in table and cover |
| `Namespaces.NameSumSign` | backend/redis/namespace.c:33-45 | the sum over a name is negative if and only if an odd number of its groups is |
| `Namespaces.AsciiIsSound` | backend/redis/namespace.c:33-45 | names of ASCII characters have no negative group |
| `Namespaces.ChecksumParts` | backend/redis/namespace.c:57-61 | the parts of the checksum are count and length, the latter if and only if the name is sound |
| `Namespaces.ValidIff` | backend/redis/namespace.c:47-67 | an object is valid if and only if its count is in 1..0xFFFE, its name is sound and its checksum is the recomputed one |
| `Namespaces.CountIsBalance` | backend/redis/namespace.c:119-153 | the count is one plus attaches minus detaches, as long as that stayed in range |
| `Namespaces.StuckForGood` | backend/redis/namespace.c:125-130 | a count that ran over, and an object that is gone, stay so |
| `Namespaces.UnsoundNeverMoves` | backend/redis/namespace.c:119-153 | an object with an unsound name is never attached or detached |
| `Namespaces.UnsoundExists` | backend/redis/namespace.c:33-45 | a name that is not sound |
| `Namespaces.OutcomeOfIntact` | backend/redis/namespace.c:119-153 | on an intact object, count and soundness of the name alone decide what attach and detach do |
| `Namespaces.CreateNamespace` | backend/redis/namespace.c:69-98 | an object with one reference and an exact checksum, or E2BIG |
| `Namespaces.Namespace.Recompute` | backend/redis/namespace.c:33-45 | the loop over groups of four computes the checksum |
| `Namespaces.Namespace.Validate` | backend/redis/namespace.c:47-67 | the checks compute the verdict on any fields |
| `Namespaces.Namespace.AttachNs` | backend/redis/namespace.c:119-133 | on any fields: refused with the verdict and left alone, or a step of the count; an intact object stays intact |
| `Namespaces.Namespace.DetachNs` | backend/redis/namespace.c:135-153 | on any fields: refused with the verdict and left alone, or a step of the count; an intact object stays intact |
| `Namespaces.Namespace.Destroy` | backend/redis/namespace.c:100-117 | only a valid object with one reference is destroyed |
| `NsRing.CompareChains` | backend/redis/namespace.c:186 | names are ordered transitively |
| `NsRing.SortedInserted` | backend/redis/namespace.c:265-279 | a name inserted at its place leaves the names strictly sorted |
| `NsRing.Find` | backend/redis/namespace.c:177-218 | from any node the search ends with the node of the name, or with the node after which the name belongs |
| `NsRing.Get` | backend/redis/namespace.c:220-236 | finds a node if and only if the name is there |
| `NsRing.Insert` | backend/redis/namespace.c:238-281 | the ring stays linked and strictly sorted and gains the name, or nothing changes because it has it |
| `NsRing.Unlink` | backend/redis/namespace.c:302-310 | the ring without a node is linked and sorted and has lost just that name |
| `NsRing.Remove` | backend/redis/namespace.c:283-313 | detaches first; a namespace in use stays, any other, also a damaged one, leaves the ring, which stays linked and sorted |
| `SgeTransfer.GetLen` | backend/common/sge.h:60-69 | the total length of a list |
| `SgeTransfer.SgeBuffer.Shrink` | backend/network/socket_io.c:60-79 | after n bytes the list stands for the old region without its first n bytes; freed places hold what was behind the list |
| `SgeTransfer.SgeBuffer.Send` | backend/network/socket_io.c:24-96 | any sequence of short sends sends the list first and completes if and only if the answers take it all; exactly these addresses are sent |
| `SgeTransfer.SgeBuffer.Receive` | backend/transports/smallcopy.c:62-132 | any sequence of short receives writes the addresses of the list in order, as one receive would |
| `SgeTransfer.OnlyTheListIff` | backend/network/socket_io.c:36-79 | whatever short answers come, no byte but those of the list is sent: if and only if what lies behind the list is empty, or its first entry is all there is, or at most one byte is |
| `SgeTransfer.OfferedIff` | backend/network/socket_io.c:36-38 | the socket is offered just what remains if and only if no entry was used up or the one behind is empty |
| `SgeTransfer.StaleEntryIsSent` | backend/network/socket_io.c:60-79 | a list behind which a stale byte is sent |
| `SgeWire.LensRead` | backend/common/sge.h:223-241 | the lengths are read back, and all white space behind the last one is taken |
| `SgeWire.SegmentContents` | backend/common/sge.h:291-308 | the segments hold the entries; NULL is told from empty |
| `SgeWire.RoundTripIff` | backend/common/sge.h:184-321 | a list that was written is read back, and reading takes just the bytes written, if and only if no further white space follows its lengths |
| `SgeWire.BlankIsLost` | backend/common/sge.h:184-254 | a list that is not read back |
| `SgeWireCode.SerializeHeader` | backend/common/sge.h:77-123 | the header is written, or the exact error returned |
| `SgeWireCode.Serialize` | backend/common/sge.h:126-163 | the list is written in place if and only if it leaves a byte for its NUL |
| `SgeWireCode.ReadLens` | backend/common/sge.h:223-241 | the loop over lengths computes the scan, for any memory |
| `SgeWireCode.ReadHeader` | backend/common/sge.h:184-254 | computes the header, for any memory |
| `SgeWireCode.ReadList` | backend/common/sge.h:257-321 | computes the list, for any memory |
| `SgeWireCut.PayloadIsCut` | backend/common/sge.h:257-321 | a list cut behind its lengths, over any memory, is retried; it is broken if and only if white space follows the lengths to behind the cut |
| `SgeWireCut.ListIsCut` | backend/common/sge.h:184-321 | the exact outcome of reading a list cut anywhere (retry, broken, or taken as it is) |
| `SgeWireCut.RetryIff` | src/fship_srv/fship_srv.c:262-310 | reading again whenever more has arrived gives the list if and only if every cut was one that is retried and no further white space follows the lengths |
| `SgeWireCut.EmptyEntriesTaken` | backend/common/sge.h:223-254 | a list that is taken before it has arrived |
| `SgeWireCut.StaleLengthBreaks` | backend/common/sge.h:223-254 | a length completed by leftover bytes turns a cut that is retried into a broken list |
| `ConnQueue.Queue.Push` | backend/network/connection_queue.h:158-186 | appends, unless the positions in use have come full circle; slots outside them stay NULL |
| `ConnQueue.Queue.Pop` | backend/network/connection_queue.h:87-144 | takes the first connection left, NULL if and only if there is none; resets lose nothing |
| `ConnQueue.Queue.Remove` | backend/network/connection_queue.h:188-219 | takes out every occurrence of a connection and keeps the order of the others |
| `ConnQueue.HolesFillTheQueue` | backend/network/connection_queue.h:170-175 | a queue that refuses a push although a slot is free |
| `FshipQueue.Queue.Push` | src/fship_srv/fship_request_queue.h:39-54 | appends to the linked queue |
| `FshipQueue.Queue.Pop` | src/fship_srv/fship_request_queue.h:56-87 | the head leaves, pending or not, with just the completed contexts behind it, each released once and in posting order |
| `FshipQueue.Queue.Complete` | src/fship_srv/fship_srv.c:983-1021 | completing in any order leaves the pending contexts in posting order, with a pending head |
| `FshipQueue.Queue.Find` | src/fship_srv/fship_request_queue.h:107-115 | the first context of a user handle |
| `FshipQueue.Queue.EmptyIffCompleted` | src/fship_srv/fship_srv.c:1010-1019 | the queue is empty if and only if all is completed, and then all has been released |
| `HelloAdapter.Split` | utilities/data_adapter/hello.c:36-74 | two requests for each request of the chain, one for each half |
| `HelloAdapter.HalvesCover` | utilities/data_adapter/hello.c:59-65 | the halves cover the memory without gap or overlap, also for odd lengths |
| `HelloAdapter.PostRead` | utilities/data_adapter/hello.c:139-168 | parts that came back short are moved together in place; the buffer holds their data in one piece |
| `HelloAdapter.WriteAndRead` | utilities/data_adapter/hello.c:84-168 | a value written and read back into any buffer that is long enough is whole and has its size |

## Left out

- SrBuffer.Buffer.ParseArray: an array length below zero and a failed allocation are not modelled.
- SrBuffer.Buffer.TerminateStrings: a write past the end of the memory is dropped here.
- RespUnlucky.StreamDeliveredIff: the receiver's handling of a broken reply ends the session here; a part of a large value is neither received further through the transport nor, as the copying transport has it, parsed again from the start of the buffer.
- CommandCreate.Create: texts are shorter than a gigabyte, so that the lengths printed are ints; where a refused command leaves the buffer positions is not stated; the length of a group list is taken to be that of its string, and a bounded number of scatter/gather entries is not modelled.
- CommandCreate.CreateScan: bytes that would be written past the end of the send buffer are dropped here.
- CommandFits.PrefixMeasured: logarithms are exact, not floating point.
- CommandsRead.NamespacesShareKeys: names with pattern characters are not considered here.
- CommandBatch.CreateAll: the limits on the number of requests and of scatter/gather entries in a batch are not modelled.
- Detach.CompletionsCounted: the lifetime of the user's request after an early completion is not modelled; HMGET replies hold the fields that were asked for.
- Directory.BufferHoldsListing: keys are C strings; the user buffer is one stretch of memory.
- Matching.EveryReplyMatched: redirects and cluster errors are requests that are sent again; a send that fails, after which commands stay in the buffers of other connections, is not modelled.
- CrcCode.Hash: the hash tags of Redis, which the source does not know either.
- Namespaces.Namespace.AttachNs: characters are signed, as on the common platforms; objects are not used after they are freed.
- NsRing.Remove: freeing is modelled by leaving the ring.
- Locator.FailAndRecover: the lists of connections and broken connections, which the same functions change, are not modelled.
- SgeWireCode.ReadHeader: a list that the caller supplies is not modelled; the list is always newly allocated.
- ConnQueue.Queue.Pop: waiting for a connection, and the lock, are not modelled.
- HelloAdapter.PostRead: chains of more than one user request share one buffer in the source; here one request is read.
- TupleRuns.SpaceRefined: requests are performed one after another; tuple keys are different from names of namespaces, as the witnesses about shared keys demand; counts stay in the range of 64 bits; a detach is followed up to its verdict, and from there by the runs of its own protocol.
- TupleLaws.GetLaw: the transfer of values into the user's buffers, with its error for one that is too short, is not modelled.
- NamespaceLaws.QueryTells: joining the reply into the user's buffer is not modelled.
- TupleScans.PatternFinds: character classes in patterns are not modelled, so names without pattern characters have none of these either.
- TupleScans.IterationLists: the store does not change during the iteration; Redis promises to list what is there throughout.
- SgeWireCut.ListIsCut: the byte behind the data continues no number, which the server ensures by a NUL there.
- The iterator: its replies, and the keys it keeps between calls, are not modelled.
- Fail-over to a new master, cluster information, authentication, address resolution: decisions over foreign data without an invariant that the code keeps.
- Moving unprocessed data to the front of a receive buffer: the source subtracts the same amount from both positions, so it does not keep the data.
- Request and completion queues of the common layer, the tag allocator and the client API: thin, with nothing that spans operations.
- Sockets, events, threads, timeouts, logging, environment and memory allocation.
