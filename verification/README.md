# Verified model of the libport attestation daemon

This project models the parts below of the daemon and its client library and proves how they behave.

* **Port manager.** It keeps the managed ports in two ordered maps of half-open segments, one free and one
  allocated. `PortModel` gives every public call as a function on values, `PortManager` the object that updates its
  maps in place with 32-bit arithmetic. `PortSteps`, `PortCoalescing`, `PortRuns` and `PortRoundTrips` hold the
  properties, over the helper modules `OrderedMap` and `Segments`.
* **Principal table.** A multimap from ids to generations, a 64-bit counter and a remote metadata service whose calls
  can fail. `Principals` cuts the handlers into their atomic steps and lets any number of them interleave;
  `PrincipalSafety` and `PrincipalRuns` hold the invariant and its consequences; `PrincipalTable` is the object.
* **Framing and sessions.** `Framing` and `Sockets` cover the size-prefixed messages on a socket that transfers bytes in
  any pieces; `SessionModel` and `Session` are the daemon session driven by completion callbacks, `SessionSafety`
  what every run keeps, and `SessionService` what a client sends and gets.
* **The daemon.** `Daemon` puts any number of sessions over one principal table and proves who can
  delete from it and what the answers of its handlers tell the client.
* **Numbers and records.** `Numbers` and `Records` cover printing and reading integers with base detection and the JSON
  forms built on top.

The models follow the code where it and its documentation differ:

* `deallocate` looks up a key it has just erased (`port_manager.h:118-121`). The partition survives this; maximal free
  segments do not, and the internal error ruled out by the comment at `port_manager.h:218-219` becomes reachable.
  Both the exact condition and the behaviour with the intended lookup are proved.
* `port_manager.h:113` reads through the iterator before testing it for the end; the model reads it only when it is
  valid, as its value is not used otherwise.
* Counts of zero and empty or backwards ranges are not rejected by the code. They are modelled, and the exact cases in
  which they break the partition are proved.
* A message of more than 2^31 - 9 bytes has a negative size as the `int` argument of the send loop: nothing is sent and
  success is reported.
* The guards at `session.cc:70-74` and `126-130` are temporaries, so a large receive buffer is freed before the parser
  reads it. Guarantees about the content of a command are given for bodies of at most 8192 bytes.
* Deleting a principal erases all its generations locally, sends a remote deletion for the latest one only, and does
  so after the erasure. Older generations leak, and an instance whose remote deletion fails is not found by a second
  attempt. A run for each case and the exact condition for a run to leave an instance behind are proved.
* Instance names join id and generation with an underscore, although a test of the manager expects a colon.

Assumptions: the increment of the generation counter is one atomic step; a run issues at most 2^64 generations except
where stated; responses serialise to at most 2^31 - 9 bytes; the message library is a parser and an encoder given from
outside; locale-dependent number formatting is the classic locale.

## Model

| member | source | states |
|---|---|---|
| PortRuns.EveryRunPartitions | libport-core/src/main/native/include/port_manager.h:55-136 | for any `low < high` and any sequence of calls with counts of at least one and non-empty ranges, including calls that throw, the manager still has these bounds, each port of `[low, high)` is in exactly one segment of exactly one map, and all segments are non-empty and within `[low, high)` |
| PortRuns.ValidIsPartition | libport-core/src/main/native/include/port_manager.h:236-241 | the interval invariant used in the proofs is equivalent to "every port has exactly one owner" |
| PortRuns.InitIsFree | libport-core/src/main/native/include/port_manager.h:55-57 | a new manager has exactly the given bounds, nothing allocated, and exactly the ports between them free |
| PortRuns.InitValid | libport-core/src/main/native/include/port_manager.h:55-57 | it is a partition exactly when `low < high` |
| PortRuns.RunKeepsBounds | libport-core/src/main/native/include/port_manager.h:239-240 | no call, well-formed or not, moves the bounds |
| PortSteps.AllocateCountTakes | libport-core/src/main/native/include/port_manager.h:62-78 | a granted count moves exactly the returned `cnt` ports from free to allocated, changes no other port, and keeps the partition |
| PortSteps.AllocateCountIsFirstFit | libport-core/src/main/native/include/port_manager.h:208-216 | the grant is the top of the lowest free segment that is long enough; the call throws exactly when none is |
| PortSteps.AllocateRangeTakes | libport-core/src/main/native/include/port_manager.h:81-103 | a granted exact range moves exactly those ports and keeps the partition |
| PortSteps.AllocateRangeSucceedsIff | libport-core/src/main/native/include/port_manager.h:81-103 | in every valid state: granted exactly when all ports are free and no free segment begins inside the range; the second internal error exactly when only that last condition fails; a bad range otherwise; the first internal error never |
| PortSteps.CoalescedRangeSucceedsIff | libport-core/src/main/native/include/port_manager.h:218-234 | in a coalesced state the promise of the comment on the search holds: in bounds and free is enough, and neither internal error occurs |
| PortSteps.DeallocateGivesBack | libport-core/src/main/native/include/port_manager.h:107-136 | `deallocate` succeeds exactly on the left edge of an allocated segment, frees exactly its ports, and keeps the partition, with the lookup as written or repeated; any other port is a bad port |
| PortSteps.AllocateCountKeepsValidIff | libport-core/src/main/native/include/port_manager.h:62-78 | a count of zero, which the code does not reject, breaks the partition exactly when there is a free segment |
| PortSteps.AllocateRangeKeepsValidIff | libport-core/src/main/native/include/port_manager.h:81-103 | an empty or backwards range, which the code does not reject, breaks the partition exactly under a condition on bounds and free ports given beforehand |
| PortSteps.DegenerateOutcomes | libport-core/src/main/native/include/port_manager.h:81-103 | which of the exceptions an empty or backwards range that is not granted ends in |
| PortRuns.DegenerateCallsBreak | libport-core/src/main/native/include/port_manager.h:62-103 | on a new manager asking for no ports, or for an empty range, breaks the partition at once |
| PortCoalescing.CoalescedIsMaximal | libport-core/src/main/native/include/port_manager.h:239-240 | no two free segments touch exactly when the ports on both sides of each are not free |
| PortCoalescing.DeallocateCoalescedIff | libport-core/src/main/native/include/port_manager.h:112-134 | as written, a released range leaves a coalesced state exactly when the state was coalesced and it is not the case that both neighbours touch and more free space lies beyond |
| PortCoalescing.RelookupCoalescedIff | libport-core/src/main/native/include/port_manager.h:120-121 | with the lookup that the comment intends, release keeps the free segments maximal exactly when they were |
| PortCoalescing.AllocateCountCoalesced | libport-core/src/main/native/include/port_manager.h:62-78 | allocation by count keeps free segments maximal |
| PortCoalescing.AllocateRangeCoalesced | libport-core/src/main/native/include/port_manager.h:81-103 | allocation of a range keeps free segments maximal |
| PortCoalescing.FewFreeSegments | libport-core/src/main/native/include/port_manager.h:239-241 | a coalesced state has at most one free segment more than allocated ones |
| PortRuns.RunsCoalescedIff | libport-core/src/main/native/include/port_manager.h:62-136 | as written, exactly the runs that never release a range in the bad case stay coalesced throughout |
| PortRuns.RelookupRunsCoalesced | libport-core/src/main/native/include/port_manager.h:62-136 | with the intended lookup every state of every run is coalesced |
| PortRuns.LostNeighbourReachesBug | libport-core/src/main/native/include/port_manager.h:218-234 | after any release in the bad case, the two ports at the seam are free and asking for them ends in the internal error that the comment excludes |
| PortRuns.BugIsReachable | libport-core/src/main/native/include/port_manager.h:107-136 | a run of four calls from a new manager that ends in that error |
| PortRuns.FullIff | libport-core/src/main/native/include/port_manager.h:62-67 | in a coalesced state allocation by count throws exactly when no `cnt` consecutive ports are free |
| PortRuns.Conservation | libport-core/src/main/native/include/port_manager.h:55-136 | free and allocated lengths add up to `high - low` in every valid state |
| PortRuns.GrantMoves | libport-core/src/main/native/include/port_manager.h:68-77 | a grant of either call moves exactly its own length between the two totals |
| PortRoundTrips.PortsRestored | libport-core/src/main/native/include/port_manager.h:62-136 | from any valid state, allocating and releasing restores every port and the allocated map |
| PortRoundTrips.CountRestoredIff | libport-core/src/main/native/include/port_manager.h:62-136 | allocation by count and release restore both maps exactly if and only if the fitting segment touches no other in a way the release merges |
| PortRoundTrips.CoalescedCountRestored | libport-core/src/main/native/include/port_manager.h:62-136 | from a coalesced state they always do, even as written |
| PortRoundTrips.RangeRestoredIff | libport-core/src/main/native/include/port_manager.h:81-136 | from any valid state an exact range and its release restore both maps if and only if a condition on the neighbours of the segment it was cut from holds |
| PortRoundTrips.CoalescedRangeRestoredIff | libport-core/src/main/native/include/port_manager.h:81-136 | from a coalesced state they do unless the range came from the middle of a segment with another free segment to its right |
| PortQueries.SingleQueryIsScan | libport-core/src/main/native/include/port_manager.h:138-153 | the single-port query over at most one map entry agrees with a scan |
| PortQueries.RangeQueryIsScan | libport-core/src/main/native/include/port_manager.h:156-176 | the range query over at most two map entries agrees with a scan of the range; for an empty range it asks about its left end |
| PortQueries.RangeFitIsContainment | libport-core/src/main/native/include/port_manager.h:220-234 | the search by range finds exactly the free segment containing the range |
| PortManager.Manager.constructor | libport-core/src/main/native/include/port_manager.h:55-57 | the bounds are the given ones, exactly the ports between them are free, nothing is allocated |
| PortManager.Manager.Default | libport-core/src/main/native/include/port_manager.h:54 | without arguments the manager has the ports from 1 up to 65534 |
| PortManager.Manager.FindFit | libport-core/src/main/native/include/port_manager.h:208-216 | the iterator loop with its `(0, 0)` sentinel finds the first fit |
| PortManager.Manager.AllocateCount | libport-core/src/main/native/include/port_manager.h:62-78 | the in-place update with 32-bit wrapping arithmetic equals the call on values |
| PortManager.CutPoint | libport-core/src/main/native/include/port_manager.h:68-77 | none of the three uint32 operations wraps around on a fit |
| PortManager.Manager.AllocateRange | libport-core/src/main/native/include/port_manager.h:81-103 | the in-place update equals the call on values |
| PortManager.Manager.Deallocate | libport-core/src/main/native/include/port_manager.h:107-136 | the in-place update, with the lookup of the erased key, equals the call on values |
| PortManager.Manager.IsPortAllocated | libport-core/src/main/native/include/port_manager.h:138-153 | the query answers whether the port is allocated |
| PortManager.Manager.IsRangeAllocated | libport-core/src/main/native/include/port_manager.h:156-176 | the query answers whether some port of the range is allocated |
| PrincipalSafety.LatestIsGreatest | libport-core/src/main/native/server/manager.cc:217-227 | the scan finds nothing exactly in an empty range, and otherwise a record of greatest generation |
| PrincipalSafety.LatestIgnoresOrder | libport-core/src/main/native/server/manager.cc:307-316 | with distinct generations the result does not depend on the iteration order of the multimap |
| PrincipalRuns.LatestIsUnique | libport-core/src/main/native/server/manager.cc:307-321 | in every reachable table the result is the one record of greatest generation, even when insertions happened out of order |
| PrincipalRuns.TableIsLive | libport-core/src/main/native/server/manager.cc:182-265 | under every interleaving, with remote calls free to fail, each record in the table names an instance created remotely for which no deletion was sent |
| PrincipalRuns.NoNameDeletedTwice | libport-core/src/main/native/server/manager.cc:243-255 | no instance name is sent for deletion twice |
| PrincipalRuns.DeletedAfterCreated | libport-core/src/main/native/server/manager.cc:188-255 | each name sent for deletion had been created remotely before |
| PrincipalRuns.EachInOnePlace | libport-core/src/main/native/server/manager.cc:182-265 | every generation ever handed out is in exactly one place: awaiting its post, rejected, awaiting insertion, in the table, awaiting deletion, deleted, sent for deletion without success, or leaked |
| PrincipalRuns.StrandedIff | libport-core/src/main/native/server/manager.cc:209-265 | an instance created remotely and not deleted there, from which no deletion can follow any more, has either leaked or had its one deletion request fail |
| PrincipalRuns.StrandedForever | libport-core/src/main/native/server/manager.cc:209-265 | no continuation of a run sends another deletion for such an instance, and it stays left behind |
| PrincipalRuns.DeletionRemovesIff | libport-core/src/main/native/server/manager.cc:229-263 | an allowed deletion empties exactly its id, queues the latest generation for remote deletion and leaks the older ones; a refused one changes nothing |
| PrincipalRuns.ErasureOutcomeIff | libport-core/src/main/native/server/manager.cc:217-263 | an erasure finds nothing exactly when no record is filed under the id, is refused exactly when the latest record belongs to another process and the caller is not uid 0, and is made otherwise |
| PrincipalRuns.StepStrandsIff | libport-core/src/main/native/server/manager.cc:209-265 | a step leaves an instance behind exactly when it is an allowed deletion of an id with at least two generations in the table or a remote deletion that fails |
| PrincipalRuns.RunStrandsIff | libport-core/src/main/native/server/manager.cc:182-265 | a run from the start ends with an instance left behind exactly when one of its steps is of that kind |
| PrincipalRuns.LeakIsReachable | libport-core/src/main/native/server/manager.cc:182-263 | creating one id twice and deleting it, with nothing interleaved, leaks the first instance |
| PrincipalRuns.FailureIsReachable | libport-core/src/main/native/server/manager.cc:237-255 | creating one id once and deleting it with a remote call that fails leaves the instance behind |
| PrincipalRuns.LeavesOnlyByDeletion | libport-core/src/main/native/server/manager.cc:230-237 | a record leaves the table only by a deletion of its id whose caller is uid 0 or created the latest generation |
| PrincipalRuns.NamesCollideIff | libport-core/src/main/native/server/manager.cc:470-472 | over any run, two generations of one id get the same name exactly when a multiple of 2^64 were issued in between |
| PrincipalTable.AttestationManager.TakeGn | libport-core/src/main/native/server/manager.cc:470-472 | the counter hands out its value and wraps at 64 bits |
| PrincipalTable.AttestationManager.AddPrincipal | libport-core/src/main/native/server/manager.cc:465-468 | insertion somewhere in the range of the id |
| PrincipalTable.AttestationManager.ScanLatest | libport-core/src/main/native/server/manager.cc:217-227 | the scan loop computes the latest generation |
| PrincipalTable.AttestationManager.EraseLatest | libport-core/src/main/native/server/manager.cc:217-263 | the locked part of a deletion equals its atomic step |
| PrincipalTable.AttestationManager.CreatePrincipal | libport-core/src/main/native/server/manager.cc:182-206 | the creation handler: no effect when malformed, a spent generation when the remote call fails, one insertion otherwise |
| PrincipalTable.AttestationManager.DeletePrincipal | libport-core/src/main/native/server/manager.cc:209-265 | the deletion handler: table and at most one remote deletion as the locked step decides |
| PrincipalTable.AttestationManager.GetLocal | libport-core/src/main/native/server/manager.cc:300-322 | the lookup returns the latest generation |
| PrincipalSafety.NameReads | libport-core/src/main/native/server/manager.cc:146-151 | the name sent for a record has exactly one underscore, with the decimal id before it and the decimal generation behind it |
| Numbers.InstanceNameInjective | libport-core/src/main/native/server/manager.cc:146-151 | two instances have the same name exactly when id and generation agree |
| Framing.ReceiveExact | libport-core/src/main/native/common/utils.cc:157-174 | the receive loop loses, invents and reorders nothing, and succeeds exactly when all bytes are in |
| Framing.ReceiveCompletesIff | libport-core/src/main/native/common/utils.cc:157-174 | with the bytes under way it succeeds exactly when the pieces offered before the first failure or close add up to the size, whatever their number, sizes and pauses |
| Framing.TransmitExact | libport-core/src/main/native/common/utils.cc:138-155 | the send loop emits a prefix of the data, all of it exactly on success |
| Framing.TransmitCompletesIff | libport-core/src/main/native/common/utils.cc:138-155 | it succeeds exactly when the pieces accepted before the first failure or close add up to the data |
| Framing.SendIsWholeIff | libport-core/src/main/native/include/comm.h:53-61 | a reported success means the whole frame exactly when header and payload together stay under 2^31 bytes; beyond that nothing is sent and success is reported |
| Framing.FrameLayoutIff | libport-core/src/main/native/include/comm.h:53-61 | a frame is, in bytes, the size least byte first, then 0x87 0x19 0 0, then the payload, and no other bytes are |
| Framing.SendsFrame | libport-core/src/main/native/include/comm.h:53-61 | a message below the int limit goes out as these bytes, or as a front part of them when the call fails |
| Framing.ReadsLittleEndian | libport-core/src/main/native/include/comm.h:64-87 | behind any eight bytes of which the first four give its size, least byte first, a payload is read as it is |
| Framing.ReceiveReports | libport-core/src/main/native/common/utils.cc:157-174 | a receive that is not done reports the first error or close of the script, and blocks only if there is none |
| Framing.TransmitReports | libport-core/src/main/native/common/utils.cc:138-155 | the same for a send |
| Framing.MessageIsPayload | libport-core/src/main/native/include/comm.h:64-87 | reading off a frame, for any magic, gives its payload and consumes nothing more exactly when the script carries a header and then the payload; otherwise no message comes out |
| Framing.HugeBodyUnread | libport-core/src/main/native/include/comm.h:71-79 | with a header announcing 2^31 bytes or more the read leaves the body on the stream, and reports success with the body unread exactly when the script carries the header |
| Framing.SendAllStream | libport-core/src/main/native/include/comm.h:53-61 | sending a list is done exactly when the script carries each frame in turn; what is out is then the frames of the messages that fit, and always a prefix of them |
| Framing.KeptAllIff | libport-core/src/main/native/include/comm.h:53-61 | the stream is the frames of all messages exactly when each frame stays under 2^31 bytes |
| Framing.ReceiveAllStream | libport-core/src/main/native/include/comm.h:64-87 | reading a concatenation of frames gives a prefix of the messages under any script, and all of them with no further byte consumed exactly when the script carries each header and each payload in turn |
| Framing.EndToEnd | libport-core/src/main/native/include/comm.h:53-87 | a list of messages sent and read under two unrelated scripts: the exact conditions under which the sender is done and the reader has exactly the messages that fit with nothing left over |
| Sockets.ReliableRecv | libport-core/src/main/native/common/utils.cc:157-174 | the loop on a buffer fills its front with the received bytes and touches nothing else |
| Sockets.ReliableSend | libport-core/src/main/native/common/utils.cc:138-155 | the loop emits what the value-level send does, including for a negative size |
| Sockets.ProtoSend | libport-core/src/main/native/include/comm.h:53-61 | the frame is laid out in one buffer and sent; success below the int limit means that exactly its bytes went out, by place and value |
| Sockets.ProtoRecv | libport-core/src/main/native/include/comm.h:64-87 | the header and body reads on buffers equal the value-level read |
| SessionSafety.OneOutstanding | libport-core/src/main/native/server/session.cc:15-137 | on every run at most one asynchronous operation is outstanding, nothing follows a stop, and a peer with pid 0 never gets one |
| SessionSafety.ResponsesAnswerCommands | libport-core/src/main/native/server/session.cc:69-123 | the i-th response written is the framed answer to the i-th command dispatched; a command stays unanswered only after an exception the dispatcher does not catch |
| SessionSafety.CommandsCarrySocketIds | libport-core/src/main/native/server/session.cc:86-94 | dispatched commands carry the credentials of the socket whatever the client claimed; kind and statement of those of at most 8192 bytes are the ones parsed from their payload |
| SessionSafety.ResponsesConvey | libport-core/src/main/native/server/manager.cc:46-73 | in bytes, in every run: the i-th response is the frame of the very response the handler of the i-th command returned, or of a failure status with the text for an unknown type or for the exception |
| SessionModel.RegisteredIff | libport-core/src/main/native/server/manager.cc:97-144 | the command types with a handler, by protocol number |
| SessionSafety.StopsIff | libport-core/src/main/native/server/session.cc:36-137 | a completion ends the session exactly if it failed, brought less than a header, or brought no command |
| SessionService.CommandsAreTheClients | libport-core/src/main/native/server/session.cc:36-66 | on any stream that begins with frames, in every run the i-th command dispatched was read from the i-th of them |
| SessionService.WrittenIsPrefix | libport-core/src/main/native/server/session.cc:97-137 | on the frames of small requests, in every run, failures included, the bytes written and being written are a prefix of the frames of the answers in order |
| SessionService.AnswersConvey | libport-core/src/main/native/server/manager.cc:46-73 | the frame of each answer conveys what became of its request |
| SessionService.ServableIff | libport-core/src/main/native/server/manager.cc:46-73 | a request of at most 8192 bytes is served exactly if it parses and its handler throws nothing unforeseen |
| SessionService.GoodRunsServe | libport-core/src/main/native/server/session.cc:29-137 | every run without failures on the frames of small requests that can only go on by a failure has written exactly the frames of the answers up to the first request that is malformed or crashes its handler, has read nothing behind that request, and waits for more exactly if there is no such request |
| SessionService.GoodRunsServeAll | libport-core/src/main/native/server/session.cc:29-137 | so if every request can be served, every byte is read and the frames of one answer for each are written |
| SessionService.GoodRunCompletes | libport-core/src/main/native/server/session.cc:29-137 | from any point such a run exists; it takes three completions per answer and two for a request that cannot be served |
| SessionService.ClientGetsAnswers | libport-core/src/main/native/include/comm.h:53-87 | client to daemon and back, over every such run on small requests of any kind: the client reads the answers up to the first request that cannot be served, in order and with no byte left over, exactly when its own script carries them, and one for each request exactly if in addition all can be served |
| SessionSafety.FreedBufferDecides | libport-core/src/main/native/server/session.cc:69-84 | for a body over the fixed buffer the large buffer is freed before parsing, so any bytes of that length may decide what is dispatched |
| Session.Connection.constructor | libport-core/src/main/native/server/session.cc:8-12 | a new session has nothing outstanding and has done nothing |
| Session.Connection.Open | libport-core/src/main/native/server/session.cc:15-34 | a peer with pid 0 is turned away, any other is asked for a header, and the credentials are those of the socket |
| Session.Connection.HeaderReceived | libport-core/src/main/native/server/session.cc:36-67 | the callback is the machine step for a header |
| Session.Connection.CommandReceived | libport-core/src/main/native/server/session.cc:69-95 | the callback is the machine step for a body, and dispatches the kind and statement that were parsed with the credentials of the socket |
| Session.Connection.Dispatch | libport-core/src/main/native/server/manager.cc:46-94 | looks the handler up by type and calls the writer exactly once, with bytes that convey the outcome, unless an exception of an unknown kind escapes |
| Session.Connection.SerializeMessage | libport-core/src/main/native/server/session.cc:97-104 | size, magic and body are laid out as a frame, by place and value |
| Session.Connection.WriteResponse | libport-core/src/main/native/server/session.cc:107-123 | the response goes out as one frame from either buffer |
| Session.Connection.ResponseSent | libport-core/src/main/native/server/session.cc:125-137 | the callback is the machine step for a completed write, and the large buffer is freed exactly when more than 8192 bytes went out |
| Daemon.DeletionsAreAuthentic | libport-core/src/main/native/server/manager.cc:209-237 | over any number of sessions sharing the table, a record leaves it only while a command is handled whose bytes on its socket ask to delete that id, on a socket whose own credentials are uid 0 or the pid behind the socket that asked for the latest generation |
| Daemon.SocketsKeepIds | libport-core/src/main/native/server/session.cc:15-21 | these credentials are the ones with which the socket was connected |
| Daemon.EntitledDeletes | libport-core/src/main/native/server/manager.cc:209-263 | conversely, whenever bytes that ask to delete an id are about to be handled, the erasure removes all its records exactly when the socket is so entitled |
| Daemon.DeletionHappens | libport-core/src/main/native/server/manager.cc:182-263 | a run over sockets in which a principal is created, answered for, and erased by a delete command |
| Daemon.AnswersAreHonest | libport-core/src/main/native/server/manager.cc:182-265 | over every run, a create or delete command is answered with a success status of any text exactly when its handler took up a generation, for a deletion by erasing its id from the table, and the metadata service confirmed the remote request for it |
| Daemon.HandlersDoAsAsked | libport-core/src/main/native/server/manager.cc:182-255 | that generation is one of the principal named in the bytes on the socket, and a new one is owned by the process behind it |
| Daemon.RefusalsAreExplained | libport-core/src/main/native/server/manager.cc:210-263 | a delete command is refused exactly if it names no principal, none is in the table, or the caller may not delete it, and the text says which |
| Daemon.CreationsAreInserted | libport-core/src/main/native/server/manager.cc:182-206 | a create command is answered with success exactly when its handler put a generation into the table |
| Daemon.AnswerIsWritten | libport-core/src/main/native/server/session.cc:86-123 | the one write that follows a handled command conveys what became of the command in its bytes |
| Numbers.PrintedForm | libport-core/src/main/native/include/utils.h:62-68 | decimal print-outs are positional notation in the characters 0 to 9 without leading zeros; hexadecimal ones are 0x and lower-case digits, except for a single 0 |
| Numbers.DigitsAreDigits | libport-core/src/main/native/include/utils.h:62-68 | reading the digits printed for a number gives the number |
| Numbers.DecRoundTrip | libport-core/src/main/native/include/utils.h:62-78 | a decimal print-out reads back as the number exactly when the type can hold it, and fails otherwise |
| Numbers.HexRoundTrip | libport-core/src/main/native/include/utils.h:62-78 | the same for hexadecimal with its prefix, and for zero without one |
| Numbers.LeadingZeroIsOctal | libport-core/src/main/native/include/utils.h:72-78 | digits behind a leading zero are read as octal |
| Numbers.AtoiReads | libport-core/src/main/native/include/utils.h:72-78 | reading any text: blanks, a sign, a prefix that selects the base, digits, and whatever follows them |
| Numbers.AtoiRejects | libport-core/src/main/native/include/utils.h:72-78 | text without a digit at that place is rejected |
| Numbers.AtoiRejectsBarePrefix | libport-core/src/main/native/include/utils.h:72-78 | so is a hexadecimal prefix without a digit |
| Numbers.DigitMeaning | libport-core/src/main/native/include/utils.h:72-78 | letters of either case count as digits from ten on |
| Records.PrincipalFields | libport-core/src/main/native/server/serialization.cc:23-32 | the six members of the JSON form, the id in hexadecimal and the ports in decimal |
| Records.PrincipalReadsIff | libport-core/src/main/native/server/serialization.cc:17-21 | reading succeeds exactly on objects with all six members well-formed, and gives their values |
| Records.PrincipalRoundTrip | libport-core/src/main/native/server/serialization.cc:17-32 | every principal survives the trip through JSON |
| Records.AccessorToJson | libport-core/src/main/native/server/serialization.cc:53-64 | the loop lists every access rule once, in whatever order the set is visited |
| Records.AccessorFromJson | libport-core/src/main/native/server/serialization.cc:70-77 | the loop collects the array into a set and fails on the first item that is not a string |
| Records.AccessorReadsIff | libport-core/src/main/native/server/serialization.cc:70-77 | reading succeeds exactly on objects with a name and an array of strings, and gives the set of the strings |
| Records.AccessorRoundTrip | libport-core/src/main/native/server/serialization.cc:53-77 | any such listing reads back as the same object |

## Left out

- The metadata client: HTTP tasks to an external service; remote calls are steps that may fail.
- A failed remote creation counts as not created: the two-stage post can also fail after the instance exists, which the model does not tell apart.
- The remaining handlers of the manager (endorse, check, access lists, free and guard calls) forward to the metadata client without touching the table.
- The generation counter under a data race: the code increments it without a lock, and torn increments are not modelled.
- The multimap of principals is a map of sequences: rehashing and iteration across ids are not modelled.
- Client calls, kernel calls, the store, the core manager, configuration, logging and the Java module.
- Protocol-buffer encoding, and the parse that follows a message read; payloads are byte sequences and the session's parser is arbitrary.
- Parsing and printing of JSON text: records are proved on JSON values in memory.
- The fragment report of the port manager and the JSON form of images, which would only add easy members.
- Accepting connections and the call that reads the credentials of a socket; what it yields is a parameter.
- A failed remote deletion counts as not deleted: the service may have carried it out and the reply been lost.
- In the daemon, an exception that the dispatcher does not know ends the session it occurs in; the code ends the process.
- Session.Connection.Dispatch: does not model what the handlers do, which is a parameter; the two that change the table are joined to it in Daemon.
- Sockets.ReliableSend: does not model a loop that never ends; a script that runs out leaves the call waiting.
- Sockets.ReliableRecv: does not model a loop that never ends; a script that runs out leaves the call waiting.
- PrincipalRuns.TableIsLive: does not cover runs with more than 2^64 generations, where names repeat as PrincipalRuns.NamesCollideIff says.
