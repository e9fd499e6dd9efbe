# A verified model of the media server's core

This project models the hard parts of the server and of the libraries it is built on, and
proves what they are relied on for.  `dafny verify dfyconfig.toml` checks everything.

- **The event loop (libev).**  `Watchers`, `Heap4`, `Timers`, `Periodics`: the 4-ary heap with
  back-pointers, and the timers and periodics kept in it, as classes over arrays that are
  rewritten in place.  `Pending`: the priority stacks of pending events and the loop that
  drains them while callbacks feed, stop and drain again.  `FdChanges`, `Poll`, `ArrayGrowth`:
  the deferred changes of file descriptors and the dense array of the poll backend.  `Wakeup`:
  how other threads and signal handlers wake the loop, as interleaved atomic steps.
- **STUN.**  `Bytes`, `StunFormat`, `Stun`, `StunMessages`: building, signing, writing, reading
  and validating messages (sections 6, 15, 15.4 and 15.5 of RFC 5389).
- **FIR filters.**  `Fir`: the direct and the lane-split filter against one convolution.
- **ICE.**  `PingRounds`, `IceRank`, `Ice`: who is pinged next, how connections are ranked and
  which one is selected (section 5.7.2 of RFC 5245).
- **Messages between threads.**  `LockFreeQueue`, `QueueNodes`, `Dispatch`: the queue between
  one producer and one consumer, and the two hops by which a request reaches its worker.
- **SDP tracks.**  `SdpText`, `SdpTracks`, `SdpReader`, `SdpLines`, `SdpSurvival`,
  `SdpRoundTrip`: printing the tracks of a section and reading them back (sections 4.1 and 4.2
  of RFC 5576).

`Basics` holds shared types.  Event masks are sets of bit numbers; times are integers or exact
reals and are passed in; each component of the server's state that the code changes in place is
a field or an array here.  Concurrent code is a state machine over single steps, under
sequential consistency, and its theorems are about every run.

## Where the code falls short of what one would expect

Each of these is proved, with the exact condition under which the expectation holds.

- A track is not always read back as it was printed: its cname, stream id, id and group
  semantics must not contain text such as `m=` or `a=fingerprint`, nor the first two start with
  `:`.  `SdpRoundTrip.TextRoundTrip` says exactly which tracks survive;
  `SdpRoundTrip.CnameCanBeLost` names two that do not.
- The pair priority is computed partly in 32 bits and agrees with RFC 5245 only for candidate
  priorities below 2^31 (`IceRank.PriorityIsRfc`).  The local one always is; the peer chooses
  the other: `IceRank.PriorityReversed` says exactly which pairs are then ordered wrongly,
  `IceRank.PriorityWraps` gives two for every local candidate.
- The round trip alone decides whether to leave a selected connection, even one that timed out:
  it stays selected, while others are ready, exactly if the best of them is not 10 ms faster
  (`IceRank.TimedOutStaysSelected`, `IceRank.TimedOutBesideWritable`).
- After the selected connection is destroyed the controller still compares with it: another one
  is selected exactly if the best of those left is ready and was 10 ms faster
  (`Ice.IceTransportChannel.OnConnectionDestroyed`), and so possibly none although one can be
  written to (`Ice.DestroyedLeavesNone`).
- `IceController::mark_connection_pinged` keeps its two sets a partition of the connections
  exactly if it is given one of them (`Ice.IceController.MarkConnectionPinged`).  The ping timer
  loses it exactly if the selected connection is due and was destroyed
  (`Ice.IceTransportChannel.PingNext`), which can happen (`Ice.DestroyedIsPinged`).
- The size of the lock-free queue is not always the number of values that wait, and can be -1:
  `LockFreeQueue.SizeIsExact` says exactly when; `LockFreeQueue.SizeCanBeNegative` gives a run.
- With an interval below 2^-13 a periodic timer can miss its grid
  (`Periodics.ShortIntervalMissesGrid`); an interval never does exactly if it is at least 2^-13
  or divides it (`Periodics.SafeInterval`).

## Model

| member | source | states |
|---|---|---|
| ArrayGrowth.NextSize | 3rdpart/libev_win/src/ev.c:2201-2218 | terminates with room for at least cnt and twice cur + 1 elements; when it rounds, the elements and four pointers fill whole 4096-byte chunks with less than one element unused |
| ArrayGrowth.Rounded | 3rdpart/libev_win/src/ev.c:2209-2215 | what the rounding branch divides out fills whole chunks but for less than one element, and is more than before |
| Heap4.RootIsEarliest | 3rdpart/libev_win/src/ev.c:3479-3489 | in a heap that satisfies verify_heap no element has an earlier deadline than the root |
| Heap4.UpHeap | 3rdpart/libev_win/src/ev.c:2600-2618 | an element out of order only towards its parent is moved up until the whole is a heap again, with every back-pointer right and the same watchers |
| Heap4.MinChild | 3rdpart/libev_win/src/ev.c:2528-2549 | the fast and the slow path both find a child that no other child is before |
| Heap4.DownHeap | 3rdpart/libev_win/src/ev.c:2524-2563 | an element out of order only towards its children is moved down until the whole is a heap again, with every back-pointer right and the same watchers |
| Heap4.AdjustHeap | 3rdpart/libev_win/src/ev.c:2620-2628 | an element with an arbitrary new deadline is put where it belongs, whichever direction that is |
| Heap4.ReHeap | 3rdpart/libev_win/src/ev.c:2630-2640 | from arbitrary keys in arbitrary order the array becomes a valid heap of the same watchers with right back-pointers |
| Heap4.Insert | 3rdpart/libev_win/src/ev.c:4231-4236 | a watcher put at the end and sifted up joins the heap |
| Heap4.Remove | 3rdpart/libev_win/src/ev.c:4254-4264 | a watcher is removed from anywhere in the heap, the last element taking its place |
| Heap4.ReKey | 3rdpart/libev_win/src/ev.c:4282-4287 | a running timer gets an arbitrary new deadline and the heap is valid again |
| Pending.OwedUntilSettled | 3rdpart/libev_win/src/ev.c:2261-2277 | an event that was fed stays part of the mask its watcher is owed until it is delivered or cleared |
| Pending.DeliveredOnce | 3rdpart/libev_win/src/ev.c:3641-3656 | in a legal history that ends with nothing owed, every fed event is settled by a delivery whose mask contains it, unless a stop came first |
| Pending.NothingOwedUntilFed | 3rdpart/libev_win/src/ev.c:4119-4126 | after a delivery or a stop a watcher is not invoked again before it is fed again |
| Pending.PendingQueues.FeedEvent | 3rdpart/libev_win/src/ev.c:2261-2277 | the stacks again hold exactly what is owed; a watcher that is not pending takes the top slot of its priority, one that is has the mask of its slot extended |
| Pending.PendingQueues.ClearPending | 3rdpart/libev_win/src/ev.c:4119-4126 | the watcher is owed nothing; its slot stays with the dummy watcher in it, so that no other back-pointer changes |
| Pending.PendingQueues.InvokePending | 3rdpart/libev_win/src/ev.c:3641-3656 | whatever finitely many events the callbacks feed, clear or drain, every delivery carries all its watcher is owed, none happens while a higher priority is owed anything, and at the end every stack is empty; with passive callbacks the order is from the top of the highest stack down |
| Timers.TimerLoop.TimerStart | 3rdpart/libev_win/src/ev.c:4219-4242 | the timer runs, with a deadline relative to now unless it ran already; the heap is valid and holds exactly the running timers |
| Timers.TimerLoop.TimerStop | 3rdpart/libev_win/src/ev.c:4244-4272 | the timer is neither running nor pending; what was left of its time stays in at; the heap is valid and holds exactly the running timers |
| Timers.TimerLoop.TimerAgain | 3rdpart/libev_win/src/ev.c:4274-4294 | afterwards the timer runs exactly if it repeats, and then fires one period from now; the heap is valid and holds exactly the running timers |
| Timers.TimerLoop.Run | 3rdpart/libev_win/src/ev.c:4219-4294 | after any sequence of starts, stops and agains at any times the heap is valid and holds exactly the timers started and not stopped since |
| Timers.TimerLoop.ReifyRoot | 3rdpart/libev_win/src/ev.c:3686-3706 | one round handles the earliest overdue timer: rescheduled at the later of one period on and now if it repeats, stopped otherwise |
| Timers.TimerLoop.FeedReverseDone | 3rdpart/libev_win/src/ev.c:2285-2290 | the collected watchers are fed last to first and the collection is empty |
| Timers.TimerLoop.TimersReify | 3rdpart/libev_win/src/ev.c:3681-3712 | terminates; exactly the timers whose deadline was before now are fed, each once and last to first, after nothing but the stops of such timers, whatever else is pending; none is overdue afterwards |
| Timers.TimerLoop.RunTimers | 3rdpart/libev_win/src/ev.c:3641-3712 | followed by the draining of the stacks, exactly the overdue timers run, each once, and timers of equal priority in the order of their deadlines |
| Timers.DrainInDeadlineOrder | 3rdpart/libev_win/src/ev.c:3641-3656 | popping stacks on which deadlines descend gives deliveries in deadline order for each priority |
| Timers.RanOnce | 3rdpart/libev_win/src/ev.c:3681-3712 | what is fed and then delivered, with nothing else happening, is delivered once |
| Timers.RanExactly | 3rdpart/libev_win/src/ev.c:3681-3712 | the watchers delivered are exactly those fed |
| Periodics.PeriodicRecalc | 3rdpart/libev_win/src/ev.c:3718-3736 | the next time is after now and at most one interval away, and the first point after now of the grid offset + k * interval exactly when the first guess is on that grid |
| Periodics.SafeInterval | 3rdpart/libev_win/src/ev.c:3719-3722 | the first guess is on the grid at all times exactly if the interval is at least MIN_INTERVAL or divides it |
| Periodics.ShortIntervalMissesGrid | 3rdpart/libev_win/src/ev.c:3719-3722 | an interval below MIN_INTERVAL for which the result is not on the grid |
| Periodics.PeriodicsReschedule | 3rdpart/libev_win/src/ev.c:3777-3794 | after the clock jumped every periodic has the time that periodic_recalc promises, the first grid point after now when its first guess is on the grid, cached in its slot, and the heap is valid with the same watchers |
| Poll.PollBackend.Modify | 3rdpart/libev_win/src/ev_poll.c:54-86 | refines an update of a map from fd to mask: the dense array lists exactly the fds with a mask, each once, and the index is its inverse, also after the last entry has moved into a gap |
| FdChanges.FdLoop.FdChange | 3rdpart/libev_win/src/ev.c:2414-2426 | the list of changes holds exactly the fds with a flag, each once |
| FdChanges.FdLoop.ReifyFd | 3rdpart/libev_win/src/ev.c:2376-2398 | one fd gets the union of its watchers' masks, recorded and in the backend, and leaves the list |
| FdChanges.FdLoop.FdReify | 3rdpart/libev_win/src/ev.c:2337-2411 | the list stays exact even when the backend re-enters fd_change; without re-entry the list ends empty, and recorded mask, backend mask and union of the watchers' masks agree for every fd |
| FdChanges.FdLoop.IoStart | 3rdpart/libev_win/src/ev.c:4166-4194 | the watcher is at the front of the list of its fd, which is listed for change; all other lists are as before |
| FdChanges.FdLoop.IoStop | 3rdpart/libev_win/src/ev.c:4196-4216 | the watcher is pending no more and gone from the list of its fd, which is listed for change; all other lists are as before |
| FdChanges.WlistDel | 3rdpart/libev_win/src/ev.c:4106-4117 | removes the first occurrence and nothing else |
| Wakeup.SenderKeepsInv | 3rdpart/libev_win/src/ev.c:2704-2747 | every step of evpipe_write keeps the invariant that a sent item is flagged and a set flag is noticed or on its way |
| Wakeup.LoopKeepsInv | 3rdpart/libev_win/src/ev.c:2751-2808 | every step of the loop thread around the poll and in pipecb keeps it |
| Wakeup.NoLostWakeup | 3rdpart/libev_win/src/ev.c:3941-4018 | in every run, with any number of senders, when the loop blocks in its poll and no sender is in a call, an item that was sent finds the pipe readable |
| Wakeup.SentIsFed | 3rdpart/libev_win/src/ev.c:5234-5238 | once the senders are done the loop feeds every sent item within two rounds |
| Bytes.XorInverse | rtcserver/src/ice/stun.cpp:92-95 | exclusive or with the same value twice is the identity, in 8, 16 and 32 bits |
| StunFormat.WriteValue | rtcserver/src/ice/stun.cpp:506-712 | every kind of attribute writes its value and padding, and fails exactly for an address that has no written form |
| StunFormat.XorAddressReadsBack | rtcserver/src/ice/stun.cpp:542-590 | undoing the exclusive or with the magic cookie gives the IPv4 address and port back |
| StunFormat.ParseEncodedAll | rtcserver/src/ice/stun.cpp:317-350 | the attributes that were written are read back, in order, as far as their types are known |
| Stun.FindEncoded | rtcserver/src/ice/stun.cpp:132-151 | stepping from header to header over written attributes finds the first MESSAGE-INTEGRITY |
| Stun.FingerprintAccepted | rtcserver/src/ice/stun.cpp:65-96 | a message followed by the fingerprint of its bytes, its length field counting both, passes validate_fingerprint |
| Stun.IntegrityAccepted | rtcserver/src/ice/stun.cpp:119-179 | a received message is intact for a password exactly if its MAC is that password's HMAC of what precedes it with the length field rewritten, whatever follows |
| Stun.ReadsBack | rtcserver/src/ice/stun.cpp:243-374 | reading what was written gives the type, length, transaction id and known attributes |
| Stun.SignedFingerprint | rtcserver/src/ice/stun.cpp:180-231 | a signed and fingerprinted message passes validate_fingerprint |
| Stun.SignedReadsBack | rtcserver/src/ice/stun.cpp:180-374 | it is accepted by read with the same type and transaction id and the known attributes in order |
| Stun.SignedIntegrity | rtcserver/src/ice/stun.cpp:98-213 | it is intact for a password exactly if that password has the same HMAC as the one it was signed with |
| StunMessages.StunMessage.AddAttribute | rtcserver/src/ice/stun.cpp:233-242 | the 16-bit length field keeps counting the padded attributes |
| StunMessages.StunMessage.Write | rtcserver/src/ice/stun.cpp:355-374 | appends header and attributes, and fails exactly if an attribute cannot be written |
| StunMessages.StunMessage.AddMessageIntegrity | rtcserver/src/ice/stun.cpp:180-213 | appends the HMAC of the message so far under a length that counts it; if the message cannot be written the placeholder stays |
| StunMessages.StunMessage.AddFingerprint | rtcserver/src/ice/stun.cpp:215-231 | appends the checksum of the message so far under a length that counts it |
| StunMessages.StunMessage.Read | rtcserver/src/ice/stun.cpp:243-353 | accepts exactly the well-formed messages and stores what they say |
| StunMessages.StunMessage.ValidateMessageIntegrity | rtcserver/src/ice/stun.cpp:98-179 | tells no, good and bad integrity apart for the received bytes and remembers the password |
| StunMessages.Exchange | rtcserver/src/ice/stun.cpp:65-374 | the whole round trip through the message object: built, signed, fingerprinted, written, accepted, same contents, good for the password and for another exactly if the HMACs agree |
| Fir.DotIsConv | 3rdpart/libwebrtc/src/common_audio/fir_filter_c.cc:34-48 | reading a window forwards with reversed coefficients is convolution |
| Fir.ConvPadded | 3rdpart/libwebrtc/src/common_audio/fir_filter_avx2.cc:34-43 | zero padding of the coefficients does not change any output |
| Fir.ConvCausal | 3rdpart/libwebrtc/src/common_audio/fir_filter_c.cc:34-48 | an output does not depend on later samples |
| Fir.FirFilterC.Filter | 3rdpart/libwebrtc/src/common_audio/fir_filter_c.cc:34-59 | the outputs are the convolution of everything heard so far, and the state is its last samples, in both cases of the state update |
| Fir.DotStep8 | 3rdpart/libwebrtc/src/common_audio/fir_filter_avx2.cc:67-75 | one fused step over eight lanes adds the next eight products |
| Fir.FirFilterAvx2.Filter | 3rdpart/libwebrtc/src/common_audio/fir_filter_avx2.cc:50-86 | the outputs are the same convolution, from the one sliding buffer |
| Fir.FilterBoth | 3rdpart/libwebrtc/src/common_audio/fir_filter_avx2.cc:23-86 | for every way of cutting a stream into chunks both filters give the convolution of the stream, and so the same outputs |
| LockFreeQueue.NextInv | rtcserver/src/base/lock_free_queue.h:42-63 | no step of either thread touches freed memory or follows a null pointer, and each keeps the chain of nodes in order |
| LockFreeQueue.QueueIsSafe | rtcserver/src/base/lock_free_queue.h:42-63 | in every interleaving, with addresses used again: no fault; what was published are the arguments of produce in order but for one call under way, what is consumed is a prefix of it, and the links lead from divider through exactly the rest, to last |
| LockFreeQueue.SizeIsExact | rtcserver/src/base/lock_free_queue.h:42-63 | the size is never more than one off, right exactly if the producer is about to count just when the consumer is, and negative exactly if everything was consumed before the producer counted it |
| LockFreeQueue.ProduceFreesAll | rtcserver/src/base/lock_free_queue.h:47-51 | when produce returns, every node that consume is done with has been freed |
| LockFreeQueue.SizeCanBeNegative | rtcserver/src/base/lock_free_queue.h:43-45 | a run in which the size is -1 |
| QueueNodes.LockFreeQueue.Produce | rtcserver/src/base/lock_free_queue.h:42-52 | appends the value and unlinks all nodes before divider |
| QueueNodes.LockFreeQueue.Consume | rtcserver/src/base/lock_free_queue.h:54-63 | takes the value that has waited longest, and nothing if there is none |
| Dispatch.NextInv | rtcserver/src/server/rtc_server.cpp:197-264 | after every step each queue has as many messages as its pipe has notifications, plus senders between push and notify, plus a receiver between read and pop |
| Dispatch.OneWorkerEach | rtcserver/src/server/rtc_server.cpp:241-249 | the messages of a stream that are not dropped go, in order, to one worker, and to no other |
| Dispatch.HandledInOrder | rtcserver/src/server/rtc_worker.cpp:137-286 | in every run no pop finds its queue empty, and what a worker has handled of a stream is a prefix of the stream's undropped messages in the order they entered the server |
| Dispatch.QuietMeansDone | rtcserver/src/server/rtc_server.cpp:235-264 | when no hand-over is under way everything that entered was dropped or handled, in order |
| Dispatch.Completes | rtcserver/src/server/rtc_worker.cpp:240-286 | every run can be continued without new messages until all is quiet |
| Dispatch.NoEndlessRun | rtcserver/src/server/rtc_worker.cpp:240-286 | no continuation without new messages is longer than a bound computed from the state |
| PingRounds.EveryoneIsPinged | rtcserver/src/ice/ice_controller.cpp:81-114 | while none is selected that can be written to, any 2n - 1 consecutive pings reach each of n connections, whatever the clock does |
| PingRounds.RoundRobin | rtcserver/src/ice/ice_controller.cpp:102-134 | with a clock that moves on between pings, any n consecutive pings do |
| IceRank.PriorityIsRfc | rtcserver/src/ice/ice_connection.cpp:255-265 | agrees with the formula of RFC 5245 exactly if both candidate priorities are below 2^31 |
| IceRank.LocalPriority | rtcserver/src/ice/candidate.cpp:17-25 | the priority of a local candidate is positive and below 2^31 |
| IceRank.PriorityReversed | rtcserver/src/ice/ice_connection.cpp:255-265 | of two pairs with the same local candidate the one with the larger remote priority is preferred, as in RFC 5245, exactly unless that alone is 2^31 or more, and by no more than the smaller one, which is at least the local one |
| IceRank.PriorityWraps | rtcserver/src/ice/ice_connection.cpp:259-265 | for every local candidate two remote priorities for which the order of the pairs is reversed |
| IceRank.PriorityOrder | rtcserver/src/ice/ice_connection.cpp:255-265 | below 2^31 pairs are ordered by smaller priority, then larger, then whether the controlling side's is larger |
| IceRank.BeforeIsLexicographic | rtcserver/src/ice/ice_controller.cpp:159-208 | the sort predicate is lexicographic in write state, receiving, priority and round trip, and ties mean equal ranks |
| IceRank.StrictWeakOrder | rtcserver/src/ice/ice_controller.cpp:159-208 | the sort predicate is a strict weak order |
| IceRank.StableSortSorts | rtcserver/src/ice/ice_controller.cpp:201-208 | the sorted list is in order |
| IceRank.StableSortStable | rtcserver/src/ice/ice_controller.cpp:201-208 | connections that rank the same keep their order |
| IceRank.StableSortUnique | rtcserver/src/ice/ice_controller.cpp:201-208 | there is only one such list, so any stable sort gives it |
| IceRank.SwitchImproves | rtcserver/src/ice/ice_controller.cpp:215-228 | a connection is returned only if none is better, it is ready to send, and it is at least 10 ms faster than the selected one |
| IceRank.SwitchSettles | rtcserver/src/ice/ice_controller.cpp:200-229 | asked again after its answer was followed, with nothing changed, it returns none |
| IceRank.TimedOutStaysSelected | rtcserver/src/ice/ice_controller.cpp:224-228 | whatever the connections, while one is ready to send, a connection that timed out stays selected exactly if the best one is not 10 ms faster |
| IceRank.TimedOutBesideWritable | rtcserver/src/ice/ice_controller.cpp:224-228 | a connection that timed out stays selected although another is first in order and can be written to |
| Ice.IceConnection.UpdateState | rtcserver/src/ice/ice_connection.cpp:184-232 | a connection stays writable exactly if it is not failing, and times out exactly if it is silent and, when it was writable, failing; every change is followed by a re-sort after which the selection is settled, and which selects only a connection of the list, with controller and channel in agreement |
| Ice.IceConnection.ReceivedPingResponse | rtcserver/src/ice/ice_connection.cpp:131-149 | after a response the connection is writable and receiving and cannot age before it is pinged again; the selection is settled if its state changed, and as before otherwise |
| Ice.IceController.OnConnectionDestroyed | rtcserver/src/ice/ice_controller.cpp:17-31 | the connection is gone from the list and both sets, which remain a partition |
| Ice.IceController.FindNextPingableConnection | rtcserver/src/ice/ice_controller.cpp:81-134 | the selected connection if it is due, else one that has waited longest of those not pinged in this round, a new round beginning when there is none; the sets remain a partition |
| Ice.IceController.SelectConnectionToPing | rtcserver/src/ice/ice_controller.cpp:60-79 | nothing before the interval is over; then, while none is selected that can be written to, one of the connections with credentials unless there is none |
| Ice.IceController.MarkConnectionPinged | rtcserver/src/ice/ice_controller.cpp:231-235 | the sets remain a partition exactly if the connection is one of the controller's |
| Ice.IceController.SortAndSwitchConnection | rtcserver/src/ice/ice_controller.cpp:200-229 | the connections are permuted into the stably sorted order, and the answer is that of the switching rule |
| Ice.IceTransportChannel.UpdateConnectionStates | rtcserver/src/ice/ice_transport_channel.cpp:344-350 | every connection's write state and receiving flag have aged by the same rule, although each change can re-sort the list and select another connection; what was settled still is |
| Ice.IceTransportChannel.PingNext | rtcserver/src/ice/ice_transport_channel.cpp:322-355 | at most one connection is pinged, not before the interval is over, and all others are as before; the sets remain a partition exactly unless the selected connection is due and was destroyed; without a writable selection it is one step of the ping rounds |
| Ice.IceTransportChannel.OnCheckAndPing | rtcserver/src/ice/ice_transport_channel.cpp:322-355 | the timer's call ages every connection, following each change, and is one step of the ping rounds if no connection is selected then that can be written to |
| Ice.IceTransportChannel.KeepPinging | rtcserver/src/ice/ice_transport_channel.cpp:322-355 | the timer going off, at least 43 ms after the last ping each time, with responses in between: of n connections that have credentials each is pinged by the time it has gone off 2n - 1 times, or n times if the clock does not go back, unless a connection is selected on the way that can be written to |
| Ice.IceTransportChannel.SortConnections | rtcserver/src/ice/ice_transport_channel.cpp:197-203 | the list is in order and nobody else is to be selected; a connection selected anew is one of the list, and the controller and the channel agree about it |
| Ice.IceTransportChannel.OnConnectionDestroyed | rtcserver/src/ice/ice_transport_channel.cpp:179-191 | when the selected connection is destroyed the others are put in order, and the best of them is selected exactly if it is ready and at least 10 ms faster than the destroyed one was; otherwise none is |
| Ice.DestroyedLeavesNone | rtcserver/src/ice/ice_transport_channel.cpp:179-191 | none is selected, although a connection can be written to, when no other is 10 ms faster than the destroyed one was |
| Ice.DestroyedIsPinged | rtcserver/src/ice/ice_transport_channel.cpp:179-191 | the only connection, selected and destroyed, is pinged when it is due and put back among the controller's, whose list is empty |
| SdpText.DecimalRoundTrip | rtcserver/src/pc/session_description.cpp:281 | a printed ssrc is read back |
| SdpLines.SsrcLineReads | rtcserver/src/pc/peer_connection.cpp:212-242 | a printed ssrc line is cut up into its parts, less any colons in front of the value |
| SdpLines.GroupLineReads | rtcserver/src/pc/peer_connection.cpp:284-329 | a printed group line adds the group |
| SdpRoundTrip.LinesRead | rtcserver/src/pc/peer_connection.cpp:386-443 | all printed lines together give each ssrc its cname, stream and track and list all groups in order |
| SdpRoundTrip.TracksCreated | rtcserver/src/pc/peer_connection.cpp:331-356 | the collected ssrcs are put back together into the tracks, in order |
| SdpRoundTrip.GroupsAttached | rtcserver/src/pc/peer_connection.cpp:456-467 | every group goes to the track of its first ssrc, in order |
| SdpSurvival.SsrcLineFilters | rtcserver/src/pc/peer_connection.cpp:177-282 | what is stored from a printed ssrc line, whatever strings are in it, survives, if no id in an msid looks like the start of a section |
| SdpSurvival.GroupLineFilters | rtcserver/src/pc/peer_connection.cpp:284-329 | so is what is stored from a printed group line |
| SdpSurvival.TracksAreGood | rtcserver/src/pc/peer_connection.cpp:331-472 | the tracks that any lines are read as have distinct ids, share no ssrc, and hold only groups whose first ssrc is theirs |
| SdpSurvival.ReadSurvive | rtcserver/src/pc/peer_connection.cpp:386-472 | whatever tracks were printed, if no line is refused those that are read are well formed and each of their strings survives |
| SdpRoundTrip.RoundTrip | rtcserver/src/pc/peer_connection.cpp:386-472 | the lines printed for any tracks are read back as the same tracks exactly if these are well formed and each cname, stream id, id and group semantics survives |
| SdpRoundTrip.TextRoundTrip | rtcserver/src/pc/session_description.cpp:284-309 | the same for the text, after any lines that lead into a video section, and then each string must also be on one line |
| SdpRoundTrip.ReadAgain | rtcserver/src/stream/rtc_stream_manager.cpp:106-115 | the tracks read from a publisher, whatever was printed for them, are read back unchanged when they are printed for a viewer |
| SdpRoundTrip.TextReadAgain | rtcserver/src/stream/rtc_stream_manager.cpp:106-115 | the same for texts, if each string of the publisher's tracks is on one line |
| SdpRoundTrip.CnameCanBeLost | rtcserver/src/pc/peer_connection.cpp:402-408 | cnames that do not survive |
| SdpReader.BuildSsrc | rtcserver/src/pc/session_description.cpp:276-309 | prints exactly the lines of the tracks |
| SdpReader.ReadSsrcInfo | rtcserver/src/pc/peer_connection.cpp:212-282 | does to the collected ssrcs what one line says |
| SdpReader.ReadSsrcGroupInfo | rtcserver/src/pc/peer_connection.cpp:284-329 | does to the collected groups what one line says |
| SdpReader.CreateTrackFromSsrcInfo | rtcserver/src/pc/peer_connection.cpp:331-356 | puts the ssrcs together into tracks by track id |
| SdpReader.SetRemoteSdp | rtcserver/src/pc/peer_connection.cpp:357-477 | the video tracks of a text, or failure at the first line that is refused |

## Left out

- The epoll, kqueue, port, io_uring, linuxaio and select backends, and what poll(2) reports: the loop is modelled up to the mask map that a backend watches.
- fd_event and poll_poll's scan of the results.
- Periodics.PeriodicsReschedule: does not model reschedule callbacks that are user code, nor periodics_reify.
- Signal delivery, child, stat, embed, fork, once, idle, prepare and check watchers, reference counts and the reading of clocks.
- Priorities are fixed when a watcher is made, in the range that pri_adjust would put them in.
- FdChanges.FdLoop.IoStart: models the linked list of an fd's watchers as a sequence, so the cycle check on the list head is not there.
- Wakeup.NoLostWakeup: assumes sequential consistency, for which the code has fences, and takes the wait time, the poll's other events and how much is read from the pipe as arbitrary.
- Weak memory in LockFreeQueue: the code has no fences on its pointers, and steps here are sequentially consistent.
- The destructor of the queue.
- HMAC-SHA1 and CRC-32 are arbitrary functions; HMAC always gives 20 bytes.
- Stun.IntegrityAccepted: a received MESSAGE-INTEGRITY attribute cut short at the end of the message counts as a mismatch, where the code would compare bytes behind the message.
- StunMessages.StunMessage.ValidateMessageIntegrity: the same holds for it.
- StunMessages.StunMessage.Read: does not say what the fields hold after a message was refused.
- Attributes that the code can write but not read: reading them is a stub in the code.
- Floating-point rounding in the filters: sums are over the reals, where order does not matter.
- Fir.FirFilterAvx2.Filter: the aligned and the unaligned load give the same values and are one here.
- Ice.IceController.FindNextPingableConnection: among connections pinged at the same time the code takes the one at the lowest address, the model any.
- Ice.IceTransportChannel.PingNext: a destroyed connection is still an object here, where the code has freed its memory.
- The state of the channel that is computed from its connections, and how it is reported.
- Clock values and round trips that do not fit the code's int variables.
- The stable sort is the library's; it is a function here, with the proof that there is only one.
- Dispatch.HandledInOrder: QUIT and failing notifications are left out, and the server's own certificate check is a free choice at each message.
- What a worker does with a message.
- SdpReader.SetRemoteSdp: the names in a bundle line, the transport description and the audio tracks are not returned; a substr that would throw counts as failure.
- Text with NUL characters in it.
- DTLS, SRTP, sockets, signalling over TCP, configuration, logging, and the client SDK.
