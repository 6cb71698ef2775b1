# A verified model of the minnow TCP/IP stack core

This project models the core of a small TCP/IP stack (a CS144 "minnow" implementation) in Dafny
and proves properties of that model. It has one module per source file:

- `WrappingIntegers` (wrapping_integers.dfy): 32-bit wire sequence numbers (`Wrap32`). `Wrap`
  turns an absolute 64-bit sequence number into a wire number relative to a zero point.
  `Unwrap` picks, among three candidates, the absolute number nearest to a checkpoint.
- `ByteStreams` (byte_stream.dfy): the flow-controlled byte stream, as a class with its buffer,
  its counters and its close and error flags. A ghost history of every byte ever written lets
  the layers above state "exactly once, in order".
- `Reassembly` (reassembler.dfy): the reassembler. It keeps a sorted, merged, strictly gapped
  list of pending spans and flushes the contiguous ones into the byte stream. Each method is
  proved against a function of the old state (`Stash`, `Flush`, `InsertSpec`), and the
  properties are proved about those functions.
- `TcpSender` (tcp_sender.dfy): the sender's state machine. `Push` fills the window with
  segments, `MaybeSend` hands them out, `Receive` filters acknowledgments and retires the
  acknowledged segments, and `Tick` runs the retransmission timer with exponential backoff.
  Push is specified by `PushShapes` (the sequence layout of the segments) filled with the
  stream's bytes.
- `TcpReceiver` (tcp_receiver.dfy): the receiver. It learns the zero point, converts sequence
  numbers into stream indices, and computes the ackno and window. `Receive` is proved against
  `ReceiveSpec`.
- `NetworkInterfaces` (network_interface.dfy): the ARP-resolving link layer. It keeps the
  mapping table, the pending-request table, the ready-frame queue and the queue of datagrams
  waiting for an address.
- `Routing` (router.dfy): the route table (an upsert keyed by prefix and length), the
  prefix-match scan, and the forwarding decision for one datagram.
- `Common` (common.dfy): machine-integer ranges, `Option`, `Min`/`Max`, `Pow2`.

Source paths below are relative to the repository root.

## Model

| member | source | states |
|---|---|---|
| WrappingIntegers.Wrap | src/wrapping_integers.cc:6-10 | the wire number is congruent to zero point + n modulo 2^32 |
| WrappingIntegers.Unwrap | src/wrapping_integers.cc:13-28 | the result is one of the k, k-1 and k+1 candidates and is no farther from the checkpoint than any of them; the fall-through `return {}` is unreachable |
| WrappingIntegers.CandidatesAgreeModulo | src/wrapping_integers.cc:16-20 | all three candidates are congruent to the offset w - zero point modulo 2^32, including the k+1 candidate that wraps in uint64_t |
| WrappingIntegers.WrapIffOffset | src/wrapping_integers.cc:6-10 | a 64-bit value wraps to w exactly when it is congruent to the offset of w |
| WrappingIntegers.WrapUnwrap | src/wrapping_integers.cc:16-27 | wrap(unwrap(w, z, c), z) == w for every checkpoint |
| WrappingIntegers.UnwrapWrap | src/wrapping_integers.cc:16-18 | unwrap(wrap(a, z), z, a) == a |
| WrappingIntegers.UnwrapNearest | src/wrapping_integers.cc:21-27 | the result is nearest to the checkpoint among ALL 64-bit values that wrap to w |
| WrappingIntegers.UnwrapTieBreak | src/wrapping_integers.cc:24-27 | ties go to the k candidate first, then to k-1 over k+1; any other result is strictly nearer than the k candidate |
| WrappingIntegers.NoNegativeCandidate | src/wrapping_integers.cc:19 | with a checkpoint below 2^32 the k-1 candidate is the k candidate, so no negative value is formed |
| WrappingIntegers.SameResidueClose | src/wrapping_integers.cc:16-20 | two values congruent modulo 2^32 and closer than 2^32 are equal |
| WrappingIntegers.UnwrapWithinHalfWindow | src/wrapping_integers.cc:13-28 | a value that wraps to w and lies within 2^31 of the checkpoint is exactly what unwrap returns |
| ByteStreams.Accepted | src/byte_stream.cc:14-25 | a push keeps the first min(avail, \|data\|) bytes of data, and stops short only when the capacity runs out |
| ByteStreams.PushView | src/byte_stream.cc:12-26 | on the producer's view, a push appends the accepted bytes, keeps written + free capacity constant, and leaves the closed flag |
| ByteStreams.ByteStream.constructor | src/byte_stream.cc:8-10 | a new stream has the given capacity, is empty, open, without error, and both counters are 0 |
| ByteStreams.ByteStream.View | src/byte_stream.cc:46-56 | the producer's view counts bytes_pushed bytes and capacity - (pushed - popped) free slots |
| ByteStreams.ByteStream.AvailableCapacity | src/byte_stream.cc:46-50 | free capacity == capacity - (bytes_pushed - bytes_popped) |
| ByteStreams.ByteStream.BytesBuffered | src/byte_stream.cc:90-94 | bytes_buffered == bytes_pushed - bytes_popped <= capacity |
| ByteStreams.ByteStream.BytesPushed | src/byte_stream.cc:52-56 | bytes_pushed is the length of the history of every byte written |
| ByteStreams.ByteStream.BytesPopped | src/byte_stream.cc:96-100 | bytes_popped + bytes buffered == every byte written |
| ByteStreams.ByteStream.IsFinished | src/byte_stream.cc:68-72 | finished iff closed and nothing is buffered (pushed == popped) |
| ByteStreams.ByteStream.Peek | src/byte_stream.cc:58-66 | empty exactly when errored or finished, otherwise the first buffered byte |
| ByteStreams.ByteStream.Push | src/byte_stream.cc:12-26 | appends exactly the accepted prefix to the buffer and the history and raises bytes_pushed by min(avail, \|data\|) (a no-op on empty data or no room); popped count and both flags unchanged, closed flag not consulted |
| ByteStreams.ByteStream.Close | src/byte_stream.cc:28-32 | sets the closed flag and changes nothing else |
| ByteStreams.ByteStream.SetError | src/byte_stream.cc:34-38 | sets the error flag and changes nothing else |
| ByteStreams.ByteStream.Pop | src/byte_stream.cc:80-88 | removes min(len, buffered) bytes from the front, keeps the rest in order, raises bytes_popped by the same amount |
| ByteStreams.Read | src/tcp_sender.cc:65 | returns the first min(len, buffered) buffered bytes and pops exactly those |
| Reassembly.InsertPos | src/reassembler.cc:73-83 | the insertion point: every span before it starts earlier (or at the same index and is no longer), the span at it does not |
| Reassembly.InsertAt | src/reassembler.cc:85 | the new span sits at the index, the spans before and after keep their order |
| Reassembly.MergeStepFlags | src/reassembler.cc:96-104 | a span inside the last merged one changes nothing; one reaching past it extends it to its end and passes on its is_last flag |
| Reassembly.MergeGapped | src/reassembler.cc:89-107 | the merge pass yields spans that are strictly gapped (end < next start) |
| Reassembly.MergeCovers | src/reassembler.cc:89-107 | on input sorted by start, merging keeps exactly the covered stream indices (the union) |
| Reassembly.MergeSlices | src/reassembler.cc:99-101 | merging slices of the true stream gives slices of it: merged bytes are never garbled |
| Reassembly.InsertSorted | src/reassembler.cc:73-85 | inserting at the insertion point into a gapped list gives a list sorted by start |
| Reassembly.StashGapped | src/reassembler.cc:68-108 | after insertToBuffer the pending list is sorted and strictly gapped |
| Reassembly.StashCovers | src/reassembler.cc:68-108 | after insertToBuffer the pending list covers exactly the old indices plus the new span's |
| Reassembly.StashSlices | src/reassembler.cc:68-108 | insertToBuffer keeps every pending span a slice of the true stream |
| Reassembly.FlushGrows | src/reassembler.cc:110-143 | checkBuffer only appends to the output |
| Reassembly.FlushItemCases | src/reassembler.cc:118-139 | a span ahead of the output is kept; any other leaves the kept list and only appends to the output; the output closes exactly when a flushed span is flagged last |
| Reassembly.FlushKeepsSuffix | src/reassembler.cc:110-143 | on a gapped list, the kept spans are a suffix of the pending list, each starting strictly after bytes_pushed |
| Reassembly.FlushExactlyOnce | src/reassembler.cc:110-143 | if the output is a prefix of the true stream and the spans are slices of it, the output stays a prefix and the kept spans stay slices |
| Reassembly.FlushCloses | src/reassembler.cc:132-138 | checkBuffer closes the output iff it was closed or it flushed a span flagged last |
| Reassembly.InsertKeepsGapped | src/reassembler.cc:17-56 | insert keeps the pending list sorted and strictly gapped |
| Reassembly.InsertExactlyOnce | src/reassembler.cc:43-52 | insert only appends to the output, leaves it a prefix of the true stream, and never writes a byte twice |
| Reassembly.InsertDelivers | src/reassembler.cc:43-51 | a span reaching bytes_pushed with room left delivers at least one new byte |
| Reassembly.InsertFutureStashes | src/reassembler.cc:35-39 | a span strictly ahead of bytes_pushed leaves the output untouched and is added to the pending indices |
| Reassembly.FutureSpanUnclipped | src/reassembler.cc:35-39 | a stashed span is stored whole even where it runs past the free capacity |
| Reassembly.OverlapMergeScenario | src/reassembler.cc:43-52 | "ab" then "abcd" at index 0 give "abcd" with nothing pending |
| Reassembly.NoPendingIffNothingCovered | src/reassembler.cc:58-66 | no pending bytes exactly when no stream index is held |
| Reassembly.MergeIntervals | src/reassembler.cc:89-107 | the merge loop builds Merge of the sorted list |
| Reassembly.FlushSpan | src/reassembler.cc:116-140 | one checkBuffer step: drop, write the unwritten suffix (closing on is_last), or keep, as FlushItem says |
| Reassembly.Reassembler.BytesPending | src/reassembler.cc:58-66 | the sum of the lengths of the stored spans |
| Reassembly.Reassembler.FindInsertPos | src/reassembler.cc:73-83 | the scan stops at InsertPos |
| Reassembly.Reassembler.InsertToBuffer | src/reassembler.cc:68-108 | the new pending list is Stash(old pending, span) |
| Reassembly.Reassembler.CheckBuffer | src/reassembler.cc:110-143 | pending list and output become Flush of the old ones |
| Reassembly.Reassembler.Insert | src/reassembler.cc:17-56 | pending list and output become InsertSpec of the old ones: empty last data closes; out-of-window or stale data is dropped; future data is stashed; otherwise the unwritten suffix is pushed, the buffer flushed, and is_last closes |
| TcpSender.AsU64 | src/tcp_sender.cc:106 | a uint64_t counter is its value modulo 2^64, the value itself below 2^64 |
| TcpSender.EffectiveWindow | src/tcp_sender.cc:50 | the window push fills is the advertised window, or exactly 1 (a one-byte probe) when the peer advertised 0 |
| TcpSender.NextShape | src/tcp_sender.cc:54-71 | a segment's payload is exactly min(MAX_PAYLOAD_SIZE, buffered, eff - in flight): at most each bound and equal to one of them |
| TcpSender.TotalLengthOfShapes | src/tcp_sender.cc:77-78 | a list of segments occupies the sequence space of its shapes |
| TcpSender.ShapesOfFill | src/tcp_sender.cc:65 | filling shapes with a buffer gives segments of exactly those shapes whose payloads are the buffer's front |
| TcpSender.FillOf | src/tcp_sender.cc:65 | segments are determined by their shapes and payloads |
| TcpSender.PushWithinBuffered | src/tcp_sender.cc:61-65 | push takes no more bytes than are buffered |
| TcpSender.PushReadsInOrder | src/tcp_sender.cc:51-82 | push's segments have PushShapes's shapes, their payloads are a prefix of the buffer, and they occupy its span |
| TcpSender.NumberedAt | src/tcp_sender.cc:59-78 | in consecutively numbered segments, segment i is numbered next_seqno plus the lengths before it |
| TcpSender.PushSegmentsConsecutive | src/tcp_sender.cc:59-78 | every queued segment is non-empty, within MAX_PAYLOAD_SIZE, numbered isn + next_seqno at build time, and next_seqno advances by its length |
| TcpSender.PushSynOnlyFirst | src/tcp_sender.cc:54-57 | only the very first segment ever queued carries SYN |
| TcpSender.PushFinLast | src/tcp_sender.cc:67-71 | FIN only on the last segment of a push, only when the stream is closed and drained, and a FIN segment ends within the effective window |
| TcpSender.PushWithinWindow | src/tcp_sender.cc:50-62 | after push the in-flight count is at most eff, plus one for a SYN sent in the same push |
| TcpSender.PushFillsWindow | src/tcp_sender.hh:14-15 | push fills the window as much as possible: when it stops, the sequence numbers in flight reach the effective window or every buffered byte was taken |
| TcpSender.SynWithPayloadExceedsWindow | src/tcp_sender.cc:54-62 | with window 1, a buffered byte goes out with the SYN, two sequence numbers in flight |
| TcpSender.RetireCountMaximal | src/tcp_sender.cc:115-129 | the receive loop retires the longest acknowledged prefix of the outstanding queue: all before are acknowledged, the next is not |
| TcpSender.RetireMonotone | src/tcp_sender.cc:115-129 | a larger ackno retires at least as many segments |
| TcpSender.ReadSegment | src/tcp_sender.cc:54-71 | one iteration builds a segment of NextShape's shape whose payload is read from the front of the stream |
| TcpSender.FillStep | src/tcp_sender.cc:52-82 | one iteration queues the segment it reads unless it is empty, advances next_seqno by its length, and takes exactly its payload from the stream; it stops after an empty, FIN or draining segment, and otherwise the rest of the push is PushShapes from after it |
| TcpSender.FillWindow | src/tcp_sender.cc:51-82 | the push loop queues segments of exactly PushShapes's shapes carrying the stream's bytes in order; next_seqno advances by their length; SYN and FIN flags record what was sent |
| TcpSender.RetireAcked | src/tcp_sender.cc:115-129 | the receive loop leaves the outstanding queue without its first RetireCount segments |
| TcpSender.TCPSender.constructor | src/tcp_sender.hh:24-38 | no SYN or FIN, counters 0, window 1, both queues empty, ncr 0, timer inactive at 0, RTO the initial one |
| TcpSender.TCPSender.SequenceNumbersInFlight | src/tcp_sender.cc:15-19 | in flight + acknowledged == next_seqno |
| TcpSender.TCPSender.ConsecutiveRetransmissions | src/tcp_sender.cc:21-25 | the RTO is the initial one doubled that many times |
| TcpSender.TCPSender.SendEmptyMessage | src/tcp_sender.cc:89-95 | a segment occupying no sequence numbers, numbered wrap(next_seqno) |
| TcpSender.TCPSender.Push | src/tcp_sender.cc:44-83 | nothing once FIN was queued; otherwise the queued segments are PushFrom of the old state, next_seqno advances by their length, the stream loses exactly their payloads, and the SYN and FIN flags are updated; Valid (recv <= next) is kept |
| TcpSender.TCPSender.MaybeSend | src/tcp_sender.cc:27-42 | none iff nothing is ready; otherwise the oldest ready segment moves to the back of the outstanding queue and the timer runs |
| TcpSender.TCPSender.Receive | src/tcp_sender.cc:101-134 | an ackno beyond next_seqno or below the last accepted one changes nothing, not even the window; otherwise ackno and window are stored, the acknowledged prefix of the outstanding queue is retired, the timer is reset only if something was retired and the window is non-zero, and the timer runs iff segments remain |
| TcpSender.TCPSender.Tick | src/tcp_sender.cc:136-151 | while running, time accumulates; on expiry with something outstanding the oldest outstanding segment is queued again without being removed, ncr and RTO double when the window is non-zero, and the elapsed time resets |
| TcpReceiver.StreamIndex | src/tcp_receiver.cc:23 | the stream index is the unwrapped sequence number minus one, in uint64_t |
| TcpReceiver.ReceiveBeforeSynIgnored | src/tcp_receiver.cc:18-21 | before any zero point, a segment without SYN changes nothing |
| TcpReceiver.ReceiveSynSetsZeroPoint | src/tcp_receiver.cc:12-17 | a SYN sets the zero point to its seqno, overwriting any earlier one, and its payload starts at stream index 0 |
| TcpReceiver.StreamIndexRoundTrip | src/tcp_receiver.cc:22-25 | a payload sent at wrap(i + 1) is inserted at stream index i, when i + 1 is within 2^31 of bytes_pushed |
| TcpReceiver.ReceiveKeepsGapped | src/tcp_receiver.cc:9-32 | receive keeps the reassembler's pending list sorted and strictly gapped |
| TcpReceiver.ReceiveExactlyOnce | src/tcp_receiver.cc:9-32 | end to end: a segment carrying true-stream bytes only appends to the inbound stream and leaves it a prefix of the true stream |
| TcpReceiver.EarlyFinCloses | src/tcp_receiver.cc:26-31 | a FIN closes the stream as soon as nothing is pending, wherever its sequence number lies |
| TcpReceiver.WrapOfAsU64 | src/tcp_receiver.cc:46-48 | wrapping a truncated count adds it to the zero point modulo 2^32 |
| TcpReceiver.AddAdd | src/tcp_receiver.cc:46-48 | adding two counts in turn adds their sum modulo 2^32 |
| TcpReceiver.TCPReceiver.Receive | src/tcp_receiver.cc:9-32 | fields, pending list and inbound stream become ReceiveSpec of the old ones: SYN sets the zero point, a payload is inserted at its stream index with the FIN flag, FIN is recorded and closes the stream iff nothing is pending |
| TcpReceiver.TCPReceiver.Send | src/tcp_receiver.cc:38-50 | window == min(available capacity, 65535); an ackno exactly when the zero point is known, equal to zero point + bytes_pushed + 1 (+1 when FIN was seen and the stream is closed) modulo 2^32 |
| TcpReceiver.TCPReceiver.AcknoRoundTrip | src/tcp_receiver.cc:46-49 | a sender unwrapping the ackno near its own count recovers bytes_pushed + SYN (+ FIN) exactly |
| NetworkInterfaces.ReleasePartitions | src/network_interface.cc:87-93 | releasing the queue loses and duplicates nothing: each waiting datagram goes out once to its mapped address or stays, and only unmapped ones stay |
| NetworkInterfaces.LearningReleasesWaiters | src/network_interface.cc:83-93 | learning one address releases exactly the datagrams waiting for it, all to the new address, and keeps the rest |
| NetworkInterfaces.UnmappedStaysQueued | src/network_interface.cc:87-93 | a datagram whose next hop is unmapped stays queued |
| NetworkInterfaces.FlushStepAsWritten | src/network_interface.cc:87-93 | one iteration of the loop as written: a mapped front is sent and dropped, an unmapped front changes nothing |
| NetworkInterfaces.FlushAsWrittenNeverDrains | src/network_interface.cc:87-93 | as written, a queued datagram with an unmapped next hop is still queued after any number of iterations |
| NetworkInterfaces.ArpFromOtherHostHangs | src/network_interface.cc:80-93 | an ARP message from host 1 with a datagram for host 2 queued: the loop as written never drains, the corrected release keeps the datagram |
| NetworkInterfaces.FlushAsWrittenWhenAllMapped | src/network_interface.cc:87-93 | when every queued next hop is mapped, the loop as written ends and agrees with the corrected release |
| NetworkInterfaces.YoungTimes | src/network_interface.cc:120-127 | the pending requests kept are exactly those younger than the limit, with their times |
| NetworkInterfaces.YoungMappings | src/network_interface.cc:129-137 | the mappings kept are exactly those younger than the limit, unchanged |
| NetworkInterfaces.NetworkInterface.constructor | src/network_interface.cc:10-16 | no mappings, no pending requests, both queues empty, time 0 |
| NetworkInterfaces.NetworkInterface.SendDatagram | src/network_interface.cc:24-66 | with a mapping, exactly one IPv4 frame from this MAC to the mapped MAC; otherwise the datagram waits and one broadcast ARP request is queued, its time recorded, only if none is pending |
| NetworkInterfaces.NetworkInterface.Release | src/network_interface.cc:87-93 | the corrected release: the mapped waiting datagrams are sent in queue order and the rest stay queued in order |
| NetworkInterfaces.NetworkInterface.RecvFrame | src/network_interface.cc:69-114 | an IPv4 frame yields its datagram iff it parses and is addressed to this MAC; a parsed ARP message maps its sender at the current time, clears its pending request, releases the waiting datagrams, and a request for this IP queues one reply with sender and target swapped; anything else changes nothing |
| NetworkInterfaces.NetworkInterface.Tick | src/network_interface.cc:117-139 | time advances; pending requests at least 5000 ms old and mappings at least 30000 ms old are erased, all others kept |
| NetworkInterfaces.NetworkInterface.ExpireRequests | src/network_interface.cc:120-127 | the first loop of tick keeps exactly the young pending requests |
| NetworkInterfaces.NetworkInterface.ExpireMappings | src/network_interface.cc:129-137 | the second loop of tick keeps exactly the young mappings |
| NetworkInterfaces.NetworkInterface.MaybeSend | src/network_interface.cc:141-149 | none iff no frame is ready; otherwise the oldest ready frame, removed |
| Routing.KeyIndex | src/router.cc:24-33 | the position of the route with the given prefix and length, -1 iff there is none |
| Routing.UpsertStoresRoute | src/router.cc:24-36 | add_route stores the route at its key, leaves every other route in place, grows the table only for a new key, and keeps keys unique |
| Routing.UpsertKeepsLengths | src/router.cc:24-36 | adding a route of length at most 32 keeps every length at most 32 |
| Routing.UpsertFacts | src/router.cc:24-36 | unique keys, and lengths in range, carry over to the upserted table |
| Routing.MaskHighBits | src/router.cc:48 | the mask has exactly the top prefix_length bits set |
| Routing.FullMaskIsEquality | src/router.cc:48-49 | a /32 route applies to its own address and no other |
| Routing.MaskNested | src/router.cc:48-49 | agreement on the top long bits implies agreement on fewer |
| Routing.LongestUnique | src/router.cc:40-56 | at most one index is the earliest longest applicable route |
| Routing.LongestExtend | src/router.cc:49-52 | considering one more route keeps the choice or takes a strictly longer match |
| Routing.LongestRestart | src/router.cc:44-47 | a /0 route, searched from itself, is the choice |
| Routing.LastDefault | src/router.cc:44-47 | the position of the last /0 route, or -1 |
| Routing.DefaultRouteOverridesLongerMatch | src/router.cc:44-47 | with a /8 route before a default route, match as written picks the default route for an address the /8 covers |
| Routing.MatchAsWrittenWithoutDefault | src/router.cc:40-56 | without /0 routes, match as written is longest-prefix match |
| Routing.Router.AddRoute | src/router.cc:14-37 | the table becomes the upsert of the new route; keys stay unique |
| Routing.Router.Match | src/router.cc:40-56 | -1 iff no route from the last /0 route on applies; otherwise an applicable route, the earliest of the longest from the last /0 route on |
| Routing.Router.BestMatch | src/router.cc:40-56 | the corrected match: -1 iff no route applies; otherwise the earliest of the longest applicable routes |
| Routing.Router.Route | src/router.cc:58-88 | dropped iff no route applies or TTL <= 1; otherwise sent on the route's interface, to its next hop or the destination itself, with TTL one lower |

## Left out

- Serialisation and parsing of Ethernet frames, ARP messages and IPv4 datagrams
  (src/network_interface.cc:38,61,74,80). Frames and datagrams are abstract datatypes, and
  parse succeeds exactly on a serialised value.
- The IPv4 checksum recomputation (src/router.cc:79). Only the header fields the router reads
  (TTL, source, destination) are modelled.
- Debug output to the console (src/network_interface.cc:14, src/router.cc:19-21,62).
- The random ISN (src/tcp_sender.cc:11). The ISN is a constructor parameter.
- The floating-point `pow` in tick (src/tcp_sender.cc:146). The RTO is the exact integer
  initial_RTO * 2^ncr (`Pow2`).
- Fixed-width counters. uint64_t counters (next_seqno, bytes pushed and popped, timestamps)
  are unbounded `nat`s. They are truncated with `AsU64` where they are passed to unwrap, as
  in the source.
- Reassembly.Reassembler.BytesPending: sums into an unbounded `nat`. The source's accumulator
  (`auto size_ = 0` at src/reassembler.cc:61) is an `int`, which overflows once more than
  2^31 - 1 bytes are pending; that wrong value is not modelled.
- ByteStreams.ByteStream.Push: indexes `data` with an unbounded `nat`. The source's index
  (src/byte_stream.cc:18) is a 32-bit `uint`, which wraps for a push of 2^32 bytes or more;
  that wrap-around is not modelled.
- The byte_stream.hh `read` helper and `Wrap32::operator+` are not part of this model. `Read`
  and `Add` stand in for them with their evident meaning.
- TCPConfig::MAX_PAYLOAD_SIZE is not part of this model. It is the constant 1000.
- network_interface.hh is not part of this model. The initial values of `timestamp_` (0) and
  of the tables and queues (empty) are assumed.
- Router::route's loop over the interfaces, `maybe_receive`, and the hand-over of the datagram
  to the interface (src/router.cc:58-88). `Route` returns the forwarding decision for one
  datagram instead.
- Routing.Router.Match: requires every prefix length to be at most 32. A longer one makes the
  shift at src/router.cc:48 undefined behaviour in C++.
- Routing.Router.Route: uses the corrected BestMatch, not the /0-overriding match (see Findings).
- NetworkInterfaces.NetworkInterface.RecvFrame: releases the waiting datagrams with the
  terminating Release, not the loop as written (see Findings).
- NetworkInterfaces.NetworkInterface.Tick: each erase-while-iterating loop is a separate
  method (ExpireRequests, ExpireMappings) that visits the keys in an arbitrary order. The
  source visits them in map order, which does not change the result.
- TcpSender.TCPSender.Push: the loop is a separate method (FillWindow), and its body another (FillStep). Push is specified by
  the shapes of the segments (PushShapes) filled with the stream's bytes (PushFrom).
- ByteStreams.ByteStream.Peek: requires a non-empty buffer when the stream is neither
  errored nor finished. The source reads the front of an empty queue in that case, which is
  undefined.
- ByteStreams.ByteStream: the buffer is a `seq`, not a `std::queue<char>`.

## Findings

| source | as written | input that shows it | evidently intended | confidence | as-written member | corrected member |
|---|---|---|---|---|---|---|
| src/router.cc:44-47 | a /0 route becomes the match unconditionally, replacing any earlier, longer match | routes 10.0.0.0/8 (interface 1), then 0.0.0.0/0 (interface 0); destination 10.1.2.3 goes out by the default route | longest-prefix match: the /8 route wins | not executed | Routing.Router.Match, Routing.DefaultRouteOverridesLongerMatch | Routing.Router.BestMatch (used by Routing.Router.Route) |
| src/network_interface.cc:87-93 | the loop over the waiting datagrams only pops the front when its next hop is mapped, so it spins forever when the front's next hop is unmapped | a datagram for 2 waits (no mapping); an ARP message from 1 arrives | send the datagrams whose next hop is now mapped, keep the others queued | not executed | NetworkInterfaces.FlushAsWrittenNeverDrains, NetworkInterfaces.ArpFromOtherHostHangs | NetworkInterfaces.NetworkInterface.Release (used by NetworkInterfaces.NetworkInterface.RecvFrame) |
