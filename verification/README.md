# A verified model of the router

This project models, in Dafny, the two connected parts of the router program that carry its weight, and the
receiving side of the packet monitor that understands its replies.

**The ARP cache, the pending buffers and the sender thread.** For each of two devices the router keeps a growable
array of cache entries (free, resolved, unresolved). Every entry owns a doubly linked queue of frames that wait for a
MAC address. One scan of the array finds an address, gives up stale entries on the way and reuses or adds a slot. When
an ARP frame resolves an entry with waiting frames, a queue of requests without duplicates tells a second thread to
send them. A frame bypasses the queue only when the entry is resolved and nothing waits.

**The Internet checksum and the rewriting of headers.** The checksum loops keep a 32-bit register that is folded
lazily; both forwarding paths lower the TTL and recompute the checksum; an expired packet is answered with an ICMP
message; the monitor checks headers, ICMP messages and pseudo-headers.

## How the model is built

- `Bytes`, `OnesComplement`, `ChecksumLoops`, `ByteOrder`, `Acceptance`: the checksum loops as methods, against the
  unbounded sum of the words.
- `Frames`, `BitErrors`, `MultiHop`, `Icmp`, `PseudoHeader`: what happens to a frame's bytes, in place in arrays, which
  corruptions are noticed, and what a chain of such routers does to a packet.
- `Cache`: one table as a value, and what one search does to it.
- `SendBuf`, `SendReqQueue`, `CacheTable`, `Router`: the program on the heap. Entries and queue nodes are objects linked
  by `next` and `before`, the table is an array that is replaced by a larger one, and the threads' code is methods. Each
  method is proved to change the heap exactly as a function on values says.
- `RouterSystem`: those functions put together into a step system. A step is one received frame, or one action of the
  sender thread: take a request, send one frame, find the queue empty. The state carries histories: ARP frames
  accepted, frames handed over for sending, frames written, frames dropped. `Router.Router.AnalyzePacket`,
  `TakeRequest`, `SendOneFrame` and `NoteEmpty` take exactly these steps.
- `Structure`, `Delivery`, `Wakeup`, `MacHistory`, `Runs`: what every step keeps, and from it what holds in every run.
- `Arrivals`: what becomes of a received frame, from its bytes and the map of bindings, without the functions that the
  step system is made of.
- `Network`: a packet on its way through routers each of which is somewhere in a run of its own.
- `Splits`: the same step system with two steps taken apart that no lock holds together in the program: the router
  thread's guard and append, and the sender thread's taking of a frame, reading of the MAC and writing. Every run of
  whole steps is a run there (`Splits.AtomicRuns`). For each main result on runs there is one about this system:
  `Forgotten`, `Overtaking` and `Addressing` give the exact condition for those that can fail there, `Lossless` and
  `Unharmed` prove those that cannot.
- `Races`: runs from power-on that go wrong, to show where the theorems end.

Conventions. Words are little-endian, as loaded on the machine the program is written for. Sizes are 14 for the Ethernet
header, 20 for the IP header, 28 for an ARP message and for `struct icmp`. C's unsigned arithmetic is written out: sums
wrap at 2^32, the queue's counters at 2^64, the TTL at 2^8. `time()` is a parameter of each step and may be anything; no
theorem needs it to be monotone. The tests for 1500 or more bytes of options are left away: the four bits of `ihl` allow
at most 40.

A received frame lies at the start of the 2048-byte receive buffer, whose remaining bytes are arbitrary. A frame that is
long enough for the code to look at its IP header is taken to hold the whole header with its options; the code does not
check this, and its buffered path would read beyond the copied frame otherwise.

## What the code does that one might not expect

- A TTL of 0 passes the test, which looks for 1 only, and becomes 255: such a packet is forwarded 255 times
  (`MultiHop.ForwardedTtlMinusOneTimes` covers it).
- A MAC that arrives for an unresolved entry does not refresh the entry's time. The entry can be given up, with its
  waiting frames, by the next search for another address, while the request to drain its slot is still queued. The
  sender thread does not look at the entry's state, so frames waiting in a slot that has been taken over leave with the
  all-zero MAC. `Races.ZeroMacRun` is such a run; `MacHistory.BufferedFrameMac` says exactly when a buffered frame
  leaves with the right MAC; `Runs.CalmRunsUseTrueMacs` says that nothing of the kind happens as long as no slot is
  given up while its draining is due.
- The buffered path leaves the source MAC as received; the direct path replaces it (`Frames.PathEquivalence`).
- With an odd first part, `checksum2` joins the two bytes at the seam in the wrong order. It agrees with the checksum of
  the concatenation exactly when the two bytes are equal (`ChecksumLoops.TwoPartsIffConcatenation`). Every caller
  passes an even length.
- The theorems of `Runs` and `Wakeup` take each step as a whole, and the program holds no lock over two of them. With
  those two taken apart (`Splits`), three things can go wrong, and for each the exact condition is proved, for one event
  and for whole runs.
  - A frame is forgotten if and only if it is appended to a resolved entry whose slot the sender thread has left since
    the guard was passed (`Forgotten.SafeIffNotLeft`, `Forgotten.LateAppendForgottenIff`,
    `Forgotten.NothingForgottenIff`); a test just before the append would tell. `Races.ForgottenRun` does it.
  - The frames for a next hop get out of order if and only if one is sent directly while the sender thread has an older
    one in hand (`Overtaking.SplitWriteOvertakesIff`, `Overtaking.OrderKeptIff`). `Races.OvertakingRun` does it.
  - A frame in hand leaves with another MAC than the latest of its next hop, even with that of another neighbour, if and
    only if what its slot held when the MAC was read does not amount to the latest MAC when it is written
    (`Addressing.HeldFrameMacIff`, `Addressing.MacsTrueIff`). `Races.MisaddressedRun` does it: the slot is given to
    another neighbour between taking and reading. If no slot is given up while its draining is due, it happens if and
    only if the neighbour announces another MAC between reading and writing (`Addressing.CalmSplitRunsIff`). A MAC that
    nobody on the device has announced is never used, but for the all-zero one (`Addressing.OnlyAnnouncedMacs`).

  No interleaving loses or doubles a frame (`Lossless.NothingLostOrDoubled`), changes a packet otherwise than forwarding
  does, or breaks a bound (`Unharmed`), and the sender thread still gets through its work
  (`Forgotten.SplitDrainsEverything`).
- The Time Exceeded reply quotes 64 bytes of the packet, or of whatever follows it in the buffer; RFC 792 asks for the
  IP header and 64 bits.

## Model

| member | source | states |
|---|---|---|
| OnesComplement.OnesSumIsCanon | router/netutil.c:181-200 | folding the carry in after every addition (RFC 1071 section 1) gives the canonical 16-bit form of the unbounded sum: 0 for 0, else ((n-1) mod 65535)+1 |
| OnesComplement.CanonCharacterised | router/netutil.c:196-200 | two sums have the same canonical form exactly when they are congruent modulo 65535 and both or neither are 0 |
| OnesComplement.SumPermutation | router/netutil.c:181-187 | the sum depends on the multiset of words only |
| ChecksumLoops.AccumulatorNeverWraps | router/netutil.c:181-187 | with lazy folding the register stays below 2^31 after every step and no addition reaches 2^32, for any number of words |
| ChecksumLoops.Finish | router/netutil.c:196-200 | the final fold loop runs at most twice, not at all exactly for sums that fit 16 bits, and yields the complement of the canonical sum |
| ChecksumLoops.AddWords | router/netutil.c:181-187 | the main loop, with 32-bit wrap-around written out, consumes exactly the whole words and equals the unbounded lazily folded sum |
| ChecksumLoops.Checksum | router/netutil.c:173-201 | for every byte string and length the result is the closed form, which equals the complement of the sum folded after every addition; at most two final folds |
| ChecksumLoops.HighLoad | router/netutil.c:219-222 | the odd branch's 16-bit value has the next buffer's first byte low and this buffer's last byte high; the byte loaded beyond the buffer has no influence |
| ChecksumLoops.Checksum2 | router/netutil.c:203-252 | the two-buffer loop yields the closed form of its word sequence for every pair of lengths it accepts, odd first and non-positive second lengths included; at most two final folds |
| ChecksumLoops.TwoPartsIffConcatenation | router/netutil.c:209-238 | two buffers are summed like their concatenation if and only if the first length is even or the two bytes at the seam are equal |
| ChecksumLoops.VerifiesIffDivisible | router/netutil.c:260-273 | the test for 0 or 0xFFFF succeeds if and only if the sum of the words is a multiple of 65535 |
| ByteOrder.ByteOrderIndependence | router/netutil.c:178-200 | little-endian words stored little-endian and big-endian words stored big-endian put the same two checksum bytes on the wire, for either parity, for the closed form and for what the loops compute on either machine (RFC 1071 section 2(B)) |
| Acceptance.CheckIpChecksum | router/netutil.c:254-275 | accepts if and only if the words of header and options add up to a multiple of 65535; a negative option length counts as none |
| Acceptance.OneWordChange | router/netutil.c:254-275 | changing one aligned word of an accepted header keeps it accepted if and only if the word is unchanged or 0x0000 and 0xFFFF are exchanged |
| Acceptance.SingleBitErrorDetected | router/netutil.c:254-275 | every single-bit error in an accepted header is rejected, the option length being taken as given |
| BitErrors.SingleBitErrorNoticedIff | router/main.c:167-182 | in a frame, with the option length read from the frame itself: a single-bit error in an accepted header goes unnoticed if and only if it changes the header length and the bytes that become or cease to be header make up for it modulo 65535 |
| BitErrors.UnnoticedLengthError | router/main.c:167-182 | a payload with which an error in the header length does go unnoticed |
| Acceptance.WordOrderIrrelevant | router/netutil.c:173-252 | any rearrangement of aligned words has the same checksum and is accepted or rejected alike |
| Acceptance.StoredChecksumVerifies | router/main.c:233-235 | storing the checksum computed over a zeroed aligned field makes any block of bytes acceptable |
| Frames.HeaderLength | router/main.c:167-178 | the header that is looked at is as long as the low four bits of byte 14 times four say, for every value, but never shorter than 20 bytes |
| Frames.VerdictByBytes | router/main.c:179-188 | read from the bytes: a frame is discarded if and only if the words of that header do not add up to a multiple of 65535, and otherwise answered if and only if byte 22 is 1 |
| Frames.RoutedHeader | router/ip2mac.c:191-197 | a forwarded header is accepted by the next receiver, has its TTL lowered by one modulo 256, and differs nowhere else but in the checksum |
| Frames.FullEqualsIncremental | router/main.c:232-235 | for every accepted header with TTL other than 1 the full recomputation equals HC' = ~(~HC + ~m + m') of RFC 1624 section 3, including the representation of zero |
| ByteOrder.FullEqualsIncrementalInNetworkOrder | router/main.c:232-235 | the same equation for the words as they stand in the header, in network order |
| Frames.BothPathsRoute | router/main.c:229-237 | both paths put that same header where the received one was |
| Frames.PathEquivalence | router/ip2mac.c:174-200 | buffered and direct forwarding of a frame agree in every byte except 6 to 11, which the buffered path leaves as received |
| Frames.AgeInPlace | router/main.c:232-235 | decrement, zero, recompute and store in the buffer give the routed header and touch nothing else |
| Frames.RewriteDirect | router/main.c:229-235 | the direct rewrite in the receive buffer gives the directly forwarded frame; bytes beyond the frame stay |
| Frames.RewriteBuffered | router/ip2mac.c:174-197 | the sender thread's rewrite of its copy gives the buffered frame |
| MultiHop.OneHop | router/main.c:229-237 | a frame forwarded by either path is accepted at the next hop, is the same packet, and has one hop less to go |
| MultiHop.ForwardedTtlMinusOneTimes | router/main.c:179-188 | through any chain of routers, each using either path, an accepted packet is forwarded exactly TTL-1 times (255 times for TTL 0) if the chain is long enough, and is accepted and unchanged but for TTL and checksum at every hop |
| MultiHop.ExpiresAfterLastHop | router/main.c:184-188 | along the way a packet expires exactly when it has used up its hops, and is forwarded exactly before that |
| Network.TravelledFar | router/main.c:179-188 | a packet relayed by n routers, each in any run of its own and by either path, is accepted and unchanged but for TTL and checksum after each, and n is at most its hops |
| Network.ArrivalAfterHops | router/main.c:184-237 | in whatever state a router is: it writes one Time Exceeded, with its own MAC and address as source and to the packet's sender, and changes nothing else if and only if the packet has used up its hops, and hands it over once for its next hop if and only if it has not |
| Network.JourneyEnds | router/main.c:184-237 | both together: a packet with TTL t is relayed at most t-1 times and the router after the last answers it, for any network and any history of its routers |
| Icmp.SendIcmpTimeExceeded | router/main.c:53-104 | the bytes written are the specified reply |
| Icmp.TimeExceededLayout | router/main.c:62-97 | byte by byte: the reply is an IP packet of type 11, code 0, with TTL 64, from the receiving device to the packet's sender, and quotes 64 bytes from the packet's IP header on |
| Icmp.TimeExceededIsAccepted | router/main.c:66-97 | whatever was received, the reply's IP total length is the number of bytes after Ethernet, and the monitor accepts its header and its ICMP checksum |
| Icmp.AnalyzeIp | pcap/analyze.c:133-178 | the monitor's judgement of a packet, up to its ICMP branch, is the one defined by sums modulo 65535 |
| Icmp.LengthsByBytes | pcap/analyze.c:152-172 | the header length and the payload length that the monitor goes by, from the bytes, for every header length |
| Icmp.GoodIcmpByBytes | pcap/analyze.c:133-178 | a packet passes as ICMP if and only if byte 9 is 1, its header sums up to a multiple of 65535, and so do the bytes from there to the total length |
| PseudoHeader.CheckIpDataChecksum | pcap/checksum.c:136-152 | accepts if and only if the RFC 793 pseudo-header followed by the data verifies |
| PseudoHeader.Rfc793Bytes | pcap/checksum.c:136-152 | that pseudo-header byte by byte: the addresses, a zero, the protocol, the length in network order |
| PseudoHeader.CheckIp6DataChecksum | pcap/checksum.c:154-172 | accepts if and only if the RFC 8200 section 8.1 pseudo-header followed by the data verifies, for 4-byte and 8-byte `unsigned long` |
| PseudoHeader.StructAgreesWithRfc8200 | pcap/checksum.c:26-33 | the struct of 48 or 40 bytes gives the same checksum as the RFC layout for all addresses, lengths, next headers and payloads |
| SendBuf.Ip2Mac.AppendSendData | router/sendBuf.c:19-68 | on a well-formed doubly linked queue: the frame goes to the end and both counters grow, or nothing changes when more than 1048576 bytes wait |
| SendBuf.Ip2Mac.GetSendData | router/sendBuf.c:70-105 | the oldest frame is unlinked and returned and both counters shrink, or -1 and nothing changes |
| SendBuf.Ip2Mac.FreeSendData | router/sendBuf.c:107-136 | the queue is emptied while both counters keep their values |
| SendBuf.Ip2Mac.Visit | router/ip2mac.c:46-97 | one turn of the scan on the heap: stops exactly at a hit and touches it, otherwise gives up the entry exactly if it is stale |
| SendBuf.Ip2Mac.Fill | router/ip2mac.c:118-130 | the slot becomes a new entry with empty queue and zero counters |
| Cache.AppendKeepsGood | router/sendBuf.c:26-61 | a frame is refused if and only if more than 1048576 bytes wait; otherwise it goes to the end, and `dno` stays the number and `inBucketSize` the bytes of waiting frames, without overflow, within 1048576 + 2048 bytes |
| Cache.GetKeepsGood | router/sendBuf.c:76-99 | removing keeps both counters exact, without going below zero |
| Cache.SearchSlots | router/ip2mac.c:43-137 | slot by slot, what a search changes |
| Cache.SearchKeepsGood | router/ip2mac.c:34-138 | a search keeps at most one live entry per address, exact counters, empty free slots, zero MACs of unresolved entries and the capacity rule |
| Cache.SearchRefinesMap | router/ip2mac.c:43-137 | a search is a map operation: a binding is returned with its queue if it is resolved, whatever its age, or a MAC is given, or its time is at most 1 second ago, and any other is replaced by a new one; other bindings change only by disappearing, resolved ones only after more than 60 seconds and unresolved ones after more than 1; after an insertion none that old is left; the sender is asked exactly when a MAC is given for an address with waiting frames |
| Cache.InsertTakesFirstSlot | router/ip2mac.c:64-116 | a new binding goes to the first slot that is free or held by a resolved entry of more than 60 seconds or an unresolved one of more than 1, or else to a slot added at the end |
| Cache.GrowsOnlyWhenFull | router/ip2mac.c:100-116 | after a search the number of slots is the larger of the old number and the live entries |
| CacheTable.Ip2MacTable.Scan | router/ip2mac.c:45-98 | the loop over the array stops at the first hit, has swept exactly the entries before it, and otherwise knows the first free slot |
| CacheTable.Ip2MacTable.Grow | router/ip2mac.c:102-112 | the array is replaced by one with 1024 more slots and the same entries |
| CacheTable.Ip2MacTable.Insert | router/ip2mac.c:100-130 | the first free slot, or a new one, takes the address |
| CacheTable.Ip2MacTable.Ip2MacSearch | router/ip2mac.c:34-138 | table, returned slot and request queue after the call are those of the specified search |
| SendReqQueue.SendReq.AppendSendReqData | router/ip2mac.c:220-259 | on a well-formed doubly linked list: the pair is added at the end unless it is there already |
| SendReqQueue.SendReq.GetSendReqData | router/ip2mac.c:261-288 | the oldest pair is unlinked and returned, or -1 |
| Router.Router.Resolve | router/ip2mac.c:140-158 | the search, its wake-up and the ARP request for an unresolved entry, as the specified lookup step |
| Router.Router.HandOver | router/main.c:207-237 | the frame waits exactly if the entry is unresolved or frames already wait, and is rewritten and written at once otherwise |
| Router.Router.AnalyzePacket | router/main.c:106-241 | handling a received frame on the heap is exactly the arrival step, for every buffer content, every branch, early return and return code included |
| Structure.ReturnCodeTells | router/main.c:203-240 | whenever an arriving frame is forwarded at once the code is 0, and for a frame to be forwarded exactly then; 1 means that nothing has happened; the router's own replies and ARP requests do not show in the code |
| Arrivals.ArrivalByBytes | router/main.c:106-241 | every received frame by its bytes: too short or for another MAC, nothing happens; with bytes 8, 0 it is ignored, answered or passed on by its verdict; with bytes 8, 6 and operation 1 or 2 its sender's MAC and address, bytes 22 to 27 and 28 to 31, are recorded; anything else is ignored |
| Arrivals.HeardIsBound | router/main.c:142-152 | after such an ARP frame the sender's address has a resolved binding with the sender's MAC |
| Arrivals.ForwardByBindings | router/main.c:203-237 | in terms of the map of bindings: a frame is written at once, with the binding's MAC and the device's own, if and only if its next hop is resolved and nothing waits for it; otherwise it is put behind what waits for it, or lost if and only if more than 1048576 bytes wait |
| Arrivals.AsksIffUnresolved | router/ip2mac.c:140-158 | an ARP request goes out for the next hop if and only if it has no resolved binding |
| Arrivals.CodeByBindings | router/main.c:203-240 | the return code for a packet to be routed: 1 if it is for the router, 0 if its next hop is resolved and nothing waits for it, and -1 otherwise |
| RouterSystem.HopsAreNeighbours | router/main.c:194-220 | frames leave a device only for its neighbours if and only if the default router is one of them or the segment is everything |
| Bytes.AndBit | router/main.c:194-194 | every bit of `a & b` is set exactly where both have it |
| RouterSystem.OnSegmentBits | router/main.c:194-194 | an address is on a device's segment if and only if each bit of the subnet is set exactly where both the address and the mask have it set |
| Runs.HandedToNeighbours | router/main.c:194-220 | in every run every frame handed over was accepted and unexpired and goes to its destination on its own segment, never the router itself, or else to the default router; if that is a neighbour, every next hop is |
| Router.Router.TakeRequest | router/ip2mac.c:308-311 | taking a request is exactly the pop step |
| Router.Router.SendOneFrame | router/ip2mac.c:169-201 | one turn of the sender's loop is exactly the sending step, or finds the queue empty |
| Router.Router.BufferSendOne | router/ip2mac.c:160-204 | draining a slot is a run of sender steps that ends with the slot left |
| Router.Router.ServeRequests | router/ip2mac.c:308-313 | the nested loops terminate within the measured work, are a run of sender steps, and leave no request and no resolved entry with waiting frames |
| Structure.StepKeepsGood | router/ip2mac.c:34-138 | every step keeps both tables well formed and all requests distinct and within the tables |
| Structure.ArrivalEffect | router/main.c:106-241 | an arriving frame changes nothing but originated frames, or is one lookup, or one lookup and one hand-over of an accepted unexpired frame |
| Delivery.StepDelivered | router/main.c:206-237 | every step keeps the balance of every next hop's account, the labels of waiting frames and the records of written ones |
| Delivery.SurvivorsExact | router/main.c:206-237 | the frames due to a next hop are exactly those handed over for it and not dropped, each once, in the order handed over |
| Runs.PerNeighbourFifo | router/ip2mac.c:160-204 | in every run, for every device and next hop, the frames written followed by the frames waiting are exactly the frames handed over less the dropped ones, in order, across expiry and slot reuse |
| Runs.Conservation | router/sendBuf.c:19-136 | in every run every frame handed over is exactly one of: dropped, waiting in one place, written once |
| Runs.ForwardedIsOneHopFurther | router/ip2mac.c:174-200 | in every run whatever is written for a received frame is that packet one hop further: accepted by the next router, TTL one lower, no other IP byte but the checksum changed, addressed to the recorded MAC, from the device's own MAC if it went out at once and from the one it came with if it waited |
| Runs.NoForgottenBuffer | router/ip2mac.c:57-62 | in every run a resolved entry with waiting frames is in the request queue or being drained |
| Wakeup.SenderStepWork | router/ip2mac.c:169-201 | every action of the sender thread uses up exactly one unit of the measured work |
| Wakeup.SenderDrainsEverything | router/ip2mac.c:308-313 | once no frame arrives, every run of the sender thread ends within the measured work, and when it has nothing to do every resolved entry's queue is empty |
| Wakeup.SenderReachesQuiet | router/ip2mac.c:308-313 | until then one of its actions is possible, so it gets there |
| Wakeup.RequestsBounded | router/ip2mac.c:229-234 | the request queue is never longer than the two tables together |
| Runs.CacheMatchesHistory | router/ip2mac.c:53-62 | in every run of whole steps a resolved entry holds the sender MAC of the latest accepted ARP frame from its address; every directly forwarded frame leaves with that MAC, every buffered one with that MAC or the all-zero one (`Addressing.MacsTrueIff` for steps taken apart) |
| MacHistory.LastMacHeard | router/ip2mac.c:53-56 | the latest MAC of an address on a device is that of the last ARP frame from it accepted there, and there is none exactly if there was none |
| MacHistory.BufferedFrameMac | router/ip2mac.c:188-200 | a buffered frame leaves with the latest MAC if and only if its entry is resolved at that moment or the latest MAC is itself all-zero |
| Runs.CalmRunsUseTrueMacs | router/ip2mac.c:54-59 | in every run in which no slot is given up while its draining is due, every frame leaves with the latest MAC of its next hop |
| Runs.Bounds | router/sendBuf.c:26-61 | in every run: exact counters of live entries, at most 1048576 + 2048 bytes waiting, 34 bytes per waiting frame at least, distinct requests for existing slots, and the bound on their number |
| Runs.HighWaterMark | router/ip2mac.c:100-116 | in every run the number of slots is the largest number of entries live after any step so far, and the capacity is the least multiple of 1024 that holds them |
| Races.ZeroMacRun | router/ip2mac.c:54-59 | a run from power-on in which a frame is written with the all-zero MAC and another is lost |
| Splits.AtomicRuns | router/ip2mac.c:160-204 | every run of whole steps is a run of the system with the two steps apart |
| Splits.PartsMakeArrival | router/main.c:207-209 | guard and append with nothing in between are the whole arrival step |
| Splits.GuardIffWaits | router/main.c:207-209 | the router thread can stop between the two exactly for a frame that the whole step would hand over without sending it |
| Splits.PartsMakeSending | router/ip2mac.c:170-200 | taking, reading the MAC and writing with nothing in between are the whole sending step |
| Forgotten.LateAppendForgottenIff | router/main.c:207-209 | appending a frame leaves every resolved entry with waiting frames on the sender thread's list if and only if the entry is unresolved or its request is still queued or being served |
| Forgotten.GuardImpliesSafe | router/main.c:207-207 | as long as the program's guard is still true, the append is safe |
| Forgotten.NothingForgottenIff | router/main.c:207-223 | for every interleaving: no frame is forgotten at any time if and only if every late append finds its entry so |
| Forgotten.SafeIffNotLeft | router/ip2mac.c:169-173 | from a guard to its append: the append is safe if and only if the entry was unresolved when the guard was passed, or the sender thread has not found the slot's queue empty and left it since |
| Forgotten.SplitDrainsEverything | router/ip2mac.c:308-313 | with sending taken apart: left alone, the sender thread ends within its measured work, can move until then, and leaves no frame in hand and none waiting in a resolved entry |
| Overtaking.SplitWriteOvertakesIff | router/ip2mac.c:170-200 | the next hop of a frame taken but not written gets another frame before it if and only if that one is handed over meanwhile for the same next hop and need not wait |
| Overtaking.OrderKeptIff | router/ip2mac.c:170-200 | for every interleaving, device and next hop: the frames leave in the order handed over and the account balances if and only if none was sent past the one in hand; otherwise two are out of order for good |
| Lossless.NothingLostOrDoubled | router/ip2mac.c:160-204 | for every interleaving, device and next hop: what is written, in hand and waiting is together, as a multiset, what was handed over and not dropped |
| Addressing.HeldFrameMacIff | router/ip2mac.c:170-200 | the frame in hand leaves with the latest MAC of its next hop if and only if: its slot was resolved when the MAC was read and what was last heard from the slot's address then is what was last heard from the next hop now; or the slot was unresolved and that is the all-zero MAC; or it was free and that is the MAC it kept |
| Addressing.OwnSlotReadsRight | router/ip2mac.c:188-189 | a MAC read from a slot that is resolved for the frame's next hop is the latest one |
| Addressing.MacsTrueIff | router/ip2mac.c:170-200 | for every interleaving: all frames have left with the latest MAC of their next hop if and only if every frame from a queue met that condition when it was written |
| Addressing.CalmSplitRunsIff | router/ip2mac.c:188-200 | for every interleaving in which no slot is given up while its draining is due: all frames have left with the latest MAC if and only if no neighbour's MAC changed between reading and writing |
| Addressing.OnlyAnnouncedMacs | router/ip2mac.c:188-200 | for every interleaving a frame leaves with a MAC announced on its device or with the all-zero one |
| Unharmed.AlwaysOneHopFurther | router/ip2mac.c:174-200 | for every interleaving whatever is written for a received frame is that packet one hop further |
| Unharmed.AlwaysWithinBounds | router/sendBuf.c:26-61 | for every interleaving counters, bytes and requests stay within their bounds |
| Unharmed.AlwaysHighWaterMark | router/ip2mac.c:100-116 | for every interleaving the table has as many slots as were ever live at once, and the least capacity |
| Races.RaceIsReachable | router/ip2mac.c:165-172 | a run from power-on to the state from which the races start |
| Races.ForgottenRun | router/main.c:207-209 | a run from power-on, with guard and append apart, that ends with a frame waiting in a resolved entry and the sender thread with nothing to do |
| Races.OvertakingRun | router/ip2mac.c:170-200 | a run from power-on, with taking and writing apart, in which the second frame for a neighbour is written before the first |
| Races.MisaddressedRun | router/ip2mac.c:170-188 | a run from power-on, with taking and reading apart, in which a frame leaves with another neighbour's MAC although its own neighbour's is known |

## Left out

- Sockets, `poll`, signals, `/proc`, device discovery and arguments: a received frame and a written frame are events.
- Mutexes, the condition variable and its timed wait: the sender thread may act at any time, and all but the two steps
  that `Splits` takes apart are atomic. What the threads do to one another inside a search, or while one copies a MAC
  that the other is storing, is not modelled.
- `malloc` failure, leaked queue nodes and the effect of `realloc` on addresses held by the other thread: allocation
  succeeds and slots are referred to by index.
- The bytes of a waiting frame are a value inside its queue node; the separately allocated copy is not a heap block of
  its own. The arrival time stored in a node is never read and is not modelled.
- Frames that end inside their own IP header: see the assumption on received frames above.
- The relative order on the wire of forwarded frames and of frames the router originates (ARP requests, ICMP replies):
  the histories record each kind in order, but not how they interleave. The bytes of an ARP request are not modelled.
- Whether the two-device choice of the next hop is good routing: it is one branch that labels a frame.
- The monitor's TCP, UDP and IPv6 dispatch, and its printing: its UDP branch and its IPv6 dispatch call IPv4-header
  routines, and nothing is claimed for them. The bridge and ltest programs only copy or print.
- Acceptance.SingleBitErrorDetected: a flip inside the header-length field is covered for the option length taken as
  given; `BitErrors.SingleBitErrorNoticedIff` follows it to the length that the changed field announces.
- BitErrors.SingleBitErrorNoticedIff: the changed header has to lie within the frame; the code would read beyond it.
- Icmp.AnalyzeIp: options and payload announced by the header have to lie within the buffer, which the monitor does not
  check, and every protocol but ICMP is one outcome.
