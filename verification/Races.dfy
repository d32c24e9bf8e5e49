/** Runs from power-on that go wrong: a frame that leaves with the zero MAC, one that is forgotten, one overtaken, and
    one that leaves for another neighbour. */
module Races {
  import opened Bytes
  import opened ChecksumLoops
  import opened Acceptance
  import opened Frames
  import opened Cache
  import opened RouterSystem
  import opened Structure
  import opened Delivery
  import opened Splits
  import opened Forgotten
  import opened Overtaking
  import opened Addressing
  import opened Wakeup
  import opened MacHistory
  import opened Runs

  // ----- addresses and frames -----

  const ADDR_A: Addr := [10, 0, 0, 2]
  const ADDR_B: Addr := [10, 0, 0, 3]
  const MAC_A: Mac := [2, 0, 0, 0, 0, 0xA]
  const MAC_B: Mac := [2, 0, 0, 0, 0, 0xB]
  const PORT: Device := Device(ZERO_MAC, [10, 0, 0, 1], [0, 0, 0, 0], [0, 0, 0, 0])
  const CFG: Config := Config(PORT, PORT, [10, 0, 0, 254])

  function Padded(f: Frame): (buf: seq<Byte>)
    requires |f| <= MAX_FRAME
    ensures |buf| == MAX_FRAME && buf[..|f|] == f
  {
    f + seq(MAX_FRAME - |f|, _ => 0)
  }

  function BareHeader(daddr: Addr): seq<Byte> {
    [0x45, 0, 0, 20, 0, 0, 0, 0, 64, 17, 0, 0, 10, 0, 0, 9] + daddr
  }

  function ArpReply(spa: Addr, sha: Mac): (f: Frame)
    ensures |f| == 42
  {
    ZERO_MAC + sha + [8, 6] + [0, 1, 8, 0, 6, 4, 0, 2] + sha + spa + ZERO_MAC + [10, 0, 0, 1]
  }

  /** Any header whose check field is zero can be given a checksum that makes it acceptable. */
  lemma Checksummed(h: seq<Byte>) returns (r: seq<Byte>)
    requires |h| == 20 && h[10] == 0 && h[11] == 0
    ensures |r| == 20 && Accepts(r)
    ensures forall j :: 0 <= j < 20 && j != 10 && j != 11 ==> r[j] == h[j]
  {
    StoredChecksumVerifies(h, 10);
    r := Splice(h, 10, StoreLE(InternetChecksum(WordsLE(h))));
  }

  lemma HeaderExists(daddr: Addr) returns (r: seq<Byte>)
    ensures |r| == 20 && Accepts(r) && r[0] == 0x45 && r[8] == 64 && r[16..20] == daddr
  {
    r := Checksummed(BareHeader(daddr));
  }

  lemma InFrame(f: Frame, r: seq<Byte>)
    requires |r| == 20 && f == ZERO_MAC + ZERO_MAC + [8, 0] + r
    ensures f[..6] == ZERO_MAC && f[12] == 8 && f[13] == 0 && f[14] == r[0] && f[22] == r[8]
    ensures f[30..34] == r[16..20] && f[14..34] == r
  {
  }

  /** A 34-byte frame that the router accepts, with time to live to spare, for destination `daddr`. */
  predicate IsPacket(f: Frame, daddr: Addr) {
    && |f| == 34 && f[..6] == ZERO_MAC && Join(f[13], f[12]) == ETHERTYPE_IP
    && WholeHeader(f) && Accepts(IpHeader(f)) && Ttl(f) == 64 && f[30..34] == daddr
  }

  lemma PacketExists(daddr: Addr) returns (f: Frame)
    ensures IsPacket(f, daddr)
  {
    var r := HeaderExists(daddr);
    f := ZERO_MAC + ZERO_MAC + [8, 0] + r;
    InFrame(f, r);
    assert IpHeader(f) == r;
  }

  lemma MaskAll(a: Addr)
    ensures Masked(a, [0, 0, 0, 0]) == [0, 0, 0, 0]
  {
  }

  function PacketEvent(f: Frame, now: int): Event
    requires |f| == 34
  {
    Arrival(0, Padded(f), 34, now)
  }

  function ReplyEvent(spa: Addr, sha: Mac, now: int): Event { Arrival(1, Padded(ArpReply(spa, sha)), 42, now) }

  lemma PacketEffect(f: Frame, daddr: Addr)
    requires IsPacket(f, daddr) && daddr != [10, 0, 0, 1]
    ensures Received(Padded(f), 34) && EffectOf(CFG, 0, Padded(f), 34) == LookupAndHand(1, daddr, f)
  {
    var buf := Padded(f);
    assert buf[..6] == buf[..34][..6] && buf[12] == buf[..34][12] && buf[13] == buf[..34][13];
    MaskAll(daddr);
    assert NextHop(CFG, 1, f[30..34]) == Some(daddr);
  }

  lemma PacketStep(s: State, f: Frame, daddr: Addr, now: int)
    requires IsPacket(f, daddr) && daddr != [10, 0, 0, 1]
    ensures Enabled(s, PacketEvent(f, now))
    ensures Step(CFG, s, PacketEvent(f, now)) == RouteTo(CFG, s, 1, daddr, f, now)
  {
    PacketEffect(f, daddr);
    var _ := ArrivalEffect(CFG, s, 0, Padded(f), 34, now);
  }

  lemma ReplyStep(s: State, spa: Addr, sha: Mac, now: int)
    ensures Enabled(s, ReplyEvent(spa, sha, now))
    ensures Step(CFG, s, ReplyEvent(spa, sha, now)) == Lookup(s, 1, spa, Some(sha), now)
  {
    var f := ArpReply(spa, sha);
    var buf := Padded(f);
    assert f[..6] == ZERO_MAC && f[12] == 8 && f[13] == 6;
    assert f[20..22] == [0, 2] && f[22..28] == sha && f[28..32] == spa;
    assert buf[..6] == f[..6] && buf[12] == f[12] && buf[13] == f[13];
    assert buf[20..22] == f[20..22] && buf[22..28] == f[22..28] && buf[28..32] == f[28..32];
  }

  function Unresolved(addr: Addr, now: int, id: nat, f: Frame): Entry {
    Entry(Ng, 1, addr, ZERO_MAC, now, [Item(id, f)], 1, 34)
  }

  function Resolved(addr: Addr, now: int, id: nat, f: Frame, mac: Mac): Entry {
    Unresolved(addr, now, id, f).(flag := Ok, hwaddr := mac)
  }

  /** A packet for an unknown neighbour: a fresh unresolved entry with that packet in its queue. */
  lemma FirstPacket(f: Frame) returns (s: State)
    requires IsPacket(f, ADDR_A)
    ensures After(CFG, [PacketEvent(f, 0)]) == Some(s)
    ensures s.table0 == EMPTY && s.table1 == Table([Unresolved(ADDR_A, 0, 0, f)], 1024)
    ensures s.requests == [] && s.draining == None && s.arps == [] && s.sent == [] && s.dropped == {}
    ensures |s.handed| == 1
  {
    PacketStep(INIT, f, ADDR_A, 0);
    assert After(CFG, []) == Some(INIT);
    RunExtended(CFG, INIT, [], INIT, PacketEvent(f, 0));
    assert [] + [PacketEvent(f, 0)] == [PacketEvent(f, 0)];
    FirstLookup();
    s := WaitsFirst(Lookup(INIT, 1, ADDR_A, None, 0), f);
  }

  lemma FirstLookup()
    ensures Search(EMPTY, 1, ADDR_A, None, 0) == Found(Table([Fresh(1, ADDR_A, None, 0)], 1024), 0, false)
    ensures Evicted(EMPTY, ADDR_A, None, 0) == {}
  {
    assert Swept([], 0, 0) == [];
  }

  lemma WaitsFirst(s: State, f: Frame) returns (t: State)
    requires s.table1 == Table([Fresh(1, ADDR_A, None, 0)], 1024) && IsPacket(f, ADDR_A) && s.handed == []
    ensures t == Hand(CFG, s, Req(1, 0), ADDR_A, f)
    ensures t == s.(handed := t.handed, table1 := Table([Unresolved(ADDR_A, 0, 0, f)], 1024)) && |t.handed| == 1
  {
    t := Hand(CFG, s, Req(1, 0), ADDR_A, f);
    assert [] + [Item(0, f)] == [Item(0, f)];
  }

  /** The answer, whenever it comes: the entry is resolved, keeping its old time, and the sender is asked. */
  lemma ThenReply(f: Frame, now: int) returns (s: State)
    requires IsPacket(f, ADDR_A)
    ensures After(CFG, [PacketEvent(f, 0), ReplyEvent(ADDR_A, MAC_A, now)]) == Some(s)
    ensures s.table0 == EMPTY && s.table1 == Table([Resolved(ADDR_A, 0, 0, f, MAC_A)], 1024)
    ensures s.requests == [Req(1, 0)] && s.draining == None && s.arps == [Arp(1, ADDR_A, MAC_A)]
    ensures s.sent == [] && s.dropped == {} && |s.handed| == 1
  {
    var s1 := FirstPacket(f);
    var ev := ReplyEvent(ADDR_A, MAC_A, now);
    ReplyStep(s1, ADDR_A, MAC_A, now);
    RunExtended(CFG, INIT, [PacketEvent(f, 0)], s1, ev);
    assert [PacketEvent(f, 0)] + [ev] == [PacketEvent(f, 0), ev];
    s := Step(CFG, s1, ev);
    var t := s1.table1;
    assert FirstHit(t.entries, ADDR_A, Some(MAC_A), now, 0) == 0;
    assert Search(t, 1, ADDR_A, Some(MAC_A), now) == Found(Table([Resolved(ADDR_A, 0, 0, f, MAC_A)], 1024), 0, true);
    assert Evicted(t, ADDR_A, Some(MAC_A), now) == {};
  }

  /** A resolved entry with one frame, and the sender thread about to drain it: the races below start here. */
  lemma RaceIsReachable(now: int) returns (evs: seq<Event>, f: Frame)
    ensures IsPacket(f, ADDR_A) && After(CFG, evs).Some?
    ensures var s := After(CFG, evs).value;
      && s.draining == Some(Req(1, 0)) && s.requests == [] && s.sent == [] && |s.handed| == 1
      && s.arps == [Arp(1, ADDR_A, MAC_A)]
      && s.table1 == Table([Resolved(ADDR_A, 0, 0, f, MAC_A)], 1024)
  {
    f := PacketExists(ADDR_A);
    var s := ThenReply(f, now);
    var two := [PacketEvent(f, 0), ReplyEvent(ADDR_A, MAC_A, now)];
    RunExtended(CFG, INIT, two, s, PopRequest);
    evs := two + [PopRequest];
  }

  lemma SlotTakenOver(s: State, f: Frame, g: Frame) returns (s': State)
    requires IsPacket(g, ADDR_B)
    requires s.table1 == Table([Resolved(ADDR_A, 0, 0, f, MAC_A)], 1024) && |s.handed| == 1 && s.dropped == {}
    ensures Enabled(s, PacketEvent(g, 61)) && s' == Step(CFG, s, PacketEvent(g, 61))
    ensures s'.table1 == Table([Unresolved(ADDR_B, 61, 1, g)], 1024)
    ensures s'.requests == s.requests && s'.draining == s.draining && s'.arps == s.arps && s'.sent == s.sent
    ensures s'.dropped == {0}
  {
    PacketStep(s, g, ADDR_B, 61);
    s' := Step(CFG, s, PacketEvent(g, 61));
    StaleEntryReplaced(s.table1, f);
    assert [] + [Item(1, g)] == [Item(1, g)];
  }

  lemma StaleEntryReplaced(t: Table, f: Frame)
    requires t == Table([Resolved(ADDR_A, 0, 0, f, MAC_A)], 1024)
    ensures Search(t, 1, ADDR_B, None, 61) == Found(Table([Fresh(1, ADDR_B, None, 61)], 1024), 0, false)
    ensures Evicted(t, ADDR_B, None, 61) == {0}
  {
    assert FirstHit(t.entries, ADDR_B, None, 61, 0) == 1;
    var swept := Swept(t.entries, 1, 61);
    assert FirstFree(swept, 0) == 0;
    assert swept[0 := Fresh(1, ADDR_B, None, 61)] == [Fresh(1, ADDR_B, None, 61)];
    assert Evicts(t, ADDR_B, None, 61, 0) && t.entries[0].queue[0].id == 0;
  }

  /** The answer arrives after 61 seconds: the entry becomes OK but keeps its old time, so the next packet, for B,
      gives it up, loses the waiting frame and takes over the slot. The request for the slot is still pending, and
      the frame for B leaves with the all-zero MAC although no ARP frame from B was ever seen. */
  lemma ZeroMacRun() returns (evs: seq<Event>)
    ensures After(CFG, evs).Some? && !CalmRun(CFG, evs)
    ensures var s := After(CFG, evs).value;
      && |s.sent| == 1 && s.sent[0].hop == ADDR_B && s.sent[0].dst == [0, 0, 0, 0, 0, 0] && !TrueMac(s, s.sent[0])
      && s.dropped == {0}
  {
    var f := PacketExists(ADDR_A);
    var g := PacketExists(ADDR_B);
    var two := [PacketEvent(f, 0), ReplyEvent(ADDR_A, MAC_A, 61)];
    var s2 := ThenReply(f, 61);
    var s3 := SlotTakenOver(s2, f, g);
    var three := two + [PacketEvent(g, 61)];
    RunExtended(CFG, INIT, two, s2, PacketEvent(g, 61));
    assert GivenUp(s2, s3, Req(1, 0)) && Pending(s2, Req(1, 0));
    assert three[..2] == two;
    assert !CalmRun(CFG, three);
    var s4 := Pop(s3);
    RunExtended(CFG, INIT, three, s3, PopRequest);
    assert (three + [PopRequest])[..3] == three;
    evs := three + [PopRequest] + [SendFrame];
    RunExtended(CFG, INIT, three + [PopRequest], s4, SendFrame);
    assert evs[..4] == three + [PopRequest];
    ZeroMacSent(s4, g);
  }

  lemma ZeroMacSent(s: State, g: Frame)
    requires s.table1 == Table([Unresolved(ADDR_B, 61, 1, g)], 1024) && s.draining == Some(Req(1, 0)) && WholeHeader(g)
    requires s.arps == [Arp(1, ADDR_A, MAC_A)] && s.sent == []
    ensures Enabled(s, SendFrame)
    ensures var t := SendOne(s);
      && |t.sent| == 1 && t.sent[0].hop == ADDR_B && t.sent[0].dst == [0, 0, 0, 0, 0, 0] && !TrueMac(t, t.sent[0])
      && t.dropped == s.dropped
  {
    assert s.arps[..1] == [Arp(1, ADDR_A, MAC_A)];
    assert LastMac([Arp(1, ADDR_A, MAC_A)], 1, ADDR_B) == None;
  }

  // ----- the races -----

  /** Looking up a resolved neighbour in the second of its last use changes nothing. */
  lemma FreshLookup(s: State, e: Entry)
    requires s.table1 == Table([e], 1024) && e.flag == Ok && e.addr == ADDR_A && e.lastTime == 0
    ensures Lookup(s, 1, ADDR_A, None, 0) == s && SlotFound(s, 1, ADDR_A, 0) == Req(1, 0)
    ensures FoundBusy(s, 1, ADDR_A, 0) <==> MustWait(e)
  {
    assert FirstHit([e], ADDR_A, None, 0, 0) == 0;
    assert Swept([e], 0, 0)[0 := Touched(e, None, 0)] == [e];
    assert Search(s.table1, 1, ADDR_A, None, 0) == Found(s.table1, 0, false);
    assert Evicted(s.table1, ADDR_A, None, 0) == {};
  }

  lemma OneFrameTaken(s: State, f: Frame)
    requires s.table1 == Table([Resolved(ADDR_A, 0, 0, f, MAC_A)], 1024) && |f| == 34
    ensures s.WithEntry(Req(1, 0), Get(s.At(Req(1, 0)))) == s.(table1 := Table([Drained()], 1024))
  {
    var e := Resolved(ADDR_A, 0, 0, f, MAC_A);
    assert e.queue[1..] == [];
    assert [e][0 := Get(e)] == [Drained()];
  }

  function Drained(): Entry { Entry(Ok, 1, ADDR_A, MAC_A, 0, [], 0, 0) }

  /** The router thread sees that a frame for A must wait. Before it appends the frame, the sender thread writes the
      last one, finds the queue empty and turns away. The frame then waits in a resolved entry, and nobody will come
      for it. */
  lemma ForgottenRun() returns (evs: seq<SplitEvent>)
    ensures SplitRun(CFG, evs).Some? && !AllAppendsSafe(CFG, evs)
    ensures var p := SplitRun(CFG, evs).value;
      p.late == None && p.held == None && Quiet(p.s) && !Awake(p.s)
  {
    var start, f := RaceIsReachable(0);
    var s := After(CFG, start).value;
    var g := PacketExists(ADDR_A);
    AtomicRuns(CFG, start);
    evs := Wholes(start);
    var p := Split(s, None, None);
    evs, p := GuardSeen(evs, p, f, g);
    evs, p := DrainedMeanwhile(evs, p, f);
    SplitExtended(CFG, evs, p, AppendLate);
    evs, p := evs + [AppendLate], SplitStep(CFG, p, AppendLate);
    assert !Remembered(p.s, Req(1, 0));
    NothingForgottenIff(CFG, evs);
  }

  lemma GuardSeen(evs: seq<SplitEvent>, p: Split, f: Frame, g: Frame) returns (evs': seq<SplitEvent>, p': Split)
    requires SplitRun(CFG, evs) == Some(p) && p.late == None && p.held == None && IsPacket(g, ADDR_A)
    requires p.s.table1 == Table([Resolved(ADDR_A, 0, 0, f, MAC_A)], 1024)
    ensures SplitRun(CFG, evs') == Some(p') && p' == p.(late := Some(Late(Req(1, 0), ADDR_A, g)))
  {
    var ev := Guard(0, Padded(g), 34, 0);
    PacketEffect(g, ADDR_A);
    FreshLookup(p.s, Resolved(ADDR_A, 0, 0, f, MAC_A));
    SplitExtended(CFG, evs, p, ev);
    evs', p' := evs + [ev], SplitStep(CFG, p, ev);
  }

  lemma DrainedMeanwhile(evs: seq<SplitEvent>, p: Split, f: Frame) returns (evs': seq<SplitEvent>, p': Split)
    requires SplitRun(CFG, evs) == Some(p) && p.held == None && IsPacket(f, ADDR_A)
    requires p.s.table1 == Table([Resolved(ADDR_A, 0, 0, f, MAC_A)], 1024) && p.s.draining == Some(Req(1, 0))
    ensures SplitRun(CFG, evs') == Some(p') && p'.late == p.late && p'.held == None
    ensures p'.s.table1 == Table([Drained()], 1024) && p'.s.draining == None && p'.s.requests == p.s.requests
  {
    OneFrameTaken(p.s, f);
    SplitExtended(CFG, evs, p, Whole(SendFrame));
    var q := SplitStep(CFG, p, Whole(SendFrame));
    SplitExtended(CFG, evs + [Whole(SendFrame)], q, Whole(FindEmpty));
    evs', p' := evs + [Whole(SendFrame)] + [Whole(FindEmpty)], SplitStep(CFG, q, Whole(FindEmpty));
  }

  /** The sender thread has taken the only waiting frame for A but not written it. The next frame for A finds the entry
      resolved and nothing waiting: it is written at once, and so before the older one. */
  lemma OvertakingRun() returns (evs: seq<SplitEvent>)
    ensures SplitRun(CFG, evs).Some? && !NeverOvertaken(CFG, evs, 1, ADDR_A)
    ensures var p := SplitRun(CFG, evs).value;
      p.late == None && p.held == None && SentTo(p.s.sent, 1, ADDR_A) == [1, 0]
  {
    var start, f := RaceIsReachable(0);
    var s := After(CFG, start).value;
    var g := PacketExists(ADDR_A);
    AtomicRuns(CFG, start);
    var p := Split(s, None, None);
    evs, p := TakenFirst(Wholes(start), p, f);
    evs, p := SentMeanwhile(evs, p, f, g);
    OrderKeptIff(CFG, evs, 1, ADDR_A);
    var out := Outgoing(p, 1, ADDR_A);
    assert out[0] == 1 && out[1] == 0;
  }

  lemma TakenFirst(evs: seq<SplitEvent>, p: Split, f: Frame) returns (evs': seq<SplitEvent>, p': Split)
    requires SplitRun(CFG, evs) == Some(p) && p.late == None && p.held == None && IsPacket(f, ADDR_A)
    requires p.s.table1 == Table([Resolved(ADDR_A, 0, 0, f, MAC_A)], 1024) && p.s.draining == Some(Req(1, 0))
    requires |p.s.handed| == 1 && p.s.sent == []
    ensures SplitRun(CFG, evs') == Some(p') && p'.late == None
    ensures p'.held == Some(Held(Item(0, f), Req(1, 0), ADDR_A, None)) && p'.s.arps == p.s.arps
    ensures p'.s.table1 == Table([Drained()], 1024) && p'.s.sent == [] && |p'.s.handed| == 1
  {
    OneFrameTaken(p.s, f);
    SplitExtended(CFG, evs, p, Take);
    evs', p' := evs + [Take], SplitStep(CFG, p, Take);
  }

  lemma SentMeanwhile(evs: seq<SplitEvent>, p: Split, f: Frame, g: Frame) returns (evs': seq<SplitEvent>, p': Split)
    requires SplitRun(CFG, evs) == Some(p) && p.late == None && IsPacket(g, ADDR_A)
    requires p.held == Some(Held(Item(0, f), Req(1, 0), ADDR_A, None))
    requires p.s.table1 == Table([Drained()], 1024) && p.s.sent == [] && |p.s.handed| == 1
    ensures SplitRun(CFG, evs') == Some(p') && p'.late == None && p'.held == None
    ensures SentTo(p'.s.sent, 1, ADDR_A) == [1, 0]
  {
    var ev := Whole(PacketEvent(g, 0));
    SplitRunSound(CFG, evs);
    PacketStep(p.s, g, ADDR_A, 0);
    SplitExtended(CFG, evs, p, ev);
    var q := SplitStep(CFG, p, ev);
    evs', p' := ReadAndWritten(evs + [ev], q);
    DirectThenHeld(p, g, p'.s.sent[|q.s.sent|].dst);
  }

  /** The sender thread finishes with the frame in hand: it reads the MAC that the slot now holds, and writes. */
  lemma ReadAndWritten(evs: seq<SplitEvent>, p: Split) returns (evs': seq<SplitEvent>, p': Split)
    requires SplitRun(CFG, evs) == Some(p) && p.held.Some? && p.held.value.seen == None
    ensures p.s.HasSlot(p.held.value.slot) && WholeHeader(p.held.value.item.frame)
    ensures SplitRun(CFG, evs') == Some(p') && p'.late == p.late && p'.held == None
    ensures p'.s == p.s.(sent := p.s.sent + [Record(p.s, p.held.value, p.s.At(p.held.value.slot).hwaddr)])
  {
    SplitRunSound(CFG, evs);
    SplitExtended(CFG, evs, p, ReadMac);
    var q := SplitStep(CFG, p, ReadMac);
    SplitExtended(CFG, evs + [ReadMac], q, Write);
    evs', p' := evs + [ReadMac] + [Write], SplitStep(CFG, q, Write);
  }

  lemma DirectThenHeld(q: Split, g: Frame, dst: Mac)
    requires q.s.table1 == Table([Drained()], 1024) && q.s.sent == [] && |q.s.handed| == 1 && IsPacket(g, ADDR_A)
    requires q.held.Some? && HeldGood(q) && q.held.value.slot == Req(1, 0) && q.held.value.hop == ADDR_A
    requires q.held.value.item.id == 0
    ensures var s' := RouteTo(CFG, q.s, 1, ADDR_A, g, 0);
      SentTo(s'.sent + [Record(s', q.held.value, dst)], 1, ADDR_A) == [1, 0]
  {
    FreshLookup(q.s, Drained());
    SplitWriteOvertakesIff(CFG, q, Req(1, 0), ADDR_A, g, dst);
  }

  /** The answer from A comes after 61 seconds, and the sender thread has taken the frame for A. Before it reads the
      MAC, an ARP frame from B arrives: A's entry, resolved but old, is given up, and B gets its slot. The frame for A
      leaves with B's MAC, although A's is known. */
  lemma MisaddressedRun() returns (evs: seq<SplitEvent>)
    ensures SplitRun(CFG, evs).Some? && !EveryStepRight(CFG, evs)
    ensures var p := SplitRun(CFG, evs).value;
      && p.late == None && p.held == None && |p.s.sent| == 1
      && p.s.sent[0].hop == ADDR_A && p.s.sent[0].dst == MAC_B && LastMac(p.s.arps, 1, ADDR_A) == Some(MAC_A)
  {
    var start, f := RaceIsReachable(61);
    AtomicRuns(CFG, start);
    var p := Split(After(CFG, start).value, None, None);
    evs, p := TakenFirst(Wholes(start), p, f);
    evs, p := SlotGoesToB(evs, p, f);
    var q;
    evs, q := ReadAndWritten(evs, p);
    BothHeard();
    assert q.s.arps[..2] == q.s.arps && !TrueMac(q.s, q.s.sent[0]);
    MacsTrueIff(CFG, evs);
  }

  lemma SlotGoesToB(evs: seq<SplitEvent>, p: Split, f: Frame) returns (evs': seq<SplitEvent>, p': Split)
    requires SplitRun(CFG, evs) == Some(p) && p.late == None
    requires p.held == Some(Held(Item(0, f), Req(1, 0), ADDR_A, None))
    requires p.s.table1 == Table([Drained()], 1024) && p.s.sent == [] && p.s.arps == [Arp(1, ADDR_A, MAC_A)]
    ensures SplitRun(CFG, evs') == Some(p') && p'.late == None && p'.held == p.held && p'.s.sent == []
    ensures p'.s.table1 == Table([Fresh(1, ADDR_B, Some(MAC_B), 61)], 1024)
    ensures p'.s.arps == [Arp(1, ADDR_A, MAC_A), Arp(1, ADDR_B, MAC_B)]
  {
    var ev := Whole(ReplyEvent(ADDR_B, MAC_B, 61));
    ReplyStep(p.s, ADDR_B, MAC_B, 61);
    DrainedReplaced();
    SplitExtended(CFG, evs, p, ev);
    evs', p' := evs + [ev], SplitStep(CFG, p, ev);
  }

  lemma DrainedReplaced()
    ensures Search(Table([Drained()], 1024), 1, ADDR_B, Some(MAC_B), 61)
         == Found(Table([Fresh(1, ADDR_B, Some(MAC_B), 61)], 1024), 0, false)
  {
    var es := [Drained()];
    assert FirstHit(es, ADDR_B, Some(MAC_B), 61, 0) == 1;
    assert FirstFree(Swept(es, 1, 61), 0) == 0;
    assert Swept(es, 1, 61)[0 := Fresh(1, ADDR_B, Some(MAC_B), 61)] == [Fresh(1, ADDR_B, Some(MAC_B), 61)];
  }

  lemma BothHeard()
    ensures LastMac([Arp(1, ADDR_A, MAC_A), Arp(1, ADDR_B, MAC_B)], 1, ADDR_A) == Some(MAC_A)
  {
    var a, b := Arp(1, ADDR_A, MAC_A), Arp(1, ADDR_B, MAC_B);
    assert [a] + [b] == [a, b] && [] + [a] == [a];
    LastMacSnoc([a], b, 1, ADDR_A);
    LastMacSnoc([], a, 1, ADDR_A);
  }
}
