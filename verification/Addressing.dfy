/** Which MAC a frame leaves with: exactly, for every interleaving of the two threads. */
module Addressing {
  import opened Bytes
  import opened Frames
  import opened Cache
  import opened RouterSystem
  import opened Structure
  import opened Wakeup
  import opened MacHistory
  import opened Splits

  // ----- what always holds -----

  /** The MAC read for the frame in hand was, when it was read, the latest of the address that then had the slot. */
  predicate SeenTrue(p: Split) {
    p.held.Some? && p.held.value.seen.Some? ==>
      var h, e, known := p.held.value, p.held.value.seen.value.entry, p.held.value.seen.value.known;
      && known <= |p.s.arps|
      && (e.flag == Ok ==> LastMac(p.s.arps[..known], h.slot.dev, e.addr) == Some(e.hwaddr))
      && (e.flag == Ng ==> e.hwaddr == ZERO_MAC)
  }

  predicate KnownInRange(s: State) { forall j :: 0 <= j < |s.sent| ==> s.sent[j].known <= |s.arps| }

  ghost predicate Agrees(p: Split) { CacheAgrees(p.s) && KnownInRange(p.s) && SeenTrue(p) }

  predicate NewMacsTrue(s: State, s': State) { forall j :: |s.sent| <= j < |s'.sent| ==> TrueMac(s', s'.sent[j]) }

  /** What has been written keeps or lacks the right MAC for good. */
  lemma MacsGrow(s: State, s': State)
    requires KnownInRange(s) && s.arps <= s'.arps && s.sent <= s'.sent
    ensures AllMacsTrue(s') <==> AllMacsTrue(s) && NewMacsTrue(s, s')
  {
    forall j | 0 <= j < |s.sent| ensures TrueMac(s', s'.sent[j]) <==> TrueMac(s, s.sent[j]) {
      assert s'.arps[..s.sent[j].known] == s.arps[..s.sent[j].known];
    }
    if AllMacsTrue(s') {
      forall j | 0 <= j < |s.sent| ensures TrueMac(s, s.sent[j]) { assert TrueMac(s', s'.sent[j]); }
    }
    if AllMacsTrue(s) && NewMacsTrue(s, s') {
      forall j | 0 <= j < |s'.sent| ensures TrueMac(s', s'.sent[j]) {
        if j < |s.sent| { assert TrueMac(s, s.sent[j]); }
      }
    }
  }

  lemma SeenStays(p: Split, s': State)
    requires SeenTrue(p) && p.s.arps <= s'.arps
    ensures SeenTrue(p.(s := s'))
  {
    if p.held.Some? && p.held.value.seen.Some? {
      var known := p.held.value.seen.value.known;
      assert s'.arps[..known] == p.s.arps[..known];
    }
  }

  lemma ArrivalAgrees(cfg: Config, p: Split, ev: Event)
    requires Sound(cfg, p) && Agrees(p) && ev.Arrival? && Possible(cfg, p, Whole(ev))
    ensures var q := SplitStep(cfg, p, Whole(ev)); Agrees(q) && (AllMacsTrue(q.s) <==> AllMacsTrue(p.s))
  {
    var f := ArrivalEffect(cfg, p.s, ev.dev, ev.buf, ev.size, ev.now);
    var s' := Step(cfg, p.s, ev);
    EffectMacs(cfg, p.s, s', ev.now, f);
    MacsGrow(p.s, s');
    SeenStays(p, s');
    RangeGrows(p.s, s');
  }

  lemma RangeGrows(s: State, s': State)
    requires KnownInRange(s) && s.arps <= s'.arps && s.sent <= s'.sent
    requires forall j :: |s.sent| <= j < |s'.sent| ==> s'.sent[j].known <= |s'.arps|
    ensures KnownInRange(s')
  {
  }

  // ----- the step that decides -----

  /** The MAC read for the frame in hand is the latest of its next hop. If the slot was resolved when it was read, that
      is so exactly if what had last been heard from the slot's address then is what has last been heard from the next
      hop now; for the next hop's own slot this says that the next hop's MAC has not changed since. */
  predicate RightlyAddressed(p: Split)
    requires p.held.Some? && p.held.value.seen.Some? && p.held.value.seen.value.known <= |p.s.arps|
  {
    var h, e, known := p.held.value, p.held.value.seen.value.entry, p.held.value.seen.value.known;
    var latest := LastMac(p.s.arps, h.slot.dev, h.hop);
    match e.flag
    case Ok => latest == LastMac(p.s.arps[..known], h.slot.dev, e.addr)
    case Ng => latest == Some(ZERO_MAC)
    case Free => latest == Some(e.hwaddr)
  }

  /** The frame in hand leaves with the latest MAC of its next hop if and only if it is rightly addressed. */
  lemma HeldFrameMacIff(cfg: Config, p: Split)
    requires Sound(cfg, p) && Agrees(p) && Possible(cfg, p, Write)
    ensures var t := SplitStep(cfg, p, Write).s;
      |t.sent| == |p.s.sent| + 1 && (TrueMac(t, t.sent[|p.s.sent|]) <==> RightlyAddressed(p))
  {
    assert p.s.arps[..|p.s.arps|] == p.s.arps;
  }

  /** Reading the MAC for a frame: if the slot is still the next hop's and resolved, it is the right one. */
  lemma OwnSlotReadsRight(cfg: Config, p: Split)
    requires Sound(cfg, p) && Agrees(p) && Possible(cfg, p, ReadMac)
    requires var h := p.held.value; p.s.At(h.slot).flag == Ok && p.s.At(h.slot).addr == h.hop
    ensures Agrees(SplitStep(cfg, p, ReadMac)) && RightlyAddressed(SplitStep(cfg, p, ReadMac))
  {
    ReadAgrees(cfg, p);
    assert p.s.arps[..|p.s.arps|] == p.s.arps;
  }

  lemma ReadAgrees(cfg: Config, p: Split)
    requires Sound(cfg, p) && Agrees(p) && Possible(cfg, p, ReadMac)
    ensures Agrees(SplitStep(cfg, p, ReadMac))
  {
    var r := p.held.value.slot;
    assert KnowsMac(p.s, r) && GoodEntry(p.s.At(r), r.dev);
    assert p.s.arps[..|p.s.arps|] == p.s.arps;
  }

  /** What an event has to be like for the frame it writes, if any, to leave with the right MAC. */
  predicate RightStep(p: Split, ev: SplitEvent) {
    match ev
    case Whole(e) =>
      e == SendFrame && Enabled(p.s, SendFrame) ==>
        var x := p.s.At(p.s.draining.value);
        x.flag == Ok || LastMac(p.s.arps, p.s.draining.value.dev, x.addr) == Some([0, 0, 0, 0, 0, 0])
    case Write =>
      p.held.Some? && p.held.value.seen.Some? && p.held.value.seen.value.known <= |p.s.arps| ==> RightlyAddressed(p)
    case _ => true
  }

  lemma SendAgreesIff(p: Split)
    requires Good(p.s) && Agrees(p) && Enabled(p.s, SendFrame)
    ensures var q := p.(s := SendOne(p.s));
      Agrees(q) && (AllMacsTrue(q.s) <==> AllMacsTrue(p.s) && RightStep(p, Whole(SendFrame)))
  {
    assert KnowsMac(p.s, p.s.draining.value);
    BufferedFrameMac(p.s);
    SentMacsIff(p, SendOne(p.s));
  }

  lemma SentMacsIff(p: Split, s': State)
    requires Agrees(p) && SameCards(p.s, s') && p.s.sent <= s'.sent
    requires forall j :: |p.s.sent| <= j < |s'.sent| ==> s'.sent[j].known <= |s'.arps|
    ensures Agrees(p.(s := s')) && (AllMacsTrue(s') <==> AllMacsTrue(p.s) && NewMacsTrue(p.s, s'))
  {
    SameCardsAgree(p.s, s');
    MacsGrow(p.s, s');
    RangeGrows(p.s, s');
  }

  lemma SenderAgrees(cfg: Config, p: Split, ev: Event)
    requires Good(p.s) && Agrees(p) && SenderEvent(ev) && Possible(cfg, p, Whole(ev))
    ensures var q := SplitStep(cfg, p, Whole(ev));
      Agrees(q) && (AllMacsTrue(q.s) <==> AllMacsTrue(p.s) && RightStep(p, Whole(ev)))
  {
    if ev == SendFrame {
      SendAgreesIff(p);
    } else {
      SameCardsAgree(p.s, Step(cfg, p.s, ev));
      SilentAgrees(p, SplitStep(cfg, p, Whole(ev)));
    }
  }

  lemma WriteAgrees(cfg: Config, p: Split)
    requires Sound(cfg, p) && Agrees(p) && Possible(cfg, p, Write)
    ensures var q := SplitStep(cfg, p, Write);
      Agrees(q) && (AllMacsTrue(q.s) <==> AllMacsTrue(p.s) && RightlyAddressed(p))
  {
    var t := SplitStep(cfg, p, Write).s;
    SameCardsAgree(p.s, t);
    MacsGrow(p.s, t);
    HeldFrameMacIff(cfg, p);
  }

  /** The other events write nothing. */
  lemma SilentAgrees(p: Split, q: Split)
    requires Agrees(p) && CacheAgrees(q.s) && q.s.sent == p.s.sent && q.s.arps == p.s.arps
    requires q.held == p.held || (q.held.Some? && q.held.value.seen == None)
    ensures Agrees(q) && (AllMacsTrue(q.s) <==> AllMacsTrue(p.s))
  {
    MacsGrow(p.s, q.s);
  }

  lemma GuardAgrees(cfg: Config, p: Split, ev: SplitEvent)
    requires Good(p.s) && Agrees(p) && ev.Guard? && Possible(cfg, p, ev)
    ensures var q := SplitStep(cfg, p, ev); Agrees(q) && (AllMacsTrue(q.s) <==> AllMacsTrue(p.s))
  {
    var f := EffectOf(cfg, ev.dev, ev.buf, ev.size);
    LookupAgrees(p.s, f.d, f.hop, None, ev.now);
    SilentAgrees(p, SplitStep(cfg, p, ev));
  }

  lemma QueueAgrees(cfg: Config, p: Split, ev: SplitEvent)
    requires Agrees(p) && (ev == AppendLate || ev == Take) && Possible(cfg, p, ev)
    ensures var q := SplitStep(cfg, p, ev); Agrees(q) && (AllMacsTrue(q.s) <==> AllMacsTrue(p.s))
  {
    SameCardsAgree(p.s, SplitStep(cfg, p, ev).s);
    SilentAgrees(p, SplitStep(cfg, p, ev));
  }

  lemma SplitAgrees(cfg: Config, p: Split, ev: SplitEvent)
    requires Sound(cfg, p) && Agrees(p) && Possible(cfg, p, ev)
    ensures var q := SplitStep(cfg, p, ev); Agrees(q) && (AllMacsTrue(q.s) <==> AllMacsTrue(p.s) && RightStep(p, ev))
  {
    match ev
    case Whole(e) => if e.Arrival? { ArrivalAgrees(cfg, p, e); } else { SenderAgrees(cfg, p, e); }
    case Guard(_, _, _, _) => GuardAgrees(cfg, p, ev);
    case AppendLate => QueueAgrees(cfg, p, ev);
    case Take => QueueAgrees(cfg, p, ev);
    case ReadMac => ReadAgrees(cfg, p);
    case Write => WriteAgrees(cfg, p);
  }

  predicate EveryStepRight(cfg: Config, evs: seq<SplitEvent>)
    requires SplitRun(cfg, evs).Some?
  {
    |evs| > 0 ==>
      && EveryStepRight(cfg, evs[..|evs| - 1])
      && RightStep(SplitRun(cfg, evs[..|evs| - 1]).value, evs[|evs| - 1])
  }

  lemma {:induction false} RunAgrees(cfg: Config, evs: seq<SplitEvent>)
    requires SplitRun(cfg, evs).Some?
    ensures Agrees(SplitRun(cfg, evs).value)
  {
    if |evs| > 0 {
      var before := evs[..|evs| - 1];
      RunAgrees(cfg, before);
      SplitRunSound(cfg, before);
      SplitAgrees(cfg, SplitRun(cfg, before).value, evs[|evs| - 1]);
    }
  }

  /** However the threads interleave: every frame has left with the latest MAC of its next hop if and only if every
      frame from a queue was rightly addressed when it was written. Frames sent directly always are. */
  lemma {:induction false} MacsTrueIff(cfg: Config, evs: seq<SplitEvent>)
    requires SplitRun(cfg, evs).Some?
    ensures AllMacsTrue(SplitRun(cfg, evs).value.s) <==> EveryStepRight(cfg, evs)
  {
    if |evs| > 0 {
      var before := evs[..|evs| - 1];
      MacsTrueIff(cfg, before);
      RunAgrees(cfg, before);
      SplitRunSound(cfg, before);
      SplitAgrees(cfg, SplitRun(cfg, before).value, evs[|evs| - 1]);
    }
  }

  // ----- runs in which no slot is given up while its draining is due -----

  ghost predicate CalmSplitRun(cfg: Config, evs: seq<SplitEvent>)
    requires SplitRun(cfg, evs).Some?
  {
    |evs| > 0 ==>
      && CalmSplitRun(cfg, evs[..|evs| - 1])
      && CalmStep(SplitRun(cfg, evs[..|evs| - 1]).value.s, SplitRun(cfg, evs).value.s)
  }

  /** The slot of the frame in hand is still its next hop's and resolved, and was so when the MAC was read. */
  predicate OwnSlot(p: Split) {
    p.held.Some? ==>
      var h := p.held.value;
      && p.s.HasSlot(h.slot) && p.s.At(h.slot).flag == Ok && p.s.At(h.slot).addr == h.hop
      && (h.seen.Some? ==> h.seen.value.entry.flag == Ok && h.seen.value.entry.addr == h.hop)
  }

  /** If the event writes the frame in hand, its next hop's MAC is still what it was when it was read. */
  predicate MacUnchanged(p: Split, ev: SplitEvent) {
    ev == Write && p.held.Some? && p.held.value.seen.Some? && p.held.value.seen.value.known <= |p.s.arps| ==>
      var h := p.held.value;
      LastMac(p.s.arps, h.slot.dev, h.hop) == LastMac(p.s.arps[..h.seen.value.known], h.slot.dev, h.hop)
  }

  lemma CalmIsRightIff(cfg: Config, p: Split, ev: SplitEvent)
    requires Sound(cfg, p) && AllPendingResolved(p.s) && OwnSlot(p) && Possible(cfg, p, ev)
    ensures RightStep(p, ev) <==> MacUnchanged(p, ev)
  {
    if ev == Whole(SendFrame) { assert PendingResolved(p.s, p.s.draining.value); }
  }

  lemma CalmArrival(cfg: Config, p: Split, ev: Event)
    requires Sound(cfg, p) && AllPendingResolved(p.s) && OwnSlot(p) && ev.Arrival? && Possible(cfg, p, Whole(ev))
    requires CalmStep(p.s, Step(cfg, p.s, ev))
    ensures var q := SplitStep(cfg, p, Whole(ev)); AllPendingResolved(q.s) && OwnSlot(q)
  {
    var f := ArrivalEffect(cfg, p.s, ev.dev, ev.buf, ev.size, ev.now);
    var s' := Step(cfg, p.s, ev);
    EffectPending(cfg, p.s, s', ev.now, f);
    WholeSound(cfg, p, ev);
    SlotKept(cfg, p, p.(s := s'));
  }

  lemma SlotKept(cfg: Config, p: Split, q: Split)
    requires OwnSlot(p) && HeldServed(p) && HeldServed(q) && q.held == p.held
    requires AllPendingResolved(q.s) && CalmStep(p.s, q.s)
    ensures OwnSlot(q)
  {
    if p.held.Some? {
      var r := p.held.value.slot;
      assert Pending(p.s, r) && !GivenUp(p.s, q.s, r) && PendingResolved(q.s, r);
    }
  }

  lemma CalmGuard(cfg: Config, p: Split, ev: SplitEvent)
    requires Sound(cfg, p) && AllPendingResolved(p.s) && OwnSlot(p) && ev.Guard? && Possible(cfg, p, ev)
    requires CalmStep(p.s, SplitStep(cfg, p, ev).s)
    ensures var q := SplitStep(cfg, p, ev); AllPendingResolved(q.s) && OwnSlot(q)
  {
    var f := EffectOf(cfg, ev.dev, ev.buf, ev.size);
    LookupPending(p.s, f.d, f.hop, None, ev.now);
    SplitKeepsSound(cfg, p, ev);
    SlotKept(cfg, p, SplitStep(cfg, p, ev));
  }

  lemma CalmSender(cfg: Config, p: Split, ev: SplitEvent)
    requires AllPendingResolved(p.s) && OwnSlot(p) && Possible(cfg, p, ev)
    requires !ev.Guard? && !ev.Take? && !(ev.Whole? && ev.ev.Arrival?)
    ensures var q := SplitStep(cfg, p, ev); AllPendingResolved(q.s) && OwnSlot(q)
  {
    var q := SplitStep(cfg, p, ev);
    CardsStay(cfg, p, ev);
    SamePending(p.s, q.s);
    if p.held.Some? { assert SameCard(p.s.At(p.held.value.slot), q.s.At(p.held.value.slot)); }
  }

  /** The cards of all entries stay, and nothing becomes pending. */
  ghost predicate CardsKept(s: State, s': State) {
    && (forall r: Req :: Pending(s', r) ==> Pending(s, r))
    && (forall r: Req :: s.HasSlot(r) ==> s'.HasSlot(r) && SameCard(s.At(r), s'.At(r)))
    && SameCards(s, s') && s.sent <= s'.sent
  }

  lemma EntryKept(s: State, s': State, r: Req, e: Entry)
    requires s.HasSlot(r) && SameCard(s.At(r), e)
    requires var t := s.WithEntry(r, e); s'.table0 == t.table0 && s'.table1 == t.table1
    requires s'.arps == s.arps && s'.requests == s.requests && s'.draining == s.draining && s.sent <= s'.sent
    ensures CardsKept(s, s')
  {
  }

  /** So it is with every event that is not a lookup. */
  lemma CardsStay(cfg: Config, p: Split, ev: SplitEvent)
    requires Possible(cfg, p, ev) && !ev.Guard? && !(ev.Whole? && ev.ev.Arrival?)
    ensures CardsKept(p.s, SplitStep(cfg, p, ev).s)
  {
    if ev == AppendLate && p.s.At(p.late.value.slot).bytes <= MAX_BUCKET {
      var l := p.late.value;
      EntryKept(p.s, Buffer(p.s, l), l.slot, Append(p.s.At(l.slot), Item(|p.s.handed|, l.frame)));
    } else if ev == Take || ev == Whole(SendFrame) {
      EntryKept(p.s, SplitStep(cfg, p, ev).s, p.s.draining.value, Get(p.s.At(p.s.draining.value)));
    }
  }

  lemma CalmTake(cfg: Config, p: Split)
    requires AllPendingResolved(p.s) && Possible(cfg, p, Take)
    ensures var q := SplitStep(cfg, p, Take); AllPendingResolved(q.s) && OwnSlot(q)
  {
    TakenIsHead(cfg, p);
    SamePending(p.s, SplitStep(cfg, p, Take).s);
    assert PendingResolved(p.s, p.s.draining.value);
  }

  lemma CalmSplitStep(cfg: Config, p: Split, ev: SplitEvent)
    requires Sound(cfg, p) && AllPendingResolved(p.s) && OwnSlot(p) && Possible(cfg, p, ev)
    requires CalmStep(p.s, SplitStep(cfg, p, ev).s)
    ensures var q := SplitStep(cfg, p, ev); AllPendingResolved(q.s) && OwnSlot(q)
  {
    match ev
    case Whole(e) => if e.Arrival? { CalmArrival(cfg, p, e); } else { CalmSender(cfg, p, ev); }
    case Guard(_, _, _, _) => CalmGuard(cfg, p, ev);
    case AppendLate => CalmSender(cfg, p, ev);
    case Take => CalmTake(cfg, p);
    case ReadMac => CalmSender(cfg, p, ev);
    case Write => CalmSender(cfg, p, ev);
  }

  lemma {:induction false} CalmRunOwns(cfg: Config, evs: seq<SplitEvent>)
    requires SplitRun(cfg, evs).Some? && CalmSplitRun(cfg, evs)
    ensures AllPendingResolved(SplitRun(cfg, evs).value.s) && OwnSlot(SplitRun(cfg, evs).value)
  {
    if |evs| > 0 {
      var before := evs[..|evs| - 1];
      CalmRunOwns(cfg, before);
      SplitRunSound(cfg, before);
      CalmSplitStep(cfg, SplitRun(cfg, before).value, evs[|evs| - 1]);
    }
  }

  predicate MacsUnchanged(cfg: Config, evs: seq<SplitEvent>)
    requires SplitRun(cfg, evs).Some?
  {
    |evs| > 0 ==>
      && MacsUnchanged(cfg, evs[..|evs| - 1])
      && MacUnchanged(SplitRun(cfg, evs[..|evs| - 1]).value, evs[|evs| - 1])
  }

  lemma {:induction false} CalmRunRightIff(cfg: Config, evs: seq<SplitEvent>)
    requires SplitRun(cfg, evs).Some? && CalmSplitRun(cfg, evs)
    ensures EveryStepRight(cfg, evs) <==> MacsUnchanged(cfg, evs)
  {
    if |evs| > 0 {
      var before := evs[..|evs| - 1];
      CalmRunRightIff(cfg, before);
      CalmRunOwns(cfg, before);
      SplitRunSound(cfg, before);
      CalmIsRightIff(cfg, SplitRun(cfg, before).value, evs[|evs| - 1]);
    }
  }

  /** In a run in which no slot is given up while its draining is due, only one thing can go wrong with a MAC: that its
      owner announces another one between reading and writing. */
  lemma CalmSplitRunsIff(cfg: Config, evs: seq<SplitEvent>)
    requires SplitRun(cfg, evs).Some? && CalmSplitRun(cfg, evs)
    ensures AllMacsTrue(SplitRun(cfg, evs).value.s) <==> MacsUnchanged(cfg, evs)
  {
    MacsTrueIff(cfg, evs);
    CalmRunRightIff(cfg, evs);
  }

  // ----- which MACs are possible at all -----

  /** The all-zero MAC, or one that some neighbour on the device has announced. */
  ghost predicate Announced(arps: seq<Arp>, d: Dev, mac: Mac) {
    mac == [0, 0, 0, 0, 0, 0] || exists k :: 0 <= k < |arps| && arps[k].dev == d && arps[k].mac == mac
  }

  ghost predicate CardAnnounced(s: State, r: Req) { s.HasSlot(r) ==> Announced(s.arps, r.dev, s.At(r).hwaddr) }

  ghost predicate CardsAnnounced(s: State) { forall r: Req :: CardAnnounced(s, r) }

  ghost predicate SentAnnounced(s: State, j: nat)
    requires j < |s.sent|
  {
    Announced(s.arps, s.sent[j].dev, s.sent[j].dst)
  }

  ghost predicate AllAnnounced(p: Split) {
    && CardsAnnounced(p.s)
    && (forall j :: 0 <= j < |p.s.sent| ==> SentAnnounced(p.s, j))
    && (p.held.Some? && p.held.value.seen.Some? ==>
          Announced(p.s.arps, p.held.value.slot.dev, p.held.value.seen.value.entry.hwaddr))
  }

  lemma StaysAnnounced(arps: seq<Arp>, arps': seq<Arp>, d: Dev, mac: Mac)
    requires Announced(arps, d, mac) && arps <= arps'
    ensures Announced(arps', d, mac)
  {
    if mac != ZERO_MAC {
      var k :| 0 <= k < |arps| && arps[k].dev == d && arps[k].mac == mac;
      assert arps'[k] == arps[k];
    }
  }

  lemma CardAfterSearch(t: Table, d: int, addr: Addr, mac: Option<Mac>, now: int, j: nat)
    requires GoodTable(t, d) && j < |Search(t, d, addr, mac, now).table.entries|
    ensures var m := Search(t, d, addr, mac, now).table.entries[j].hwaddr;
      m == ZERO_MAC || mac == Some(m) || (j < |t.entries| && m == t.entries[j].hwaddr)
  {
    SearchSlots(t, d, addr, mac, now);
  }

  lemma LookupAnnounced(s: State, d: Dev, addr: Addr, mac: Option<Mac>, now: int)
    requires Good(s) && CardsAnnounced(s)
    ensures CardsAnnounced(Lookup(s, d, addr, mac, now))
  {
    var s' := Lookup(s, d, addr, mac, now);
    forall r: Req | s'.HasSlot(r) ensures CardAnnounced(s', r) {
      if r.dev == d { CardAfterSearch(s.Table(d), d, addr, mac, now, r.slot); }
      if s.HasSlot(r) && s'.At(r).hwaddr == s.At(r).hwaddr {
        assert CardAnnounced(s, r);
        StaysAnnounced(s.arps, s'.arps, r.dev, s.At(r).hwaddr);
      } else if mac == Some(s'.At(r).hwaddr) {
        assert s'.arps[|s.arps|] == Arp(d, addr, mac.value);
      }
    }
  }

  lemma SameCardsAnnounced(s: State, s': State)
    requires CardsAnnounced(s) && SameCards(s, s')
    ensures CardsAnnounced(s')
  {
    forall r: Req ensures CardAnnounced(s', r) { assert CardAnnounced(s, r); }
  }

  lemma EffectAnnounced(cfg: Config, s: State, s': State, now: int, f: Effect)
    requires Good(s) && CardsAnnounced(s) && HasEffect(cfg, s, s', now, f)
    ensures CardsAnnounced(s') && s.arps <= s'.arps && s.sent <= s'.sent
    ensures forall j :: |s.sent| <= j < |s'.sent| ==> SentAnnounced(s', j)
  {
    match f
    case Nothing => SameCardsAnnounced(s, s');
    case OnlyLookup(d, addr, mac) => LookupAnnounced(s, d, addr, Some(mac), now);
    case LookupAndHand(d, hop, frame) =>
      LookupAnnounced(s, d, hop, None, now);
      HandAnnounced(cfg, Lookup(s, d, hop, None, now), SlotFound(s, d, hop, now), hop, frame);
  }

  lemma HandAnnounced(cfg: Config, s: State, r: Req, hop: Addr, frame: Frame)
    requires CardsAnnounced(s) && s.HasSlot(r) && WholeHeader(frame)
    ensures var s' := Hand(cfg, s, r, hop, frame);
      && CardsAnnounced(s') && s'.arps == s.arps && s.sent <= s'.sent
      && forall j :: |s.sent| <= j < |s'.sent| ==> SentAnnounced(s', j)
  {
    SameCardsAnnounced(s, Hand(cfg, s, r, hop, frame));
    assert CardAnnounced(s, r);
  }

  /** What is announced stays so; only what is new has to be looked at. */
  lemma AnnouncedGrows(p: Split, q: Split)
    requires AllAnnounced(p) && CardsAnnounced(q.s) && p.s.arps <= q.s.arps && p.s.sent <= q.s.sent
    requires forall j :: |p.s.sent| <= j < |q.s.sent| ==> SentAnnounced(q.s, j)
    requires q.held == p.held || q.held == None || q.held.value.seen == None
    ensures AllAnnounced(q)
  {
    forall j | 0 <= j < |q.s.sent| ensures SentAnnounced(q.s, j) {
      if j < |p.s.sent| {
        assert SentAnnounced(p.s, j);
        StaysAnnounced(p.s.arps, q.s.arps, p.s.sent[j].dev, p.s.sent[j].dst);
      }
    }
    if q.held == p.held && p.held.Some? && p.held.value.seen.Some? {
      StaysAnnounced(p.s.arps, q.s.arps, p.held.value.slot.dev, p.held.value.seen.value.entry.hwaddr);
    }
  }

  lemma ArrivalAnnounced(cfg: Config, p: Split, ev: Event)
    requires Good(p.s) && AllAnnounced(p) && ev.Arrival? && Possible(cfg, p, Whole(ev))
    ensures AllAnnounced(SplitStep(cfg, p, Whole(ev)))
  {
    var f := ArrivalEffect(cfg, p.s, ev.dev, ev.buf, ev.size, ev.now);
    EffectAnnounced(cfg, p.s, Step(cfg, p.s, ev), ev.now, f);
    AnnouncedGrows(p, SplitStep(cfg, p, Whole(ev)));
  }

  lemma GuardAnnounced(cfg: Config, p: Split, ev: SplitEvent)
    requires Good(p.s) && AllAnnounced(p) && ev.Guard? && Possible(cfg, p, ev)
    ensures AllAnnounced(SplitStep(cfg, p, ev))
  {
    var f := EffectOf(cfg, ev.dev, ev.buf, ev.size);
    LookupAnnounced(p.s, f.d, f.hop, None, ev.now);
    AnnouncedGrows(p, SplitStep(cfg, p, ev));
  }

  lemma SenderAnnounced(cfg: Config, p: Split, ev: SplitEvent)
    requires AllAnnounced(p) && Possible(cfg, p, ev) && !ev.Guard? && !(ev.Whole? && ev.ev.Arrival?)
    ensures AllAnnounced(SplitStep(cfg, p, ev))
  {
    var q := SplitStep(cfg, p, ev);
    CardsStay(cfg, p, ev);
    SameCardsAnnounced(p.s, q.s);
    if ev == ReadMac {
      assert CardAnnounced(p.s, p.held.value.slot);
    } else {
      NewlySentAnnounced(cfg, p, ev);
      AnnouncedGrows(p, q);
    }
  }

  lemma NewlySentAnnounced(cfg: Config, p: Split, ev: SplitEvent)
    requires AllAnnounced(p) && Possible(cfg, p, ev) && !ev.Guard? && !(ev.Whole? && ev.ev.Arrival?)
    ensures var s' := SplitStep(cfg, p, ev).s;
      s'.arps == p.s.arps && forall j :: |p.s.sent| <= j < |s'.sent| ==> SentAnnounced(s', j)
  {
    if ev == Whole(SendFrame) { assert CardAnnounced(p.s, p.s.draining.value); }
  }

  lemma {:induction false} RunAnnounced(cfg: Config, evs: seq<SplitEvent>)
    requires SplitRun(cfg, evs).Some?
    ensures AllAnnounced(SplitRun(cfg, evs).value)
  {
    if |evs| > 0 {
      var before, ev := evs[..|evs| - 1], evs[|evs| - 1];
      RunAnnounced(cfg, before);
      SplitRunSound(cfg, before);
      var p := SplitRun(cfg, before).value;
      if ev.Guard? { GuardAnnounced(cfg, p, ev); }
      else if ev.Whole? && ev.ev.Arrival? { ArrivalAnnounced(cfg, p, ev.ev); }
      else { SenderAnnounced(cfg, p, ev); }
    }
  }

  /** However the threads interleave: a frame leaves with a MAC that somebody on its device has announced, or with the
      all-zero one. */
  lemma OnlyAnnouncedMacs(cfg: Config, evs: seq<SplitEvent>, j: nat)
    requires SplitRun(cfg, evs).Some? && j < |SplitRun(cfg, evs).value.s.sent|
    ensures var s := SplitRun(cfg, evs).value.s; Announced(s.arps, s.sent[j].dev, s.sent[j].dst)
  {
    RunAnnounced(cfg, evs);
    assert SentAnnounced(SplitRun(cfg, evs).value.s, j);
  }
}
