/** When the frames for a next hop lose their order: exactly, for every interleaving of the two threads. */
module Overtaking {
  import opened Bytes
  import opened Frames
  import opened Cache
  import opened RouterSystem
  import opened Structure
  import opened Delivery
  import opened Splits

  /** The frame in hand, if it is for this next hop. */
  function InHand(p: Split, d: Dev, hop: Addr): seq<nat> {
    if p.held.Some? && p.held.value.slot.dev == d && p.held.value.hop == hop then [p.held.value.item.id] else []
  }

  /** The frames in the order in which the next hop gets them, as far as it is decided. */
  function Outgoing(p: Split, d: Dev, hop: Addr): seq<nat> { SentTo(p.s.sent, d, hop) + InHand(p, d, hop) }

  /** The account of one next hop balances, the frame in hand counting as the last one written. */
  predicate InOrder(p: Split, d: Dev, hop: Addr) {
    Outgoing(p, d, hop) + Waiting(p.s.Table(d), hop) == Survivors(p.s.handed, p.s.dropped, d, hop)
  }

  /** A frame goes to a next hop directly while an earlier one for it is in the sender thread's hand. */
  predicate Overtakes(cfg: Config, p: Split, ev: SplitEvent, d: Dev, hop: Addr) {
    && InHand(p, d, hop) != [] && ev.Whole? && ev.ev.Arrival? && Received(ev.ev.buf, ev.ev.size)
    && EffectOf(cfg, ev.ev.dev, ev.ev.buf, ev.ev.size).LookupAndHand?
    && var f := EffectOf(cfg, ev.ev.dev, ev.ev.buf, ev.ev.size);
    f.d == d && f.hop == hop && !FoundBusy(p.s, d, hop, ev.ev.now)
  }

  /** Some frame precedes one that was handed over before it. */
  ghost predicate Inverted(ids: seq<nat>) { exists a, b :: 0 <= a < b < |ids| && ids[a] > ids[b] }

  lemma InOrderNotInverted(p: Split, d: Dev, hop: Addr)
    requires InOrder(p, d, hop)
    ensures !Inverted(Outgoing(p, d, hop))
  {
    var v, out := Survivors(p.s.handed, p.s.dropped, d, hop), Outgoing(p, d, hop);
    SurvivorsExact(p.s.handed, p.s.dropped, d, hop);
    forall a, b | 0 <= a < b < |out| ensures out[a] <= out[b] {
      assert out[a] == v[a] && out[b] == v[b];
    }
  }

  /** An inversion cannot be undone. */
  lemma StaysInverted(front: seq<nat>, middle: seq<nat>, back: seq<nat>)
    requires Inverted(front + back)
    ensures Inverted(front + middle + back)
  {
    var ids, ids' := front + back, front + middle + back;
    var a, b :| 0 <= a < b < |ids| && ids[a] > ids[b];
    var a', b' := if a < |front| then a else a + |middle|, if b < |front| then b else b + |middle|;
    assert ids'[a'] == ids[a] && ids'[b'] == ids[b];
  }

  /** What an event adds to a next hop's outgoing frames comes last, except that a frame sent directly comes before the
      frame in hand. */
  ghost predicate Grows(p: Split, q: Split, added: seq<nat>, d: Dev, hop: Addr) {
    || Outgoing(q, d, hop) == Outgoing(p, d, hop)
    || Outgoing(q, d, hop) == Outgoing(p, d, hop) + added
    || Outgoing(q, d, hop) == SentTo(p.s.sent, d, hop) + added + InHand(p, d, hop)
  }

  lemma OutgoingGrows(cfg: Config, p: Split, ev: SplitEvent, d: Dev, hop: Addr) returns (added: seq<nat>)
    requires Possible(cfg, p, ev)
    ensures Grows(p, SplitStep(cfg, p, ev), added, d, hop)
  {
    added := [];
    match ev
    case Whole(e) => added := WholeSends(cfg, p, e, d, hop);
    case Guard(_, _, _, _) =>
    case AppendLate =>
    case Take => added := TakeGrows(p, SplitStep(cfg, p, ev), d, hop);
    case ReadMac =>
    case Write => WriteGrows(p, SplitStep(cfg, p, ev), SplitStep(cfg, p, ev).s.sent[|p.s.sent|], d, hop);
  }

  lemma TakeGrows(p: Split, q: Split, d: Dev, hop: Addr) returns (added: seq<nat>)
    requires p.held == None && q.s.sent == p.s.sent
    ensures added == InHand(q, d, hop) && Outgoing(q, d, hop) == Outgoing(p, d, hop) + added
  {
    added := InHand(q, d, hop);
    assert SentTo(p.s.sent, d, hop) + [] == SentTo(p.s.sent, d, hop);
  }

  lemma WriteGrows(p: Split, q: Split, x: Sent, d: Dev, hop: Addr)
    requires p.held.Some? && q.held == None && q.s.sent == p.s.sent + [x]
    requires var h := p.held.value; x.id == h.item.id && x.dev == h.slot.dev && x.hop == h.hop
    ensures Outgoing(q, d, hop) == Outgoing(p, d, hop)
  {
    SentSnoc(p.s.sent, x, d, hop);
    assert Outgoing(p, d, hop) + [] == Outgoing(p, d, hop);
  }

  lemma WholeSends(cfg: Config, p: Split, e: Event, d: Dev, hop: Addr) returns (added: seq<nat>)
    requires Possible(cfg, p, Whole(e))
    ensures SentTo(Step(cfg, p.s, e).sent, d, hop) == SentTo(p.s.sent, d, hop) + added
  {
    added := [];
    if e.Arrival? {
      var f := ArrivalEffect(cfg, p.s, e.dev, e.buf, e.size, e.now);
      added := EffectSends(cfg, p.s, Step(cfg, p.s, e), e.now, f, d, hop);
    } else if e == SendFrame {
      var x := SendOne(p.s).sent[|p.s.sent|];
      SentSnoc(p.s.sent, x, d, hop);
      added := if x.dev == d && x.hop == hop then [x.id] else [];
    }
  }

  lemma EffectSends(cfg: Config, s: State, s': State, now: int, f: Effect, d: Dev, hop: Addr) returns (added: seq<nat>)
    requires HasEffect(cfg, s, s', now, f)
    ensures SentTo(s'.sent, d, hop) == SentTo(s.sent, d, hop) + added
  {
    added := [];
    if f.LookupAndHand? {
      var t, r := Lookup(s, f.d, f.hop, None, now), SlotFound(s, f.d, f.hop, now);
      added := HandSends(cfg, t, r, f.hop, f.frame, d, hop);
    }
  }

  lemma HandSends(cfg: Config, s: State, r: Req, h: Addr, frame: Frame, d: Dev, hop: Addr) returns (added: seq<nat>)
    requires s.HasSlot(r) && WholeHeader(frame)
    ensures SentTo(Hand(cfg, s, r, h, frame).sent, d, hop) == SentTo(s.sent, d, hop) + added
    ensures added == if !MustWait(s.At(r)) && r.dev == d && h == hop then [|s.handed|] else []
  {
    if !MustWait(s.At(r)) { SentSnoc(s.sent, Hand(cfg, s, r, h, frame).sent[|s.sent|], d, hop); }
    added := if !MustWait(s.At(r)) && r.dev == d && h == hop then [|s.handed|] else [];
  }

  /** The state in which the frame in hand has been written. */
  function Settled(p: Split): (s: State)
    requires HeldGood(p)
    ensures s == p.s.(sent := s.sent)
  {
    if p.held.Some? then p.s.(sent := p.s.sent + [Record(p.s, p.held.value, ZERO_MAC)]) else p.s
  }

  lemma SettledBalance(p: Split, d: Dev, hop: Addr)
    requires HeldGood(p)
    ensures SentTo(Settled(p).sent, d, hop) == Outgoing(p, d, hop)
    ensures InOrder(p, d, hop) <==> Balanced(Settled(p), d, hop)
  {
    if p.held.Some? { SentSnoc(p.s.sent, Record(p.s, p.held.value, ZERO_MAC), d, hop); }
  }

  /** Steps that differ in their effect only in what the log of written frames was before. */
  lemma InOrderAfter(p: Split, s': State, w': State, added: seq<nat>, d: Dev, hop: Addr)
    requires Balanced(w', d, hop) && SentTo(w'.sent, d, hop) == Outgoing(p, d, hop) + added
    requires s'.Table(d) == w'.Table(d) && s'.handed == w'.handed && s'.dropped == w'.dropped
    requires SentTo(s'.sent, d, hop) == SentTo(p.s.sent, d, hop) + added
    requires InHand(p, d, hop) == [] || added == []
    ensures InOrder(p.(s := s'), d, hop)
  {
    var out, held := SentTo(p.s.sent, d, hop), InHand(p, d, hop);
    assert out + held + added == out + added + held;
  }

  lemma LookupIgnoresSent(s: State, log: seq<Sent>, d: Dev, addr: Addr, mac: Option<Mac>, now: int)
    ensures Lookup(s.(sent := log), d, addr, mac, now) == Lookup(s, d, addr, mac, now).(sent := log)
  {
  }

  lemma LookupInOrder(p: Split, d': Dev, addr: Addr, mac: Option<Mac>, now: int, d: Dev, hop: Addr)
    requires Good(p.s) && Labelled(p.s) && HeldGood(p) && InOrder(p, d, hop)
    ensures InOrder(p.(s := Lookup(p.s, d', addr, mac, now)), d, hop)
  {
    SettledBalance(p, d, hop);
    var w' := LookupOnLog(p.s, Settled(p), d', addr, mac, now, d, hop);
    InOrderAfter(p, Lookup(p.s, d', addr, mac, now), w', [], d, hop);
  }

  lemma LookupOnLog(s: State, w: State, d': Dev, addr: Addr, mac: Option<Mac>, now: int, d: Dev, hop: Addr)
    returns (w': State)
    requires Good(s) && Labelled(s) && w == s.(sent := w.sent) && Balanced(w, d, hop)
    ensures Balanced(w', d, hop) && w'.sent == w.sent && Lookup(s, d', addr, mac, now) == w'.(sent := s.sent)
  {
    w' := Lookup(w, d', addr, mac, now);
    SameLabels(s, w);
    LookupBalance(w, d', addr, mac, now, d, hop);
    LookupIgnoresSent(s, w.sent, d', addr, mac, now);
    LookupIgnoresSent(s, s.sent, d', addr, mac, now);
  }

  lemma HandIgnoresSent(cfg: Config, s: State, log: seq<Sent>, r: Req, h: Addr, frame: Frame)
    requires s.HasSlot(r) && WholeHeader(frame)
    ensures var t, t' := Hand(cfg, s.(sent := log), r, h, frame), Hand(cfg, s, r, h, frame); t == t'.(sent := t.sent)
  {
  }

  /** A hand-over keeps the order of a next hop's frames, unless it sends one of them past the one in hand. */
  lemma HandInOrder(cfg: Config, p: Split, r: Req, h: Addr, frame: Frame, d: Dev, hop: Addr)
    requires Good(p.s) && DroppedKnown(p.s) && HeldGood(p) && InOrder(p, d, hop) && WholeHeader(frame)
    requires p.s.HasSlot(r) && p.s.At(r).Live() && p.s.At(r).addr == h
    requires InHand(p, d, hop) == [] || MustWait(p.s.At(r)) || r.dev != d || h != hop
    ensures InOrder(p.(s := Hand(cfg, p.s, r, h, frame)), d, hop)
  {
    SettledBalance(p, d, hop);
    var w', added := HandOnLog(cfg, p.s, Settled(p), r, h, frame, d, hop);
    var _ := HandSends(cfg, p.s, r, h, frame, d, hop);
    InOrderAfter(p, Hand(cfg, p.s, r, h, frame), w', added, d, hop);
  }

  lemma HandOnLog(cfg: Config, s: State, w: State, r: Req, h: Addr, frame: Frame, d: Dev, hop: Addr)
    returns (w': State, added: seq<nat>)
    requires Good(s) && DroppedKnown(s) && WholeHeader(frame) && w == s.(sent := w.sent) && Balanced(w, d, hop)
    requires s.HasSlot(r) && s.At(r).Live() && s.At(r).addr == h
    ensures Balanced(w', d, hop) && SentTo(w'.sent, d, hop) == SentTo(w.sent, d, hop) + added
    ensures added == if !MustWait(s.At(r)) && r.dev == d && h == hop then [|s.handed|] else []
    ensures var t := Hand(cfg, s, r, h, frame); t == w'.(sent := t.sent)
  {
    w' := Hand(cfg, w, r, h, frame);
    HandBalance(cfg, w, r, h, frame, d, hop);
    added := HandSends(cfg, w, r, h, frame, d, hop);
    HandIgnoresSent(cfg, s, w.sent, r, h, frame);
  }

  /** The frame in hand and a frame handed over meanwhile: which of the two the next hop gets first. */
  lemma SplitWriteOvertakesIff(cfg: Config, p: Split, r: Req, h: Addr, frame: Frame, dst: Mac)
    requires p.held.Some? && HeldGood(p) && p.s.HasSlot(r) && WholeHeader(frame)
    ensures var x := p.held.value;
      var s' := Hand(cfg, p.s, r, h, frame);
      var d := x.slot.dev;
      var ahead := if !MustWait(p.s.At(r)) && r.dev == d && h == x.hop then [|p.s.handed|] else [];
      SentTo(s'.sent + [Record(s', x, dst)], d, x.hop) == SentTo(p.s.sent, d, x.hop) + ahead + [x.item.id]
    ensures p.held.value.item.id < |p.s.handed|
  {
    var x := p.held.value;
    var added := HandSends(cfg, p.s, r, h, frame, x.slot.dev, x.hop);
    HeldWritten(p.s, Hand(cfg, p.s, r, h, frame), added, x, dst);
  }

  lemma HeldWritten(s: State, s': State, added: seq<nat>, x: Held, dst: Mac)
    requires WholeHeader(x.item.frame)
    requires SentTo(s'.sent, x.slot.dev, x.hop) == SentTo(s.sent, x.slot.dev, x.hop) + added
    ensures SentTo(s'.sent + [Record(s', x, dst)], x.slot.dev, x.hop)
         == SentTo(s.sent, x.slot.dev, x.hop) + added + [x.item.id]
  {
    SentSnoc(s'.sent, Record(s', x, dst), x.slot.dev, x.hop);
  }

  lemma BufferBalance(s: State, l: Late, d: Dev, hop: Addr)
    requires Good(s) && DroppedKnown(s) && Balanced(s, d, hop)
    requires s.HasSlot(l.slot) && s.At(l.slot).Live() && s.At(l.slot).addr == l.hop
    ensures Balanced(Buffer(s, l), d, hop)
  {
    var item := Handed(l.slot.dev, l.hop, l.frame);
    if s.At(l.slot).bytes > MAX_BUCKET {
      SurvivorsSnoc(s.handed, item, s.dropped + {|s.handed|}, d, hop);
      DropLast(s.handed, s.dropped, d, hop);
    } else {
      HandWaits(s, Buffer(s, l), l.slot, item, d, hop);
    }
  }

  lemma BufferIgnoresSent(s: State, log: seq<Sent>, l: Late)
    requires s.HasSlot(l.slot)
    ensures Buffer(s.(sent := log), l) == Buffer(s, l).(sent := log) && Buffer(s, l).sent == s.sent
  {
  }

  lemma BufferInOrder(p: Split, l: Late, d: Dev, hop: Addr)
    requires Good(p.s) && DroppedKnown(p.s) && HeldGood(p) && InOrder(p, d, hop)
    requires p.s.HasSlot(l.slot) && p.s.At(l.slot).Live() && p.s.At(l.slot).addr == l.hop
    ensures InOrder(p.(s := Buffer(p.s, l)), d, hop)
  {
    var w := Settled(p);
    SettledBalance(p, d, hop);
    BufferBalance(w, l, d, hop);
    BufferIgnoresSent(p.s, w.sent, l);
    InOrderAfter(p, Buffer(p.s, l), Buffer(w, l), [], d, hop);
  }

  lemma TakeInOrder(cfg: Config, p: Split, d: Dev, hop: Addr)
    requires Sound(cfg, p) && Possible(cfg, p, Take) && InOrder(p, d, hop)
    ensures InOrder(SplitStep(cfg, p, Take), d, hop)
  {
    var q, r := SplitStep(cfg, p, Take), p.s.draining.value;
    TakeSound(cfg, p);
    TakenIsHead(cfg, p);
    SettledBalance(p, d, hop);
    SettledBalance(q, d, hop);
    HeadTaken(p, q, r, d, hop);
  }

  lemma HeadTaken(p: Split, q: Split, r: Req, d: Dev, hop: Addr)
    requires Good(p.s) && p.held == None && p.s.HasSlot(r) && p.s.At(r).queue != [] && Balanced(p.s, d, hop)
    requires q.s == p.s.WithEntry(r, Get(p.s.At(r))) && HeldGood(q)
    requires q.held == Some(Held(p.s.At(r).queue[0], r, p.s.At(r).addr, None))
    ensures Balanced(Settled(q), d, hop)
  {
    HeadWritten(p.s, r, Record(q.s, q.held.value, ZERO_MAC), Settled(q), d, hop);
  }

  lemma EffectInOrder(cfg: Config, p: Split, s': State, now: int, f: Effect, d: Dev, hop: Addr)
    requires Sound(cfg, p) && InOrder(p, d, hop) && HasEffect(cfg, p.s, s', now, f)
    requires InHand(p, d, hop) == [] || !f.LookupAndHand? || f.d != d || f.hop != hop || FoundBusy(p.s, d, hop, now)
    ensures InOrder(p.(s := s'), d, hop)
  {
    match f
    case Nothing =>
    case OnlyLookup(d', addr, mac) => LookupInOrder(p, d', addr, Some(mac), now, d, hop);
    case LookupAndHand(d', h, frame) =>
      var t, r := Lookup(p.s, d', h, None, now), SlotFound(p.s, d', h, now);
      LookupInOrder(p, d', h, None, now, d, hop);
      LookupKeepsGood(p.s, d', h, None, now);
      LookupSound(p.s, d', h, None, now);
      HandInOrder(cfg, p.(s := t), r, h, frame, d, hop);
  }

  lemma WholeInOrder(cfg: Config, p: Split, ev: Event, d: Dev, hop: Addr)
    requires Sound(cfg, p) && Possible(cfg, p, Whole(ev)) && InOrder(p, d, hop) && !Overtakes(cfg, p, Whole(ev), d, hop)
    ensures InOrder(SplitStep(cfg, p, Whole(ev)), d, hop)
  {
    if ev.Arrival? {
      var f := ArrivalEffect(cfg, p.s, ev.dev, ev.buf, ev.size, ev.now);
      EffectInOrder(cfg, p, Step(cfg, p.s, ev), ev.now, f, d, hop);
    } else if ev == SendFrame {
      SettledBalance(p, d, hop);
      SendBalance(p.s, d, hop);
      SettledBalance(SplitStep(cfg, p, Whole(ev)), d, hop);
    }
  }

  lemma GuardInOrder(cfg: Config, p: Split, ev: SplitEvent, d: Dev, hop: Addr)
    requires Sound(cfg, p) && ev.Guard? && Possible(cfg, p, ev) && InOrder(p, d, hop)
    ensures InOrder(SplitStep(cfg, p, ev), d, hop)
  {
    var f := EffectOf(cfg, ev.dev, ev.buf, ev.size);
    LookupInOrder(p, f.d, f.hop, None, ev.now, d, hop);
  }

  lemma WriteInOrder(cfg: Config, p: Split, ev: SplitEvent, d: Dev, hop: Addr)
    requires ev.Write? && Possible(cfg, p, ev) && InOrder(p, d, hop)
    ensures InOrder(SplitStep(cfg, p, ev), d, hop)
  {
    WriteGrows(p, SplitStep(cfg, p, ev), SplitStep(cfg, p, ev).s.sent[|p.s.sent|], d, hop);
  }

  lemma OrderKept(cfg: Config, p: Split, ev: SplitEvent, d: Dev, hop: Addr)
    requires Sound(cfg, p) && Possible(cfg, p, ev) && InOrder(p, d, hop) && !Overtakes(cfg, p, ev, d, hop)
    ensures InOrder(SplitStep(cfg, p, ev), d, hop)
  {
    match ev
    case Whole(e) => WholeInOrder(cfg, p, e, d, hop);
    case Guard(_, _, _, _) => GuardInOrder(cfg, p, ev, d, hop);
    case AppendLate => BufferInOrder(p, p.late.value, d, hop);
    case Take => TakeInOrder(cfg, p, d, hop);
    case ReadMac =>
    case Write => WriteInOrder(cfg, p, ev, d, hop);
  }

  lemma OvertakingInverts(cfg: Config, p: Split, ev: SplitEvent, d: Dev, hop: Addr)
    requires Sound(cfg, p) && Possible(cfg, p, ev) && Overtakes(cfg, p, ev, d, hop)
    ensures Inverted(Outgoing(SplitStep(cfg, p, ev), d, hop))
  {
    var front := SentTo(p.s.sent, d, hop);
    OvertakenOutgoing(cfg, p, ev, d, hop);
    TwoLastInverted(front, |p.s.handed|, p.held.value.item.id);
  }

  lemma TwoLastInverted(front: seq<nat>, a: nat, b: nat)
    requires a > b
    ensures Inverted(front + [a] + [b])
  {
    var ids := front + [a] + [b];
    assert ids[|front|] > ids[|front| + 1];
  }

  lemma OvertakenOutgoing(cfg: Config, p: Split, ev: SplitEvent, d: Dev, hop: Addr)
    requires Possible(cfg, p, ev) && Overtakes(cfg, p, ev, d, hop)
    ensures Outgoing(SplitStep(cfg, p, ev), d, hop)
         == SentTo(p.s.sent, d, hop) + [|p.s.handed|] + [p.held.value.item.id]
  {
    var e, f := ev.ev, EffectOf(cfg, ev.ev.dev, ev.ev.buf, ev.ev.size);
    var _ := ArrivalEffect(cfg, p.s, e.dev, e.buf, e.size, e.now);
    DirectlyRouted(cfg, p.s, d, hop, f.frame, e.now);
  }

  lemma DirectlyRouted(cfg: Config, s: State, d: Dev, hop: Addr, frame: Frame, now: int)
    requires WholeHeader(frame) && !FoundBusy(s, d, hop, now)
    ensures SentTo(RouteTo(cfg, s, d, hop, frame, now).sent, d, hop) == SentTo(s.sent, d, hop) + [|s.handed|]
  {
    var _ := HandSends(cfg, Lookup(s, d, hop, None, now), SlotFound(s, d, hop, now), hop, frame, d, hop);
  }

  predicate NeverOvertaken(cfg: Config, evs: seq<SplitEvent>, d: Dev, hop: Addr)
    requires SplitRun(cfg, evs).Some?
  {
    |evs| > 0 ==>
      && NeverOvertaken(cfg, evs[..|evs| - 1], d, hop)
      && !Overtakes(cfg, SplitRun(cfg, evs[..|evs| - 1]).value, evs[|evs| - 1], d, hop)
  }

  /** However the threads interleave: a next hop's frames leave in the order handed over, and its account balances, if
      and only if none was ever sent directly past the frame in hand; otherwise two of them are out of order for good.
      Late appends do no harm to the order. */
  lemma {:induction false} OrderKeptIff(cfg: Config, evs: seq<SplitEvent>, d: Dev, hop: Addr)
    requires SplitRun(cfg, evs).Some?
    ensures var p := SplitRun(cfg, evs).value;
      && (InOrder(p, d, hop) <==> NeverOvertaken(cfg, evs, d, hop))
      && (Inverted(Outgoing(p, d, hop)) <==> !NeverOvertaken(cfg, evs, d, hop))
  {
    var p := SplitRun(cfg, evs).value;
    if |evs| > 0 {
      var before, ev := evs[..|evs| - 1], evs[|evs| - 1];
      var b := SplitRun(cfg, before).value;
      OrderKeptIff(cfg, before, d, hop);
      SplitRunSound(cfg, before);
      OrderStep(cfg, b, ev, d, hop);
    }
    if InOrder(p, d, hop) { InOrderNotInverted(p, d, hop); }
  }

  lemma OrderStep(cfg: Config, p: Split, ev: SplitEvent, d: Dev, hop: Addr)
    requires Sound(cfg, p) && Possible(cfg, p, ev)
    ensures InOrder(p, d, hop) && !Overtakes(cfg, p, ev, d, hop) ==> InOrder(SplitStep(cfg, p, ev), d, hop)
    ensures Overtakes(cfg, p, ev, d, hop) ==> Inverted(Outgoing(SplitStep(cfg, p, ev), d, hop))
    ensures Inverted(Outgoing(p, d, hop)) ==> Inverted(Outgoing(SplitStep(cfg, p, ev), d, hop))
  {
    if Overtakes(cfg, p, ev, d, hop) {
      OvertakingInverts(cfg, p, ev, d, hop);
    } else if InOrder(p, d, hop) {
      OrderKept(cfg, p, ev, d, hop);
    }
    if Inverted(Outgoing(p, d, hop)) { InversionStays(cfg, p, ev, d, hop); }
  }

  lemma InversionStays(cfg: Config, p: Split, ev: SplitEvent, d: Dev, hop: Addr)
    requires Sound(cfg, p) && Possible(cfg, p, ev) && Inverted(Outgoing(p, d, hop))
    ensures Inverted(Outgoing(SplitStep(cfg, p, ev), d, hop))
  {
    var added := OutgoingGrows(cfg, p, ev, d, hop);
    var out := Outgoing(p, d, hop);
    assert out + [] == out && out + added + [] == out + added;
    StaysInverted(out, added, []);
    StaysInverted(SentTo(p.s.sent, d, hop), added, InHand(p, d, hop));
  }
}
