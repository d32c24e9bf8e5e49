/** The program's threads hold no lock between some of their actions. This is the step system with those actions
    apart: the router thread may pause between seeing that a frame must wait and buffering it, the sender thread
    between taking a frame, reading the MAC for it, and writing it. */
module Splits {
  import opened Bytes
  import opened Frames
  import opened Cache
  import opened RouterSystem
  import opened Structure
  import opened Delivery
  import opened Wakeup

  /** The router thread has found slot `slot` busy and is about to buffer `frame` there (router/main.c:207-209). */
  datatype Late = Late(slot: Req, hop: Addr, frame: Frame)

  /** The entry as it was when its MAC was read, and how many ARP frames had been accepted by then. */
  datatype Seen = Seen(entry: Entry, known: nat)

  /** The sender thread has a frame in hand that it has taken from `slot`, for `hop`, but not written
      (router/ip2mac.c:170-200). `seen` is there once it has read the MAC. */
  datatype Held = Held(item: Item, slot: Req, hop: Addr, seen: Option<Seen>)

  datatype Split = Split(s: State, late: Option<Late>, held: Option<Held>)

  /** A whole step, or a part of a divided one: an arrival's guard and append, or the sender thread's taking of a frame
      (router/ip2mac.c:170), reading of the MAC in that slot (188) and writing (200). */
  datatype SplitEvent =
    | Whole(ev: Event)
    | Guard(dev: Dev, buf: seq<Byte>, size: nat, now: int)
    | AppendLate
    | Take
    | ReadMac
    | Write

  /** Each thread finishes one step before it begins another. */
  predicate Possible(cfg: Config, p: Split, ev: SplitEvent) {
    match ev
    case Whole(e) => Enabled(p.s, e) && if e.Arrival? then p.late == None else p.held == None
    case Guard(dev, buf, size, now) =>
      && p.late == None && Received(buf, size)
      && var f := EffectOf(cfg, dev, buf, size);
      f.LookupAndHand? && WholeHeader(f.frame) && FoundBusy(p.s, f.d, f.hop, now)
    case AppendLate => p.late.Some? && p.s.HasSlot(p.late.value.slot)
    case Take => p.held == None && Enabled(p.s, SendFrame)
    case ReadMac => p.held.Some? && p.held.value.seen == None && p.s.HasSlot(p.held.value.slot)
    case Write => p.held.Some? && p.held.value.seen.Some? && WholeHeader(p.held.value.item.frame)
  }

  /** `AppendSendData`, whatever the entry has become since the guard. */
  function Buffer(s: State, l: Late): State
    requires s.HasSlot(l.slot)
  {
    var e, id := s.At(l.slot), |s.handed|;
    var t := s.(handed := s.handed + [Handed(l.slot.dev, l.hop, l.frame)]);
    if e.bytes > MAX_BUCKET then t.(dropped := s.dropped + {id})
    else t.WithEntry(l.slot, Append(e, Item(id, l.frame)))
  }

  /** The frame in hand, written with MAC `dst`. */
  function Record(s: State, h: Held, dst: Mac): Sent
    requires WholeHeader(h.item.frame)
  {
    Sent(h.item.id, h.slot.dev, h.hop, dst, false, |s.arps|, Buffered(h.item.frame, dst))
  }

  function SplitStep(cfg: Config, p: Split, ev: SplitEvent): Split
    requires Possible(cfg, p, ev)
  {
    match ev
    case Whole(e) => p.(s := Step(cfg, p.s, e))
    case Guard(dev, buf, size, now) =>
      var f := EffectOf(cfg, dev, buf, size);
      p.(s := Lookup(p.s, f.d, f.hop, None, now), late := Some(Late(SlotFound(p.s, f.d, f.hop, now), f.hop, f.frame)))
    case AppendLate => p.(s := Buffer(p.s, p.late.value), late := None)
    case Take =>
      var r := p.s.draining.value;
      var e := p.s.At(r);
      p.(s := p.s.WithEntry(r, Get(e)), held := Some(Held(e.queue[0], r, e.addr, None)))
    case ReadMac =>
      var h := p.held.value;
      p.(held := Some(h.(seen := Some(Seen(p.s.At(h.slot), |p.s.arps|)))))
    case Write =>
      var h := p.held.value;
      p.(s := p.s.(sent := p.s.sent + [Record(p.s, h, h.seen.value.entry.hwaddr)]), held := None)
  }

  function SplitFrom(cfg: Config, p: Split, evs: seq<SplitEvent>): Option<Split> {
    if |evs| == 0 then Some(p)
    else
      match SplitFrom(cfg, p, evs[..|evs| - 1])
      case None => None
      case Some(q) =>
        if Possible(cfg, q, evs[|evs| - 1]) then Some(SplitStep(cfg, q, evs[|evs| - 1])) else None
  }

  /** A run from power-on. */
  function SplitRun(cfg: Config, evs: seq<SplitEvent>): Option<Split> {
    SplitFrom(cfg, Split(INIT, None, None), evs)
  }

  lemma SplitExtended(cfg: Config, evs: seq<SplitEvent>, p: Split, ev: SplitEvent)
    requires SplitRun(cfg, evs) == Some(p) && Possible(cfg, p, ev)
    ensures SplitRun(cfg, evs + [ev]) == Some(SplitStep(cfg, p, ev))
  {
    assert (evs + [ev])[..|evs|] == evs;
  }

  // ----- the two systems -----

  function Wholes(evs: seq<Event>): seq<SplitEvent> { seq(|evs|, i requires 0 <= i < |evs| => Whole(evs[i])) }

  /** Every run of atomic steps is one of these runs. */
  lemma {:induction false} AtomicRuns(cfg: Config, evs: seq<Event>)
    requires After(cfg, evs).Some?
    ensures SplitRun(cfg, Wholes(evs)) == Some(Split(After(cfg, evs).value, None, None))
  {
    if |evs| > 0 {
      var n := |evs| - 1;
      AtomicRuns(cfg, evs[..n]);
      assert Wholes(evs)[..n] == Wholes(evs[..n]);
    }
  }

  /** The parts of a step with nothing in between are the whole step. */
  lemma PartsMakeArrival(cfg: Config, p: Split, dev: Dev, buf: seq<Byte>, size: nat, now: int)
    requires Possible(cfg, p, Guard(dev, buf, size, now))
    ensures var q := SplitStep(cfg, p, Guard(dev, buf, size, now));
      && Possible(cfg, q, AppendLate)
      && SplitStep(cfg, q, AppendLate) == SplitStep(cfg, p, Whole(Arrival(dev, buf, size, now)))
  {
    var f := ArrivalEffect(cfg, p.s, dev, buf, size, now);
    var r := SlotFound(p.s, f.d, f.hop, now);
    BufferIsHand(cfg, Lookup(p.s, f.d, f.hop, None, now), Late(r, f.hop, f.frame));
  }

  /** The router thread can stop between the two exactly where it would hand a frame over without sending it. */
  lemma GuardIffWaits(cfg: Config, p: Split, dev: Dev, buf: seq<Byte>, size: nat, now: int)
    requires Received(buf, size) && p.late == None
    ensures var t := Step(cfg, p.s, Arrival(dev, buf, size, now));
      Possible(cfg, p, Guard(dev, buf, size, now)) <==> t.handed != p.s.handed && t.sent == p.s.sent
  {
    var f := ArrivalEffect(cfg, p.s, dev, buf, size, now);
    if f.LookupAndHand? {
      RouteWritesOrWaits(cfg, p.s, f.d, f.hop, f.frame, now);
    }
  }

  lemma RouteWritesOrWaits(cfg: Config, s: State, d: Dev, hop: Addr, frame: Frame, now: int)
    requires WholeHeader(frame)
    ensures var t := RouteTo(cfg, s, d, hop, frame, now);
      t.handed != s.handed && (FoundBusy(s, d, hop, now) <==> t.sent == s.sent)
  {
    RouteWrites(cfg, s, d, hop, frame, now);
    assert |RouteTo(cfg, s, d, hop, frame, now).handed| == |s.handed| + 1;
  }

  lemma BufferIsHand(cfg: Config, s: State, l: Late)
    requires s.HasSlot(l.slot) && MustWait(s.At(l.slot)) && WholeHeader(l.frame)
    ensures Buffer(s, l) == Hand(cfg, s, l.slot, l.hop, l.frame)
  {
  }

  lemma PartsMakeSending(cfg: Config, p: Split)
    requires Possible(cfg, p, Take)
    ensures var q := SplitStep(cfg, p, Take);
      && Possible(cfg, q, ReadMac)
      && var q' := SplitStep(cfg, q, ReadMac);
      && Possible(cfg, q', Write)
      && SplitStep(cfg, q', Write) == SplitStep(cfg, p, Whole(SendFrame))
  {
  }

  // ----- what always holds -----

  /** The slot that the router thread is about to use is still its entry's: only that thread gives entries up. */
  predicate LateGood(cfg: Config, p: Split) {
    p.late.Some? ==>
      var l := p.late.value;
      && p.s.HasSlot(l.slot) && p.s.At(l.slot).Live() && p.s.At(l.slot).addr == l.hop
      && WellHanded(cfg, Handed(l.slot.dev, l.hop, l.frame)) && |l.frame| <= MAX_FRAME
  }

  /** The frame in hand is one that was handed over for that next hop. */
  predicate HeldGood(p: Split) {
    p.held.Some? ==>
      var h := p.held.value;
      && WholeHeader(h.item.frame) && h.item.id < |p.s.handed|
      && p.s.handed[h.item.id] == Handed(h.slot.dev, h.hop, h.item.frame)
  }

  /** It comes from the slot that is being drained. */
  predicate HeldServed(p: Split) { p.held.Some? ==> p.s.draining == Some(p.held.value.slot) }

  predicate DroppedKnown(s: State) { forall id :: id in s.dropped ==> id < |s.handed| }

  ghost predicate Sound(cfg: Config, p: Split) {
    Good(p.s) && Labelled(p.s) && DroppedKnown(p.s) && LateGood(cfg, p) && HeldGood(p) && HeldServed(p)
  }

  lemma EffectSound(cfg: Config, s: State, s': State, now: int, f: Effect)
    requires Good(s) && Labelled(s) && DroppedKnown(s) && HasEffect(cfg, s, s', now, f)
    ensures Good(s') && Labelled(s') && DroppedKnown(s') && s.handed <= s'.handed && s'.draining == s.draining
  {
    EffectKeepsGood(cfg, s, s', now, f);
    match f
    case Nothing => SameLabels(s, s');
    case OnlyLookup(d, addr, mac) => LookupSound(s, d, addr, Some(mac), now);
    case LookupAndHand(d, hop, frame) =>
      LookupKeepsGood(s, d, hop, None, now);
      LookupSound(s, d, hop, None, now);
      HandSound(cfg, Lookup(s, d, hop, None, now), SlotFound(s, d, hop, now), hop, frame);
  }

  lemma HandSound(cfg: Config, s: State, r: Req, hop: Addr, frame: Frame)
    requires Labelled(s) && DroppedKnown(s) && s.HasSlot(r) && s.At(r).addr == hop && WholeHeader(frame)
    ensures var t := Hand(cfg, s, r, hop, frame);
      Labelled(t) && DroppedKnown(t) && s.handed <= t.handed && t.draining == s.draining
  {
    HandLabels(cfg, s, r, hop, frame);
    HandRecord(cfg, s, r, hop, frame);
  }

  lemma LookupSound(s: State, d: Dev, addr: Addr, mac: Option<Mac>, now: int)
    requires Good(s) && Labelled(s) && DroppedKnown(s)
    ensures Labelled(Lookup(s, d, addr, mac, now)) && DroppedKnown(Lookup(s, d, addr, mac, now))
    ensures var t := Lookup(s, d, addr, mac, now);
      t.handed == s.handed && t.sent == s.sent && t.draining == s.draining
  {
    LookupLabels(s, d, addr, mac, now);
    forall id | id in Evicted(s.Table(d), addr, mac, now) ensures id < |s.handed| {
      EvictedLabel(s, d, addr, mac, now, id);
    }
  }

  lemma BufferSound(s: State, l: Late)
    requires Good(s) && Labelled(s) && DroppedKnown(s)
    requires s.HasSlot(l.slot) && s.At(l.slot).Live() && s.At(l.slot).addr == l.hop
    requires WholeHeader(l.frame) && |l.frame| <= MAX_FRAME
    ensures var t := Buffer(s, l);
      Good(t) && Labelled(t) && DroppedKnown(t) && s.handed <= t.handed && t.draining == s.draining
  {
    if s.At(l.slot).bytes > MAX_BUCKET {
      SameLabels(s, Buffer(s, l));
    } else {
      AppendKeepsTable(s.Table(l.slot.dev), l.slot.dev, l.slot.slot, Item(|s.handed|, l.frame));
      AppendLabels(s, Buffer(s, l), l.slot, l.frame);
    }
  }

  /** The sender thread changes queues and nothing else about the entries. */
  lemma SenderKeepsOwner(cfg: Config, s: State, ev: Event, r: Req)
    requires Enabled(s, ev) && SenderEvent(ev) && s.HasSlot(r)
    ensures var s' := Step(cfg, s, ev);
      && s'.HasSlot(r) && s'.At(r).flag == s.At(r).flag && s'.At(r).addr == s.At(r).addr && s'.handed == s.handed
  {
  }

  lemma SenderSound(cfg: Config, s: State, ev: Event)
    requires Good(s) && Labelled(s) && DroppedKnown(s) && Enabled(s, ev) && SenderEvent(ev)
    ensures var s' := Step(cfg, s, ev); Good(s') && Labelled(s') && DroppedKnown(s')
  {
    StepKeepsGood(cfg, s, ev);
    if ev == SendFrame { SendLabels(s); } else { SameLabels(s, Step(cfg, s, ev)); }
  }

  lemma WholeSound(cfg: Config, p: Split, ev: Event)
    requires Sound(cfg, p) && Possible(cfg, p, Whole(ev))
    ensures Sound(cfg, SplitStep(cfg, p, Whole(ev)))
  {
    if ev.Arrival? {
      var f := ArrivalEffect(cfg, p.s, ev.dev, ev.buf, ev.size, ev.now);
      EffectSound(cfg, p.s, Step(cfg, p.s, ev), ev.now, f);
    } else {
      SenderSound(cfg, p.s, ev);
      if p.late.Some? { SenderKeepsOwner(cfg, p.s, ev, p.late.value.slot); }
    }
  }

  lemma GuardSound(cfg: Config, p: Split, dev: Dev, buf: seq<Byte>, size: nat, now: int)
    requires Sound(cfg, p) && Possible(cfg, p, Guard(dev, buf, size, now))
    ensures Sound(cfg, SplitStep(cfg, p, Guard(dev, buf, size, now)))
  {
    var f := ArrivalEffect(cfg, p.s, dev, buf, size, now);
    LookupKeepsGood(p.s, f.d, f.hop, None, now);
    LookupSound(p.s, f.d, f.hop, None, now);
  }

  /** Taking a frame is sending it, but for the record. */
  lemma TakeIsSend(cfg: Config, p: Split)
    requires Possible(cfg, p, Take)
    ensures SplitStep(cfg, p, Take).s == SendOne(p.s).(sent := p.s.sent)
  {
  }

  lemma TakenState(cfg: Config, p: Split)
    requires Sound(cfg, p) && Possible(cfg, p, Take)
    ensures var q := SplitStep(cfg, p, Take); Good(q.s) && Labelled(q.s) && DroppedKnown(q.s)
  {
    TakeIsSend(cfg, p);
    SenderSound(cfg, p.s, SendFrame);
    SameLabels(SendOne(p.s), SplitStep(cfg, p, Take).s);
  }

  lemma TakeSound(cfg: Config, p: Split)
    requires Sound(cfg, p) && Possible(cfg, p, Take)
    ensures Sound(cfg, SplitStep(cfg, p, Take))
  {
    TakenState(cfg, p);
    TakenIsHead(cfg, p);
    assert GoodLabel(p.s, p.s.draining.value, 0);
    var q := SplitStep(cfg, p, Take);
    assert HeldGood(q);
    if p.late.Some? { OwnerKept(p.s, p.s.draining.value, Get(p.s.At(p.s.draining.value)), p.late.value.slot); }
  }

  lemma OwnerKept(s: State, r: Req, e: Entry, q: Req)
    requires s.HasSlot(r) && s.HasSlot(q) && e.flag == s.At(r).flag && e.addr == s.At(r).addr
    ensures var t := s.WithEntry(r, e); t.HasSlot(q) && t.At(q).flag == s.At(q).flag && t.At(q).addr == s.At(q).addr
  {
  }

  lemma TakenIsHead(cfg: Config, p: Split)
    requires Possible(cfg, p, Take)
    ensures var q, r := SplitStep(cfg, p, Take), p.s.draining.value;
      && q.s == p.s.WithEntry(r, Get(p.s.At(r))) && q.s.sent == p.s.sent
      && q.s.handed == p.s.handed && q.s.dropped == p.s.dropped && q.late == p.late
      && q.held == Some(Held(p.s.At(r).queue[0], r, p.s.At(r).addr, None)) && q.s.draining == p.s.draining
  {
  }

  lemma SplitKeepsSound(cfg: Config, p: Split, ev: SplitEvent)
    requires Sound(cfg, p) && Possible(cfg, p, ev)
    ensures Sound(cfg, SplitStep(cfg, p, ev))
  {
    match ev
    case Whole(e) => WholeSound(cfg, p, e);
    case Guard(dev, buf, size, now) => GuardSound(cfg, p, dev, buf, size, now);
    case AppendLate => BufferSound(p.s, p.late.value);
    case Take => TakeSound(cfg, p);
    case ReadMac =>
    case Write => SameLabels(p.s, SplitStep(cfg, p, ev).s);
  }

  /** A frame in hand can always be written. */
  lemma HandCanMove(cfg: Config, p: Split)
    requires Sound(cfg, p) && p.held.Some?
    ensures Possible(cfg, p, if p.held.value.seen == None then ReadMac else Write)
  {
  }

  lemma {:induction false} SplitRunSound(cfg: Config, evs: seq<SplitEvent>)
    requires SplitRun(cfg, evs).Some?
    ensures Sound(cfg, SplitRun(cfg, evs).value)
  {
    if |evs| > 0 {
      SplitRunSound(cfg, evs[..|evs| - 1]);
      SplitKeepsSound(cfg, SplitRun(cfg, evs[..|evs| - 1]).value, evs[|evs| - 1]);
    }
  }
}
