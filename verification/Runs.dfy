/** The properties of every run of the router from power-on. */
module Runs {
  import opened Bytes
  import opened Frames
  import opened Cache
  import opened RouterSystem
  import opened Structure
  import opened Arrivals
  import opened Delivery
  import opened Wakeup
  import opened MacHistory
  import opened MultiHop

  ghost predicate Invariant(cfg: Config, s: State) {
    Good(s) && Delivered(cfg, s) && Awake(s) && CacheAgrees(s) && MacsAccountedFor(s)
  }

  lemma InitInvariant(cfg: Config)
    ensures Invariant(cfg, INIT)
  {
    forall d: Dev, hop: Addr ensures Balanced(INIT, d, hop) {}
  }

  lemma {:induction false} EveryRun(cfg: Config, evs: seq<Event>)
    requires After(cfg, evs).Some?
    ensures Invariant(cfg, After(cfg, evs).value)
  {
    if |evs| == 0 {
      InitInvariant(cfg);
    } else {
      var before, ev := evs[..|evs| - 1], evs[|evs| - 1];
      EveryRun(cfg, before);
      var s := After(cfg, before).value;
      StepKeepsGood(cfg, s, ev);
      StepDelivered(cfg, s, ev);
      StepAwake(cfg, s, ev);
      StepAgrees(cfg, s, ev);
    }
  }

  /** For each device and next hop: the frames written, followed by those waiting, are exactly the frames handed
      over for it less the dropped ones, in the order they were handed over; across expiry and slot reuse. */
  lemma PerNeighbourFifo(cfg: Config, evs: seq<Event>, d: Dev, hop: Addr)
    requires After(cfg, evs).Some?
    ensures var s := After(cfg, evs).value;
      SentTo(s.sent, d, hop) + Waiting(s.Table(d), hop) == Survivors(s.handed, s.dropped, d, hop)
  {
    EveryRun(cfg, evs);
    assert Balanced(After(cfg, evs).value, d, hop);
  }

  /** Every frame handed over has exactly one fate. */
  lemma Conservation(cfg: Config, evs: seq<Event>, id: nat)
    requires After(cfg, evs).Some? && id < |After(cfg, evs).value.handed|
    ensures var s := After(cfg, evs).value;
      && (id in s.dropped || (exists j :: WrittenAt(s, id, j)) || (exists r, k :: WaitsAt(s, id, r, k)))
      && (forall i, j :: WrittenAt(s, id, i) && WrittenAt(s, id, j) ==> i == j)
      && (forall j :: WrittenAt(s, id, j) ==> id !in s.dropped && forall r, k :: !WaitsAt(s, id, r, k))
      && (forall r, k :: WaitsAt(s, id, r, k) ==> id !in s.dropped)
      && (forall r, k, q, m :: WaitsAt(s, id, r, k) && WaitsAt(s, id, q, m) ==> r == q && k == m)
  {
    var s := After(cfg, evs).value;
    EveryRun(cfg, evs);
    EveryFrameHasAFate(cfg, s, id);
    forall j: nat | WrittenAt(s, id, j) ensures id !in s.dropped && (forall i :: WrittenAt(s, id, i) ==> i == j)
        && forall r, k :: !WaitsAt(s, id, r, k) {
      WrittenIsFinal(cfg, s, id, j);
    }
    forall r, k: nat | WaitsAt(s, id, r, k)
      ensures id !in s.dropped && forall q, m :: WaitsAt(s, id, q, m) ==> q == r && m == k
    {
      WaitingIsUnique(cfg, s, id, r, k);
    }
  }

  /** In every run a frame is handed over on its destination's segment for the destination itself, unless that is
      the router; otherwise for the default router. If that one is a neighbour, so is every next hop. */
  lemma HandedToNeighbours(cfg: Config, evs: seq<Event>, id: nat)
    requires After(cfg, evs).Some? && id < |After(cfg, evs).value.handed|
    ensures var h := After(cfg, evs).value.handed[id];
      && WholeHeader(h.frame) && Decide(h.frame) == RoutedOn
      && (if OnSegment(cfg, h.dev, h.frame[30..34]) then h.hop == h.frame[30..34] && Neighbour(cfg, h.dev, h.hop)
          else h.hop == cfg.nextRouter)
      && (Neighbour(cfg, h.dev, cfg.nextRouter) ==> Neighbour(cfg, h.dev, h.hop))
  {
    EveryRun(cfg, evs);
    assert WellHanded(cfg, After(cfg, evs).value.handed[id]);
  }

  /** Whatever is written for a received frame, on either path, is that packet one hop further: the next router
      accepts it, its TTL is one lower, and no other IP byte but the checksum has changed. */
  lemma ForwardedIsOneHopFurther(cfg: Config, evs: seq<Event>, j: nat)
    requires After(cfg, evs).Some? && j < |After(cfg, evs).value.sent|
    ensures OneHopFurther(cfg, After(cfg, evs).value, j)
  {
    EveryRun(cfg, evs);
    RecordIsOneHopFurther(cfg, After(cfg, evs).value, j);
  }

  /** The direct path puts the device's own MAC as source; the buffered one leaves the source it came with. */
  predicate OneHopFurther(cfg: Config, s: State, j: nat)
    requires j < |s.sent|
  {
    var x := s.sent[j];
    && x.id < |s.handed| && s.handed[x.id].dev == x.dev && s.handed[x.id].hop == x.hop
    && AfterHops(s.handed[x.id].frame, x.bytes, 1)
    && x.bytes[..6] == x.dst
    && x.bytes[6..12] == if x.direct then Port(cfg, x.dev).hwaddr else s.handed[x.id].frame[6..12]
  }

  lemma RecordIsOneHopFurther(cfg: Config, s: State, j: nat)
    requires GoodRecords(cfg, s) && j < |s.sent|
    ensures OneHopFurther(cfg, s, j)
  {
    var x := s.sent[j];
    assert GoodSent(cfg, s, x) && WellHanded(cfg, s.handed[x.id]);
    OneHop(s.handed[x.id].frame, Link(x.dst, cfg.Device(x.dev).hwaddr, !x.direct));
    PathEquivalence(s.handed[x.id].frame, x.dst, cfg.Device(x.dev).hwaddr);
  }

  /** No forgotten buffer: a resolved entry with waiting frames is always on the sender thread's list. */
  lemma NoForgottenBuffer(cfg: Config, evs: seq<Event>, r: Req)
    requires After(cfg, evs).Some? && After(cfg, evs).value.HasSlot(r)
    ensures var s := After(cfg, evs).value; s.At(r).flag == Ok && s.At(r).queue != [] ==> Pending(s, r)
  {
    EveryRun(cfg, evs);
    assert Remembered(After(cfg, evs).value, r);
  }

  /** A resolved entry holds the MAC of the latest ARP frame from its address, and every frame leaves with the
      MAC that was the latest for its next hop, or, if it was buffered, possibly with the all-zero MAC. */
  lemma CacheMatchesHistory(cfg: Config, evs: seq<Event>)
    requires After(cfg, evs).Some?
    ensures var s := After(cfg, evs).value;
      && (forall r: Req :: KnowsMac(s, r))
      && (forall j :: 0 <= j < |s.sent| && s.sent[j].direct ==> TrueMac(s, s.sent[j]))
      && (forall j :: 0 <= j < |s.sent| && !s.sent[j].direct ==>
           TrueMac(s, s.sent[j]) || s.sent[j].dst == [0, 0, 0, 0, 0, 0])
  {
    EveryRun(cfg, evs);
    var s := After(cfg, evs).value;
    forall j | 0 <= j < |s.sent| ensures TrueOrZeroMac(s, s.sent[j]) {}
  }

  /** No slot is given up in this run while its draining is still due. */
  ghost predicate CalmRun(cfg: Config, evs: seq<Event>)
    requires After(cfg, evs).Some?
  {
    |evs| > 0 ==>
      && CalmRun(cfg, evs[..|evs| - 1])
      && CalmStep(After(cfg, evs[..|evs| - 1]).value, After(cfg, evs).value)
  }

  /** In such runs every frame, buffered ones included, leaves with the latest MAC of its next hop. */
  lemma {:induction false} CalmRunsUseTrueMacs(cfg: Config, evs: seq<Event>)
    requires After(cfg, evs).Some? && CalmRun(cfg, evs)
    ensures AllPendingResolved(After(cfg, evs).value) && AllMacsTrue(After(cfg, evs).value)
  {
    if |evs| > 0 {
      var before := evs[..|evs| - 1];
      CalmRunsUseTrueMacs(cfg, before);
      EveryRun(cfg, before);
      CalmStepKeeps(cfg, After(cfg, before).value, evs[|evs| - 1]);
    }
  }

  /** The byte bound and its consequences for every entry in use, and the request queue's length. */
  lemma Bounds(cfg: Config, evs: seq<Event>, r: Req)
    requires After(cfg, evs).Some? && After(cfg, evs).value.HasSlot(r)
    ensures WithinBounds(After(cfg, evs).value, r)
  {
    EveryRun(cfg, evs);
    GoodWithinBounds(After(cfg, evs).value, r);
  }

  predicate WithinBounds(s: State, r: Req)
    requires s.HasSlot(r)
  {
    var e := s.At(r);
    && (e.Live() ==> e.dno == |e.queue| && e.bytes == QueueBytes(e.queue))
    && (e.Live() ==> e.bytes <= 1048576 + 2048 && 34 * e.dno <= e.bytes)
    && (!e.Live() ==> e.queue == [])
    && |s.requests| <= |s.table0.entries| + |s.table1.entries|
    && (forall i, j :: 0 <= i < j < |s.requests| ==> s.requests[i] != s.requests[j])
    && (forall i :: 0 <= i < |s.requests| ==> s.HasSlot(s.requests[i]))
  }

  lemma GoodWithinBounds(s: State, r: Req)
    requires Good(s) && s.HasSlot(r)
    ensures WithinBounds(s, r)
  {
    assert GoodEntry(s.At(r), r.dev);
    QueueBytesAtLeast(s.At(r).queue);
    RequestsBounded(s);
  }

  // ----- high-water mark -----

  /** The largest number of live entries a device's table has had after any step of the run. */
  function Peak(cfg: Config, evs: seq<Event>, d: Dev): nat
    requires After(cfg, evs).Some?
  {
    if |evs| == 0 then 0
    else
      var before, now := Peak(cfg, evs[..|evs| - 1], d), LiveCount(After(cfg, evs).value.Table(d).entries);
      if now > before then now else before
  }

  lemma {:induction false} LiveCountSame(es: seq<Entry>, es': seq<Entry>)
    requires |es| == |es'| && forall i :: 0 <= i < |es| ==> es[i].flag == es'[i].flag
    ensures LiveCount(es) == LiveCount(es')
  {
    if |es| > 0 { LiveCountSame(es[..|es| - 1], es'[..|es| - 1]); }
  }

  lemma HandKeepsCount(cfg: Config, s: State, r: Req, hop: Addr, frame: Frame, d: Dev)
    requires WholeHeader(frame) && s.HasSlot(r)
    ensures var s' := Hand(cfg, s, r, hop, frame);
      && |s'.Table(d).entries| == |s.Table(d).entries|
      && LiveCount(s'.Table(d).entries) == LiveCount(s.Table(d).entries)
  {
    LiveCountSame(s.Table(d).entries, Hand(cfg, s, r, hop, frame).Table(d).entries);
  }

  /** A table grows only by what is live afterwards. */
  predicate Grown(t: Table, t': Table) {
    |t'.entries| == if LiveCount(t'.entries) > |t.entries| then LiveCount(t'.entries) else |t.entries|
  }

  lemma ForwardGrowth(cfg: Config, s: State, d': Dev, hop: Addr, frame: Frame, now: int, d: Dev)
    requires Good(s) && WholeHeader(frame)
    ensures Grown(s.Table(d), RouteTo(cfg, s, d', hop, frame, now).Table(d))
  {
    GrowsOnlyWhenFull(s.Table(d'), d', hop, None, now);
    var r := Req(d', Search(s.Table(d'), d', hop, None, now).slot);
    HandKeepsCount(cfg, Lookup(s, d', hop, None, now), r, hop, frame, d);
  }

  lemma EffectGrowth(cfg: Config, s: State, s': State, now: int, f: Effect, d: Dev)
    requires Good(s) && HasEffect(cfg, s, s', now, f)
    ensures Grown(s.Table(d), s'.Table(d))
  {
    match f
    case Nothing =>
    case OnlyLookup(d', addr, mac) => GrowsOnlyWhenFull(s.Table(d'), d', addr, Some(mac), now);
    case LookupAndHand(d', hop, frame) => ForwardGrowth(cfg, s, d', hop, frame, now, d);
  }

  lemma StepGrowth(cfg: Config, s: State, ev: Event, d: Dev)
    requires Good(s) && Enabled(s, ev)
    ensures Grown(s.Table(d), Step(cfg, s, ev).Table(d))
  {
    match ev
    case Arrival(dev, buf, size, now) =>
      var f := ArrivalEffect(cfg, s, dev, buf, size, now);
      EffectGrowth(cfg, s, Step(cfg, s, ev), now, f, d);
    case PopRequest =>
    case SendFrame =>
    case FindEmpty =>
  }

  /** The table never has more slots than were once live at the same time, and its capacity is the least
      multiple of 1024 that holds them. */
  lemma {:induction false} HighWaterMark(cfg: Config, evs: seq<Event>, d: Dev)
    requires After(cfg, evs).Some?
    ensures var t := After(cfg, evs).value.Table(d);
      && |t.entries| == Peak(cfg, evs, d)
      && t.size % 1024 == 0 && |t.entries| <= t.size < |t.entries| + 1024
  {
    EveryRun(cfg, evs);
    if |evs| > 0 {
      var before := evs[..|evs| - 1];
      HighWaterMark(cfg, before, d);
      EveryRun(cfg, before);
      StepGrowth(cfg, After(cfg, before).value, evs[|evs| - 1], d);
    }
  }
}
