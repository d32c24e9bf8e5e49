/** No resolved neighbour's frames are ever forgotten, and the sender thread gets through them. */
module Wakeup {
  import opened Bytes
  import opened Frames
  import opened Cache
  import opened RouterSystem
  import opened Structure

  predicate Pending(s: State, r: Req) { r in s.requests || s.draining == Some(r) }

  /** A resolved entry with waiting frames is on the sender thread's list, or being served by it. */
  predicate Remembered(s: State, r: Req) {
    s.HasSlot(r) && s.At(r).flag == Ok && s.At(r).queue != [] ==> Pending(s, r)
  }

  ghost predicate Awake(s: State) { forall r: Req :: Remembered(s, r) }

  /** A resolved entry with frames after a search was resolved before, or this search asks for its draining. */
  lemma ResolvedNow(t: Table, d: int, addr: Addr, mac: Option<Mac>, now: int, j: nat)
    requires GoodTable(t, d)
    requires var es' := Search(t, d, addr, mac, now).table.entries;
      j < |es'| && es'[j].flag == Ok && es'[j].queue != []
    ensures j < |t.entries| && t.entries[j].queue != []
    ensures t.entries[j].flag == Ok
      || (Search(t, d, addr, mac, now).wake && Search(t, d, addr, mac, now).slot == j)
  {
    SearchSlots(t, d, addr, mac, now);
  }

  lemma LookupAwake(s: State, d: Dev, addr: Addr, mac: Option<Mac>, now: int)
    requires Good(s) && Awake(s)
    ensures Awake(Lookup(s, d, addr, mac, now))
  {
    var s' := Lookup(s, d, addr, mac, now);
    forall r: Req ensures Remembered(s', r) {
      assert Remembered(s, r);
      if s'.HasSlot(r) && s'.At(r).flag == Ok && s'.At(r).queue != [] {
        if r.dev == d { ResolvedNow(s.Table(d), d, addr, mac, now, r.slot); }
      }
    }
  }

  lemma HandAwake(cfg: Config, s: State, r: Req, hop: Addr, frame: Frame)
    requires Good(s) && Awake(s) && WholeHeader(frame) && s.HasSlot(r) && s.At(r).Live()
    ensures Awake(Hand(cfg, s, r, hop, frame))
  {
    var s' := Hand(cfg, s, r, hop, frame);
    assert GoodEntry(s.At(r), r.dev);
    forall q: Req ensures Remembered(s', q) {
      assert Remembered(s, q);
    }
  }

  lemma ForwardAwake(cfg: Config, s: State, d: Dev, hop: Addr, frame: Frame, now: int)
    requires Good(s) && Awake(s) && WholeHeader(frame)
    ensures Awake(RouteTo(cfg, s, d, hop, frame, now))
  {
    LookupKeepsGood(s, d, hop, None, now);
    LookupAwake(s, d, hop, None, now);
    HandAwake(cfg, Lookup(s, d, hop, None, now), Req(d, Search(s.Table(d), d, hop, None, now).slot), hop, frame);
  }

  lemma EffectAwake(cfg: Config, s: State, s': State, now: int, f: Effect)
    requires Good(s) && Awake(s) && HasEffect(cfg, s, s', now, f)
    ensures Awake(s')
  {
    match f
    case Nothing => forall q: Req ensures Remembered(s', q) { assert Remembered(s, q); }
    case OnlyLookup(d, addr, mac) => LookupAwake(s, d, addr, Some(mac), now);
    case LookupAndHand(d, hop, frame) => ForwardAwake(cfg, s, d, hop, frame, now);
  }

  lemma StepAwake(cfg: Config, s: State, ev: Event)
    requires Good(s) && Awake(s) && Enabled(s, ev)
    ensures Awake(Step(cfg, s, ev))
  {
    var s' := Step(cfg, s, ev);
    match ev
    case Arrival(dev, buf, size, now) =>
      var f := ArrivalEffect(cfg, s, dev, buf, size, now);
      EffectAwake(cfg, s, s', now, f);
    case PopRequest => forall q: Req ensures Remembered(s', q) { assert Remembered(s, q); }
    case SendFrame => forall q: Req ensures Remembered(s', q) { assert Remembered(s, q); }
    case FindEmpty => forall q: Req ensures Remembered(s', q) { assert Remembered(s, q); }
  }

  // ----- the sender thread on its own -----

  predicate SenderEvent(ev: Event) { !ev.Arrival? }

  /** The sender thread has nothing left to do. */
  predicate Quiet(s: State) { s.requests == [] && s.draining == None }

  lemma SenderCanMove(s: State)
    requires Good(s)
    ensures Quiet(s) <==> !Enabled(s, PopRequest) && !Enabled(s, SendFrame) && !Enabled(s, FindEmpty)
  {
    if s.draining.Some? {
      var r := s.draining.value;
      assert GoodEntry(s.At(r), r.dev);
      if s.At(r).queue != [] { assert GoodItem(s.At(r).queue[0]); }
    }
  }

  function Queued(es: seq<Entry>): nat {
    if |es| == 0 then 0 else Queued(es[..|es| - 1]) + |es[|es| - 1].queue|
  }

  lemma {:induction false} QueuedUpdate(es: seq<Entry>, i: nat, e: Entry)
    requires i < |es|
    ensures Queued(es[i := e]) == Queued(es) - |es[i].queue| + |e.queue|
  {
    var n := |es| - 1;
    if i == n {
      assert es[i := e][..n] == es[..n];
    } else {
      QueuedUpdate(es[..n], i, e);
      assert es[i := e][..n] == es[..n][i := e];
    }
  }

  /** An upper bound on what the sender thread can still do without a new arrival. */
  function Work(s: State): nat {
    2 * |s.requests| + (if s.draining.Some? then 1 else 0) + Queued(s.table0.entries) + Queued(s.table1.entries)
  }

  /** Every action of the sender thread uses up exactly one unit of work. */
  lemma SenderStepWork(cfg: Config, s: State, ev: Event)
    requires Enabled(s, ev) && SenderEvent(ev)
    ensures Work(Step(cfg, s, ev)) == Work(s) - 1
  {
    if ev == SendFrame {
      var r := s.draining.value;
      QueuedUpdate(s.Table(r.dev).entries, r.slot, Get(s.At(r)));
    }
  }

  ghost predicate AllSent(s: State) {
    forall r: Req :: s.HasSlot(r) && s.At(r).flag == Ok ==> s.At(r).queue == []
  }

  /** Once no more frames arrive, every run of the sender thread comes to an end after at most `Work(s)`
      actions, and when it has nothing left to do no resolved entry has a frame waiting. */
  lemma {:induction false} SenderDrainsEverything(cfg: Config, s: State, evs: seq<Event>)
    requires Good(s) && Awake(s)
    requires forall i :: 0 <= i < |evs| ==> SenderEvent(evs[i])
    requires RunFrom(cfg, s, evs).Some?
    ensures var s' := RunFrom(cfg, s, evs).value;
      Good(s') && Awake(s') && Work(s') == Work(s) - |evs| && (Quiet(s') ==> AllSent(s'))
  {
    var s' := RunFrom(cfg, s, evs).value;
    if |evs| > 0 {
      var ev := evs[|evs| - 1];
      SenderDrainsEverything(cfg, s, evs[..|evs| - 1]);
      var t := RunFrom(cfg, s, evs[..|evs| - 1]).value;
      SenderStepWork(cfg, t, ev);
      StepKeepsGood(cfg, t, ev);
      StepAwake(cfg, t, ev);
    }
    forall r: Req | Quiet(s') && s'.HasSlot(r) && s'.At(r).flag == Ok ensures s'.At(r).queue == [] {
      assert Remembered(s', r);
    }
  }

  /** And it can always get there: until then one of its actions is possible. */
  lemma SenderReachesQuiet(cfg: Config, s: State) returns (evs: seq<Event>)
    requires Good(s)
    ensures forall i :: 0 <= i < |evs| ==> SenderEvent(evs[i])
    ensures RunFrom(cfg, s, evs).Some? && Quiet(RunFrom(cfg, s, evs).value)
  {
    evs := [];
    var t := s;
    while !Quiet(t)
      invariant forall i :: 0 <= i < |evs| ==> SenderEvent(evs[i])
      invariant RunFrom(cfg, s, evs) == Some(t) && Good(t)
      decreases Work(t)
    {
      SenderCanMove(t);
      var ev := if Enabled(t, PopRequest) then PopRequest else if Enabled(t, SendFrame) then SendFrame else FindEmpty;
      SenderStepWork(cfg, t, ev);
      StepKeepsGood(cfg, t, ev);
      RunExtended(cfg, s, evs, t, ev);
      evs, t := evs + [ev], Step(cfg, t, ev);
    }
  }

  // ----- the length of the request queue -----

  function Slots(d: Dev, n: nat): set<Req> { set i | 0 <= i < n :: Req(d, i) }

  lemma {:induction false} SlotCount(d: Dev, n: nat)
    ensures |Slots(d, n)| == n
  {
    if n == 0 {
      assert Slots(d, 0) == {};
    } else {
      SlotCount(d, n - 1);
      assert Slots(d, n) == Slots(d, n - 1) + {Req(d, n - 1)};
    }
  }

  function Elements(rs: seq<Req>): set<Req> { set r | r in rs }

  lemma {:induction false} DistinctCount(rs: seq<Req>)
    requires forall i, j :: 0 <= i < j < |rs| ==> rs[i] != rs[j]
    ensures |Elements(rs)| == |rs|
  {
    if |rs| == 0 {
      assert Elements(rs) == {};
    } else {
      var n := |rs| - 1;
      DistinctCount(rs[..n]);
      assert rs == rs[..n] + [rs[n]];
      assert Elements(rs) == Elements(rs[..n]) + {rs[n]};
    }
  }

  lemma SubsetCount<T>(a: set<T>, b: set<T>)
    requires a <= b
    ensures |a| <= |b|
  {
    assert b == a + (b - a);
  }

  /** There are never more requests than slots in the two tables. */
  lemma RequestsBounded(s: State)
    requires GoodRequests(s)
    ensures |s.requests| <= |s.table0.entries| + |s.table1.entries|
  {
    var all := Elements(s.requests);
    var zero, one := Slots(0, |s.table0.entries|), Slots(1, |s.table1.entries|);
    DistinctCount(s.requests);
    SlotCount(0, |s.table0.entries|);
    SlotCount(1, |s.table1.entries|);
    forall r | r in all ensures r in zero + one {
      assert r == Req(r.dev, r.slot) && s.HasSlot(r);
    }
    SubsetCount(all, zero + one);
  }
}
