/** When a frame that is buffered late is forgotten: exactly, for every interleaving of the two threads. */
module Forgotten {
  import opened Bytes
  import opened Cache
  import opened RouterSystem
  import opened Structure
  import opened Wakeup
  import opened Splits

  /** A frame appended to a resolved entry is forgotten exactly if the sender thread has no order to come for it. The
      condition can be checked at the moment of appending; the guard of the program is checked earlier. */
  lemma LateAppendForgottenIff(s: State, r: Req, x: Item)
    requires Good(s) && Awake(s) && s.HasSlot(r) && s.At(r).Live() && s.At(r).bytes <= MAX_BUCKET
    ensures Awake(s.WithEntry(r, Append(s.At(r), x))) <==> s.At(r).flag != Ok || Pending(s, r)
  {
    var t := s.WithEntry(r, Append(s.At(r), x));
    assert Remembered(t, r) <==> s.At(r).flag != Ok || Pending(s, r);
    forall q: Req | q != r ensures Remembered(t, q) { assert Remembered(s, q); }
  }

  /** The order to drain the slot is still there, or the entry is one that nobody drains yet. */
  predicate SafeToAppend(s: State, r: Req)
    requires s.HasSlot(r)
  {
    s.At(r).flag != Ok || Pending(s, r)
  }

  lemma SameAwake(s: State, s': State)
    requires s'.table0 == s.table0 && s'.table1 == s.table1 && s'.requests == s.requests && s'.draining == s.draining
    ensures Awake(s') <==> Awake(s)
  {
    if Awake(s) { forall q: Req ensures Remembered(s', q) { assert Remembered(s, q); } }
    if Awake(s') { forall q: Req ensures Remembered(s, q) { assert Remembered(s', q); } }
  }

  lemma BufferAwake(s: State, l: Late)
    requires Good(s) && Awake(s) && s.HasSlot(l.slot) && s.At(l.slot).Live()
    ensures Awake(Buffer(s, l)) <==> SafeToAppend(s, l.slot)
  {
    var x := Item(|s.handed|, l.frame);
    if s.At(l.slot).bytes > MAX_BUCKET {
      SameAwake(s, Buffer(s, l));
      assert Remembered(s, l.slot) && GoodEntry(s.At(l.slot), l.slot.dev);
    } else {
      LateAppendForgottenIff(s, l.slot, x);
      SameAwake(s.WithEntry(l.slot, Append(s.At(l.slot), x)), Buffer(s, l));
    }
  }

  predicate SafeStep(p: Split, ev: SplitEvent) {
    ev == AppendLate && p.late.Some? && p.s.HasSlot(p.late.value.slot) ==> SafeToAppend(p.s, p.late.value.slot)
  }

  lemma SplitAwake(cfg: Config, p: Split, ev: SplitEvent)
    requires Sound(cfg, p) && Awake(p.s) && Possible(cfg, p, ev)
    ensures Awake(SplitStep(cfg, p, ev).s) <==> SafeStep(p, ev)
  {
    match ev
    case Whole(e) => StepAwake(cfg, p.s, e);
    case Guard(dev, buf, size, now) =>
      var f := EffectOf(cfg, dev, buf, size);
      LookupAwake(p.s, f.d, f.hop, None, now);
    case AppendLate => BufferAwake(p.s, p.late.value);
    case Take =>
      TakeIsSend(cfg, p);
      StepAwake(cfg, p.s, SendFrame);
      SameAwake(SendOne(p.s), SplitStep(cfg, p, ev).s);
    case ReadMac =>
    case Write => SameAwake(p.s, SplitStep(cfg, p, ev).s);
  }

  /** No frame is forgotten at any point of the run. */
  ghost predicate AlwaysAwake(cfg: Config, evs: seq<SplitEvent>)
    requires SplitRun(cfg, evs).Some?
  {
    Awake(SplitRun(cfg, evs).value.s) && (|evs| > 0 ==> AlwaysAwake(cfg, evs[..|evs| - 1]))
  }

  /** Every late append of the run finds its slot's order to drain still there, or the entry unresolved. */
  predicate AllAppendsSafe(cfg: Config, evs: seq<SplitEvent>)
    requires SplitRun(cfg, evs).Some?
  {
    |evs| > 0 ==>
      && AllAppendsSafe(cfg, evs[..|evs| - 1])
      && SafeStep(SplitRun(cfg, evs[..|evs| - 1]).value, evs[|evs| - 1])
  }

  /** However the threads interleave: no frame is ever forgotten if and only if every late append is safe. */
  lemma {:induction false} NothingForgottenIff(cfg: Config, evs: seq<SplitEvent>)
    requires SplitRun(cfg, evs).Some?
    ensures AlwaysAwake(cfg, evs) <==> AllAppendsSafe(cfg, evs)
  {
    if |evs| > 0 {
      var before := evs[..|evs| - 1];
      NothingForgottenIff(cfg, before);
      SplitRunSound(cfg, before);
      if AlwaysAwake(cfg, before) { SplitAwake(cfg, SplitRun(cfg, before).value, evs[|evs| - 1]); }
    }
  }

  /** The program's guard, as long as it is still true, makes the append safe. */
  lemma GuardImpliesSafe(s: State, r: Req)
    requires Good(s) && Awake(s) && s.HasSlot(r) && MustWait(s.At(r))
    ensures SafeToAppend(s, r)
  {
    assert GoodEntry(s.At(r), r.dev) && Remembered(s, r);
  }

  // ----- the same by events: who left the slot since the guard? -----

  /** The sender thread finds the slot's queue empty and leaves it, with no other request for it queued. */
  predicate Leaves(p: Split, ev: SplitEvent, r: Req) {
    ev == Whole(FindEmpty) && p.s.draining == Some(r) && r !in p.s.requests
  }

  /** It did so during `evs`, from `p` on. */
  predicate HasLeft(cfg: Config, p: Split, evs: seq<SplitEvent>, r: Req)
    requires SplitFrom(cfg, p, evs).Some?
  {
    |evs| > 0 && (HasLeft(cfg, p, evs[..|evs| - 1], r)
                  || Leaves(SplitFrom(cfg, p, evs[..|evs| - 1]).value, evs[|evs| - 1], r))
  }

  /** A part of a step of the sender thread. */
  predicate SenderPart(ev: SplitEvent) {
    match ev
    case Whole(e) => SenderEvent(e)
    case Guard(_, _, _, _) => false
    case AppendLate => false
    case _ => true
  }

  /** Neither thread ever waits for the other to finish what it is in the middle of. */
  lemma NeitherThreadBlocks(cfg: Config, p: Split, ev: SplitEvent, late: Option<Late>, held: Option<Held>)
    ensures SenderPart(ev) ==> (Possible(cfg, p, ev) <==> Possible(cfg, p.(late := late), ev))
    ensures !SenderPart(ev) ==> (Possible(cfg, p, ev) <==> Possible(cfg, p.(held := held), ev))
  {
  }

  lemma LateWaitsForSender(cfg: Config, p: Split, ev: SplitEvent)
    requires Possible(cfg, p, ev) && p.late.Some? && ev != AppendLate
    ensures SenderPart(ev) && SplitStep(cfg, p, ev).late == p.late
  {
  }

  lemma PendingUntilLeft(cfg: Config, p: Split, ev: SplitEvent, r: Req)
    requires Possible(cfg, p, ev) && SenderPart(ev)
    ensures Pending(SplitStep(cfg, p, ev).s, r) <==> Pending(p.s, r) && !Leaves(p, ev, r)
  {
  }

  lemma FlagStays(cfg: Config, p: Split, ev: SplitEvent, r: Req)
    requires Possible(cfg, p, ev) && SenderPart(ev) && p.s.HasSlot(r)
    ensures var t := SplitStep(cfg, p, ev).s; t.HasSlot(r) && t.At(r).flag == p.s.At(r).flag
  {
    if ev == Take {
      TakenIsHead(cfg, p);
      OwnerKept(p.s, p.s.draining.value, Get(p.s.At(p.s.draining.value)), r);
    } else if ev.Whole? {
      SenderKeepsOwner(cfg, p.s, ev.ev, r);
    }
  }

  /** As long as the router thread is about to append, only the sender thread can move, so its request for the slot is
      there until it leaves. */
  lemma {:induction false} PendingIffNotLeft(cfg: Config, p: Split, evs: seq<SplitEvent>, q: Split, r: Req)
    requires SplitFrom(cfg, p, evs) == Some(q) && p.late.Some? && p.s.HasSlot(r)
    requires forall i :: 0 <= i < |evs| ==> evs[i] != AppendLate
    ensures q.late == p.late && q.s.HasSlot(r) && q.s.At(r).flag == p.s.At(r).flag
    ensures Pending(q.s, r) <==> Pending(p.s, r) && !HasLeft(cfg, p, evs, r)
  {
    if |evs| > 0 {
      var before, ev := evs[..|evs| - 1], evs[|evs| - 1];
      var b := SplitFrom(cfg, p, before).value;
      PendingIffNotLeft(cfg, p, before, b, r);
      LateWaitsForSender(cfg, b, ev);
      PendingUntilLeft(cfg, b, ev, r);
      FlagStays(cfg, b, ev, r);
    }
  }

  /** From a guard to its append: the append forgets its frame if and only if the entry was resolved when the guard was
      passed, and the sender thread has left its slot since. */
  lemma SafeIffNotLeft(cfg: Config, p: Split, guard: SplitEvent, g: Split, between: seq<SplitEvent>, q: Split)
    requires Sound(cfg, p) && Awake(p.s) && guard.Guard? && Possible(cfg, p, guard) && g == SplitStep(cfg, p, guard)
    requires SplitFrom(cfg, g, between) == Some(q) && forall i :: 0 <= i < |between| ==> between[i] != AppendLate
    ensures q.late == g.late && g.late.Some? && g.s.HasSlot(g.late.value.slot) && Possible(cfg, q, AppendLate)
    ensures var r := g.late.value.slot;
      SafeToAppend(q.s, r) <==> g.s.At(r).flag != Ok || !HasLeft(cfg, g, between, r)
  {
    GuardPassed(cfg, p, guard);
    PendingIffNotLeft(cfg, g, between, q, g.late.value.slot);
  }

  lemma GuardPassed(cfg: Config, p: Split, guard: SplitEvent)
    requires Sound(cfg, p) && Awake(p.s) && guard.Guard? && Possible(cfg, p, guard)
    ensures var g := SplitStep(cfg, p, guard);
      g.late.Some? && g.s.HasSlot(g.late.value.slot) && SafeToAppend(g.s, g.late.value.slot)
  {
    var g := SplitStep(cfg, p, guard);
    SplitKeepsSound(cfg, p, guard);
    SplitAwake(cfg, p, guard);
    GuardImpliesSafe(g.s, g.late.value.slot);
  }

  // ----- the sender thread on its own -----

  /** What the sender thread can still do without the router thread: a frame takes it three parts. */
  function SplitWork(p: Split): nat {
    2 * |p.s.requests| + (if p.s.draining.Some? then 1 else 0)
      + 3 * (Queued(p.s.table0.entries) + Queued(p.s.table1.entries))
      + if p.held == None then 0 else if p.held.value.seen == None then 2 else 1
  }

  lemma TakenFromQueue(s: State, r: Req)
    requires s.HasSlot(r) && s.At(r).queue != []
    ensures var t := s.WithEntry(r, Get(s.At(r)));
      Queued(t.table0.entries) + Queued(t.table1.entries) == Queued(s.table0.entries) + Queued(s.table1.entries) - 1
  {
    QueuedUpdate(s.Table(r.dev).entries, r.slot, Get(s.At(r)));
  }

  lemma SenderPartWork(cfg: Config, p: Split, ev: SplitEvent)
    requires Possible(cfg, p, ev) && SenderPart(ev)
    ensures SplitWork(SplitStep(cfg, p, ev)) < SplitWork(p)
  {
    if ev == Take || ev == Whole(SendFrame) { TakenFromQueue(p.s, p.s.draining.value); }
  }

  lemma SenderPartCanMove(cfg: Config, p: Split) returns (ev: SplitEvent)
    requires Sound(cfg, p) && !Quiet(p.s)
    ensures SenderPart(ev) && Possible(cfg, p, ev)
  {
    SenderCanMove(p.s);
    if p.held.Some? {
      HandCanMove(cfg, p);
      ev := if p.held.value.seen == None then ReadMac else Write;
    } else {
      ev := if Enabled(p.s, PopRequest) then Whole(PopRequest)
            else if Enabled(p.s, SendFrame) then Take else Whole(FindEmpty);
    }
  }

  /** Left alone by the router thread, the sender thread comes to an end within its work, can move until then, and
      leaves nothing waiting in a resolved entry and nothing in hand. */
  lemma {:induction false} SplitDrainsEverything(cfg: Config, p: Split, evs: seq<SplitEvent>)
    requires Sound(cfg, p) && Awake(p.s)
    requires SplitFrom(cfg, p, evs).Some? && forall i :: 0 <= i < |evs| ==> SenderPart(evs[i])
    ensures var q := SplitFrom(cfg, p, evs).value;
      && Sound(cfg, q) && Awake(q.s) && SplitWork(q) + |evs| <= SplitWork(p)
      && (Quiet(q.s) <==> forall ev :: SenderPart(ev) ==> !Possible(cfg, q, ev))
      && (Quiet(q.s) ==> AllSent(q.s) && q.held == None)
  {
    var q := SplitFrom(cfg, p, evs).value;
    if |evs| > 0 {
      var before, ev := evs[..|evs| - 1], evs[|evs| - 1];
      SplitDrainsEverything(cfg, p, before);
      var b := SplitFrom(cfg, p, before).value;
      SenderPartWork(cfg, b, ev);
      SplitKeepsSound(cfg, b, ev);
      SplitAwake(cfg, b, ev);
    }
    QuietIffStuck(cfg, q);
    if Quiet(q.s) {
      forall r: Req | q.s.HasSlot(r) && q.s.At(r).flag == Ok ensures q.s.At(r).queue == [] {
        assert Remembered(q.s, r);
      }
    }
  }

  lemma QuietIffStuck(cfg: Config, p: Split)
    requires Sound(cfg, p)
    ensures Quiet(p.s) <==> forall ev :: SenderPart(ev) ==> !Possible(cfg, p, ev)
  {
    if !Quiet(p.s) { var ev := SenderPartCanMove(cfg, p); }
  }
}
