/** What no interleaving of the two threads can break. */
module Unharmed {
  import opened Bytes
  import opened Cache
  import opened RouterSystem
  import opened Structure
  import opened Delivery
  import opened Splits
  import opened Runs

  // ----- what is written is the packet, one hop further -----

  lemma LookupRecords(cfg: Config, s: State, d: Dev, addr: Addr, mac: Option<Mac>, now: int)
    requires Good(s) && Labelled(s) && GoodRecords(cfg, s)
    ensures GoodRecords(cfg, Lookup(s, d, addr, mac, now))
  {
    var s' := Lookup(s, d, addr, mac, now);
    LookupSound(s, d, addr, mac, now);
    SameRecords(cfg, s, s');
  }

  lemma SameRecords(cfg: Config, s: State, s': State)
    requires GoodRecords(cfg, s) && s'.sent == s.sent && s'.handed == s.handed && DroppedKnown(s')
    ensures GoodRecords(cfg, s')
  {
    forall j | 0 <= j < |s'.sent| ensures GoodSent(cfg, s', s'.sent[j]) { assert GoodSent(cfg, s, s.sent[j]); }
  }

  lemma EffectRecords(cfg: Config, s: State, s': State, now: int, f: Effect)
    requires Good(s) && Labelled(s) && GoodRecords(cfg, s) && HasEffect(cfg, s, s', now, f)
    ensures GoodRecords(cfg, s')
  {
    match f
    case Nothing => SameRecords(cfg, s, s');
    case OnlyLookup(d, addr, mac) => LookupRecords(cfg, s, d, addr, Some(mac), now);
    case LookupAndHand(d, hop, frame) =>
      LookupRecords(cfg, s, d, hop, None, now);
      HandRecords(cfg, Lookup(s, d, hop, None, now), SlotFound(s, d, hop, now), hop, frame);
  }

  lemma WholeRecords(cfg: Config, p: Split, ev: Event)
    requires Sound(cfg, p) && GoodRecords(cfg, p.s) && Possible(cfg, p, Whole(ev))
    ensures GoodRecords(cfg, Step(cfg, p.s, ev))
  {
    if ev.Arrival? {
      var f := ArrivalEffect(cfg, p.s, ev.dev, ev.buf, ev.size, ev.now);
      EffectRecords(cfg, p.s, Step(cfg, p.s, ev), ev.now, f);
    } else if ev == SendFrame {
      SendRecords(cfg, p.s);
    } else {
      SameRecords(cfg, p.s, Step(cfg, p.s, ev));
    }
  }

  lemma WriteRecords(cfg: Config, p: Split)
    requires HeldGood(p) && GoodRecords(cfg, p.s) && Possible(cfg, p, Write)
    ensures GoodRecords(cfg, SplitStep(cfg, p, Write).s)
  {
    var s' := SplitStep(cfg, p, Write).s;
    forall j | 0 <= j < |s'.sent| ensures GoodSent(cfg, s', s'.sent[j]) {
      if j < |p.s.sent| { assert GoodSent(cfg, p.s, p.s.sent[j]); }
    }
  }

  lemma BufferRecords(cfg: Config, s: State, l: Late)
    requires GoodRecords(cfg, s) && s.HasSlot(l.slot) && WellHanded(cfg, Handed(l.slot.dev, l.hop, l.frame))
    ensures GoodRecords(cfg, Buffer(s, l))
  {
    MoreRecords(cfg, s, Buffer(s, l), Handed(l.slot.dev, l.hop, l.frame));
  }

  lemma SplitRecords(cfg: Config, p: Split, ev: SplitEvent)
    requires Sound(cfg, p) && GoodRecords(cfg, p.s) && Possible(cfg, p, ev)
    ensures GoodRecords(cfg, SplitStep(cfg, p, ev).s)
  {
    match ev
    case Whole(e) => WholeRecords(cfg, p, e);
    case Guard(dev, buf, size, now) =>
      var f := EffectOf(cfg, dev, buf, size);
      LookupRecords(cfg, p.s, f.d, f.hop, None, now);
    case AppendLate => BufferRecords(cfg, p.s, p.late.value);
    case Take => SameRecords(cfg, p.s, SplitStep(cfg, p, ev).s);
    case ReadMac =>
    case Write => WriteRecords(cfg, p);
  }

  lemma {:induction false} RunRecords(cfg: Config, evs: seq<SplitEvent>)
    requires SplitRun(cfg, evs).Some?
    ensures GoodRecords(cfg, SplitRun(cfg, evs).value.s)
  {
    if |evs| > 0 {
      var before := evs[..|evs| - 1];
      RunRecords(cfg, before);
      SplitRunSound(cfg, before);
      SplitRecords(cfg, SplitRun(cfg, before).value, evs[|evs| - 1]);
    }
  }

  /** However the threads interleave, and whatever MAC it gets: a frame is written as its packet one hop further. */
  lemma AlwaysOneHopFurther(cfg: Config, evs: seq<SplitEvent>, j: nat)
    requires SplitRun(cfg, evs).Some? && j < |SplitRun(cfg, evs).value.s.sent|
    ensures OneHopFurther(cfg, SplitRun(cfg, evs).value.s, j)
  {
    RunRecords(cfg, evs);
    RecordIsOneHopFurther(cfg, SplitRun(cfg, evs).value.s, j);
  }

  // ----- bounds -----

  /** However the threads interleave: counters, bytes, requests stay within their bounds. */
  lemma AlwaysWithinBounds(cfg: Config, evs: seq<SplitEvent>, r: Req)
    requires SplitRun(cfg, evs).Some? && SplitRun(cfg, evs).value.s.HasSlot(r)
    ensures WithinBounds(SplitRun(cfg, evs).value.s, r)
  {
    SplitRunSound(cfg, evs);
    GoodWithinBounds(SplitRun(cfg, evs).value.s, r);
  }

  /** The largest number of live entries a device's table has had so far. */
  function SplitPeak(cfg: Config, evs: seq<SplitEvent>, d: Dev): nat
    requires SplitRun(cfg, evs).Some?
  {
    if |evs| == 0 then 0
    else
      var before := SplitPeak(cfg, evs[..|evs| - 1], d);
      var now := LiveCount(SplitRun(cfg, evs).value.s.Table(d).entries);
      if now > before then now else before
  }

  lemma SameSlotsGrown(s: State, s': State, d: Dev)
    requires |s'.Table(d).entries| == |s.Table(d).entries|
    requires forall i :: 0 <= i < |s.Table(d).entries| ==> s'.Table(d).entries[i].flag == s.Table(d).entries[i].flag
    ensures Grown(s.Table(d), s'.Table(d))
  {
    LiveCountSame(s.Table(d).entries, s'.Table(d).entries);
  }

  lemma SplitGrowth(cfg: Config, p: Split, ev: SplitEvent, d: Dev)
    requires Good(p.s) && Possible(cfg, p, ev)
    ensures Grown(p.s.Table(d), SplitStep(cfg, p, ev).s.Table(d))
  {
    match ev
    case Whole(e) => StepGrowth(cfg, p.s, e, d);
    case Guard(dev, buf, size, now) =>
      var f := EffectOf(cfg, dev, buf, size);
      GrowsOnlyWhenFull(p.s.Table(f.d), f.d, f.hop, None, now);
    case AppendLate => SameSlotsGrown(p.s, SplitStep(cfg, p, ev).s, d);
    case Take => SameSlotsGrown(p.s, SplitStep(cfg, p, ev).s, d);
    case ReadMac =>
    case Write =>
  }

  /** However the threads interleave: the table has as many slots as were ever live at once, and the least capacity. */
  lemma {:induction false} AlwaysHighWaterMark(cfg: Config, evs: seq<SplitEvent>, d: Dev)
    requires SplitRun(cfg, evs).Some?
    ensures var t := SplitRun(cfg, evs).value.s.Table(d);
      && |t.entries| == SplitPeak(cfg, evs, d)
      && t.size % 1024 == 0 && |t.entries| <= t.size < |t.entries| + 1024
  {
    SplitRunSound(cfg, evs);
    if |evs| > 0 {
      var before := evs[..|evs| - 1];
      AlwaysHighWaterMark(cfg, before, d);
      SplitRunSound(cfg, before);
      SplitGrowth(cfg, SplitRun(cfg, before).value, evs[|evs| - 1], d);
    }
  }
}
