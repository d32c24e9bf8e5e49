/** The cache agrees with the ARP frames received, and which MAC each frame leaves with. */
module MacHistory {
  import opened Bytes
  import opened Frames
  import opened Cache
  import opened RouterSystem
  import opened Structure
  import opened Wakeup

  /** The sender MAC of the most recent accepted ARP frame for an address on a device. */
  function LastMac(arps: seq<Arp>, d: Dev, addr: Addr): Option<Mac> {
    if |arps| == 0 then None
    else
      var a := arps[|arps| - 1];
      if a.dev == d && a.addr == addr then Some(a.mac) else LastMac(arps[..|arps| - 1], d, addr)
  }

  /** A resolved entry holds that MAC. */
  predicate KnowsMac(s: State, r: Req) {
    s.HasSlot(r) && s.At(r).flag == Ok ==> LastMac(s.arps, r.dev, s.At(r).addr) == Some(s.At(r).hwaddr)
  }

  ghost predicate CacheAgrees(s: State) { forall r: Req :: KnowsMac(s, r) }

  /** A frame left with the MAC that was current for its next hop when it was written. */
  predicate TrueMac(s: State, x: Sent) {
    x.known <= |s.arps| && LastMac(s.arps[..x.known], x.dev, x.hop) == Some(x.dst)
  }

  /** The only other possibility, and only for buffered frames, is the all-zero MAC. */
  predicate TrueOrZeroMac(s: State, x: Sent) {
    x.known <= |s.arps| && (TrueMac(s, x) || (!x.direct && x.dst == [0, 0, 0, 0, 0, 0]))
  }

  predicate MacsAccountedFor(s: State) {
    forall j :: 0 <= j < |s.sent| ==> TrueOrZeroMac(s, s.sent[j])
  }

  predicate HeardAt(arps: seq<Arp>, k: nat, d: Dev, addr: Addr) {
    k < |arps| && arps[k].dev == d && arps[k].addr == addr
  }

  /** It is there if and only if the address was ever heard of on the device, and then the one heard last. */
  lemma {:induction false} LastMacHeard(arps: seq<Arp>, d: Dev, addr: Addr)
    ensures LastMac(arps, d, addr) == None <==> forall k: nat :: !HeardAt(arps, k, d, addr)
    ensures forall k: nat :: HeardAt(arps, k, d, addr) && (forall j: nat :: k < j ==> !HeardAt(arps, j, d, addr)) ==>
              LastMac(arps, d, addr) == Some(arps[k].mac)
  {
    if |arps| > 0 {
      var init := arps[..|arps| - 1];
      LastMacHeard(init, d, addr);
      assert forall k: nat :: k < |init| ==> (HeardAt(arps, k, d, addr) <==> HeardAt(init, k, d, addr));
      assert HeardAt(arps, |init|, d, addr) <==> arps[|init|].dev == d && arps[|init|].addr == addr;
    }
  }

  lemma LastMacSnoc(arps: seq<Arp>, a: Arp, d: Dev, addr: Addr)
    ensures LastMac(arps + [a], d, addr) == if a.dev == d && a.addr == addr then Some(a.mac) else LastMac(arps, d, addr)
  {
    assert (arps + [a])[..|arps|] == arps;
  }

  /** A resolved entry after a search: recorded just now, or as it was before except for its time. */
  lemma ResolvedEntry(t: Table, d: int, addr: Addr, mac: Option<Mac>, now: int, j: nat)
    requires GoodTable(t, d)
    requires j < |Search(t, d, addr, mac, now).table.entries|
    requires Search(t, d, addr, mac, now).table.entries[j].flag == Ok
    ensures var e' := Search(t, d, addr, mac, now).table.entries[j];
      && (mac.Some? && e'.addr == addr ==> e'.hwaddr == mac.value)
      && (mac.None? || e'.addr != addr ==>
            && j < |t.entries| && t.entries[j].flag == Ok
            && t.entries[j].addr == e'.addr && t.entries[j].hwaddr == e'.hwaddr)
  {
    SearchSlots(t, d, addr, mac, now);
    SearchSole(t, d, addr, mac, now);
  }

  lemma LookupAgrees(s: State, d: Dev, addr: Addr, mac: Option<Mac>, now: int)
    requires Good(s) && CacheAgrees(s)
    ensures CacheAgrees(Lookup(s, d, addr, mac, now))
  {
    var s' := Lookup(s, d, addr, mac, now);
    forall r: Req ensures KnowsMac(s', r) {
      assert KnowsMac(s, r);
      if s'.HasSlot(r) && s'.At(r).flag == Ok {
        if mac.Some? { LastMacSnoc(s.arps, Arp(d, addr, mac.value), r.dev, s'.At(r).addr); }
        if r.dev == d { ResolvedEntry(s.Table(d), d, addr, mac, now, r.slot); }
      }
    }
  }

  /** Flags, addresses and MACs of all entries are the same, and nothing new has been heard. */
  ghost predicate SameCards(s: State, s': State) {
    s'.arps == s.arps && forall r: Req :: s'.HasSlot(r) ==> s.HasSlot(r) && SameCard(s.At(r), s'.At(r))
  }

  predicate SameCard(e: Entry, e': Entry) { e'.flag == e.flag && e'.addr == e.addr && e'.hwaddr == e.hwaddr }

  lemma SameCardsAgree(s: State, s': State)
    requires CacheAgrees(s) && SameCards(s, s')
    ensures CacheAgrees(s')
  {
    forall q: Req ensures KnowsMac(s', q) { assert KnowsMac(s, q); }
  }

  /** The only frame a hand-over can write leaves at once, with the latest MAC. */
  lemma HandTrueMac(cfg: Config, s: State, r: Req, hop: Addr, frame: Frame)
    requires CacheAgrees(s) && WholeHeader(frame) && s.HasSlot(r) && s.At(r).Live() && s.At(r).addr == hop
    ensures var s' := Hand(cfg, s, r, hop, frame);
      && s'.arps == s.arps && s.sent <= s'.sent
      && forall j :: |s.sent| <= j < |s'.sent| ==> s'.sent[j].direct && TrueMac(s', s'.sent[j])
  {
    assert KnowsMac(s, r);
    assert s.arps[..|s.arps|] == s.arps;
  }

  lemma HandCacheAgrees(cfg: Config, s: State, r: Req, hop: Addr, frame: Frame)
    requires CacheAgrees(s) && WholeHeader(frame) && s.HasSlot(r)
    ensures CacheAgrees(Hand(cfg, s, r, hop, frame))
  {
    SameCardsAgree(s, Hand(cfg, s, r, hop, frame));
  }

  lemma ForwardMacs(cfg: Config, s: State, d: Dev, hop: Addr, frame: Frame, now: int)
    requires Good(s) && CacheAgrees(s) && WholeHeader(frame)
    ensures var s' := RouteTo(cfg, s, d, hop, frame, now);
      && CacheAgrees(s') && s.arps <= s'.arps && s.sent <= s'.sent
      && forall j :: |s.sent| <= j < |s'.sent| ==> TrueMac(s', s'.sent[j])
  {
    var t, q := Lookup(s, d, hop, None, now), Req(d, Search(s.Table(d), d, hop, None, now).slot);
    LookupKeepsGood(s, d, hop, None, now);
    LookupAgrees(s, d, hop, None, now);
    HandTrueMac(cfg, t, q, hop, frame);
    HandCacheAgrees(cfg, t, q, hop, frame);
  }

  /** Whatever an arriving frame causes to be written leaves with the latest MAC, and the cache still agrees. */
  lemma EffectMacs(cfg: Config, s: State, s': State, now: int, f: Effect)
    requires Good(s) && CacheAgrees(s) && HasEffect(cfg, s, s', now, f)
    ensures CacheAgrees(s') && s.arps <= s'.arps && s.sent <= s'.sent
    ensures forall j :: |s.sent| <= j < |s'.sent| ==> TrueMac(s', s'.sent[j])
  {
    match f
    case Nothing => SameCardsAgree(s, s');
    case OnlyLookup(d, addr, mac) => LookupAgrees(s, d, addr, Some(mac), now);
    case LookupAndHand(d, hop, frame) => ForwardMacs(cfg, s, d, hop, frame, now);
  }

  /** The sender thread does not look at the flag: a buffered frame leaves with the current MAC exactly when its
      entry is resolved at that moment, or the current MAC happens to be the all-zero one. */
  lemma BufferedFrameMac(s: State)
    requires Good(s) && Enabled(s, SendFrame) && KnowsMac(s, s.draining.value)
    ensures var e, x := s.At(s.draining.value), SendOne(s).sent[|s.sent|];
      && (TrueMac(SendOne(s), x) <==> e.flag == Ok || LastMac(s.arps, x.dev, x.hop) == Some([0, 0, 0, 0, 0, 0]))
      && (e.flag != Ok ==> x.dst == [0, 0, 0, 0, 0, 0])
  {
    assert GoodEntry(s.At(s.draining.value), s.draining.value.dev);
    assert s.arps[..|s.arps|] == s.arps;
  }

  lemma SendAgrees(s: State)
    requires Good(s) && CacheAgrees(s) && MacsAccountedFor(s) && Enabled(s, SendFrame)
    ensures CacheAgrees(SendOne(s)) && MacsAccountedFor(SendOne(s))
  {
    assert KnowsMac(s, s.draining.value);
    BufferedFrameMac(s);
    SameCardsAgree(s, SendOne(s));
    MoreMacs(s, SendOne(s));
  }

  lemma SameAgrees(s: State, s': State)
    requires CacheAgrees(s) && MacsAccountedFor(s)
    requires s' == s.(origins := s'.origins) || s' == s.(requests := s'.requests, draining := s'.draining)
    ensures CacheAgrees(s') && MacsAccountedFor(s')
  {
    SameCardsAgree(s, s');
    MoreMacs(s, s');
  }

  lemma EffectAgrees(cfg: Config, s: State, s': State, now: int, f: Effect)
    requires Good(s) && CacheAgrees(s) && MacsAccountedFor(s) && HasEffect(cfg, s, s', now, f)
    ensures CacheAgrees(s') && MacsAccountedFor(s')
  {
    EffectMacs(cfg, s, s', now, f);
    MoreMacs(s, s');
  }

  lemma MoreMacs(s: State, s': State)
    requires MacsAccountedFor(s) && s.arps <= s'.arps && s.sent <= s'.sent
    requires forall j :: |s.sent| <= j < |s'.sent| ==> TrueOrZeroMac(s', s'.sent[j])
    ensures MacsAccountedFor(s')
  {
    forall j | 0 <= j < |s'.sent| ensures TrueOrZeroMac(s', s'.sent[j]) {
      if j < |s.sent| {
        var x := s.sent[j];
        assert TrueOrZeroMac(s, x) && s'.arps[..x.known] == s.arps[..x.known];
      }
    }
  }

  lemma StepAgrees(cfg: Config, s: State, ev: Event)
    requires Good(s) && CacheAgrees(s) && MacsAccountedFor(s) && Enabled(s, ev)
    ensures CacheAgrees(Step(cfg, s, ev)) && MacsAccountedFor(Step(cfg, s, ev))
  {
    match ev
    case Arrival(dev, buf, size, now) =>
      var f := ArrivalEffect(cfg, s, dev, buf, size, now);
      EffectAgrees(cfg, s, Step(cfg, s, ev), now, f);
    case PopRequest => SameAgrees(s, Step(cfg, s, ev));
    case SendFrame => SendAgrees(s);
    case FindEmpty => SameAgrees(s, Step(cfg, s, ev));
  }

  // ----- runs in which no slot is given up while the sender still has to drain it -----

  /** The slot no longer holds the live entry it held. */
  predicate GivenUp(s: State, s': State, r: Req) {
    s.HasSlot(r) && s.At(r).Live() && !(s'.HasSlot(r) && s'.At(r).Live() && s'.At(r).addr == s.At(r).addr)
  }

  ghost predicate CalmStep(s: State, s': State) { forall r: Req :: Pending(s, r) ==> !GivenUp(s, s', r) }

  predicate PendingResolved(s: State, r: Req) { Pending(s, r) ==> s.HasSlot(r) && s.At(r).flag == Ok }

  ghost predicate AllPendingResolved(s: State) { forall r: Req :: PendingResolved(s, r) }

  ghost predicate AllMacsTrue(s: State) { forall j :: 0 <= j < |s.sent| ==> TrueMac(s, s.sent[j]) }

  lemma StillResolved(t: Table, d: int, addr: Addr, mac: Option<Mac>, now: int, j: nat)
    requires GoodTable(t, d) && j < |t.entries| && t.entries[j].flag == Ok
    requires var e' := Search(t, d, addr, mac, now).table.entries;
      j < |e'| && e'[j].Live() && e'[j].addr == t.entries[j].addr
    ensures Search(t, d, addr, mac, now).table.entries[j].flag == Ok
  {
    SearchSlots(t, d, addr, mac, now);
  }

  lemma LookupPending(s: State, d: Dev, addr: Addr, mac: Option<Mac>, now: int)
    requires Good(s) && AllPendingResolved(s) && CalmStep(s, Lookup(s, d, addr, mac, now))
    ensures AllPendingResolved(Lookup(s, d, addr, mac, now))
  {
    var s' := Lookup(s, d, addr, mac, now);
    FoundSlot(s.Table(d), d, addr, mac, now);
    forall r: Req ensures PendingResolved(s', r) {
      assert PendingResolved(s, r);
      if Pending(s, r) {
        assert !GivenUp(s, s', r);
        PendingStaysResolved(s, d, addr, mac, now, r);
      } else if Pending(s', r) {
        WakesResolved(s.Table(d), d, addr, mac, now);
      }
    }
  }

  lemma PendingStaysResolved(s: State, d: Dev, addr: Addr, mac: Option<Mac>, now: int, r: Req)
    requires Good(s) && s.HasSlot(r) && s.At(r).flag == Ok && !GivenUp(s, Lookup(s, d, addr, mac, now), r)
    ensures Lookup(s, d, addr, mac, now).HasSlot(r) && Lookup(s, d, addr, mac, now).At(r).flag == Ok
  {
    if r.dev == d { StillResolved(s.Table(d), d, addr, mac, now, r.slot); }
  }

  lemma WakesResolved(t: Table, d: int, addr: Addr, mac: Option<Mac>, now: int)
    requires GoodTable(t, d)
    ensures var r := Search(t, d, addr, mac, now); r.wake ==> r.table.entries[r.slot].flag == Ok
  {
    SearchSlots(t, d, addr, mac, now);
  }

  lemma TrueMacsKept(s: State, s': State)
    requires AllMacsTrue(s) && s.arps <= s'.arps && s.sent <= s'.sent
    requires forall j :: |s.sent| <= j < |s'.sent| ==> TrueMac(s', s'.sent[j])
    ensures AllMacsTrue(s')
  {
    forall j | 0 <= j < |s'.sent| ensures TrueMac(s', s'.sent[j]) {
      if j < |s.sent| {
        var x := s.sent[j];
        assert TrueMac(s, x) && s'.arps[..x.known] == s.arps[..x.known];
      }
    }
  }

  lemma HandKeepsEntries(cfg: Config, s: State, r: Req, hop: Addr, frame: Frame, q: Req)
    requires WholeHeader(frame) && s.HasSlot(r)
    ensures var s' := Hand(cfg, s, r, hop, frame);
      && s'.requests == s.requests && s'.draining == s.draining && (s'.HasSlot(q) <==> s.HasSlot(q))
      && (s.HasSlot(q) ==> s'.At(q).flag == s.At(q).flag && s'.At(q).addr == s.At(q).addr)
  {
  }

  /** What the hand-over gives up was given up by the lookup before it. */
  lemma CalmBeforeHand(cfg: Config, s: State, t: State, q: Req, hop: Addr, frame: Frame)
    requires WholeHeader(frame) && t.HasSlot(q) && CalmStep(s, Hand(cfg, t, q, hop, frame))
    ensures CalmStep(s, t)
  {
    forall r: Req | Pending(s, r) ensures !GivenUp(s, t, r) {
      HandKeepsEntries(cfg, t, q, hop, frame, r);
      assert !GivenUp(s, Hand(cfg, t, q, hop, frame), r);
    }
  }

  lemma HandPending(cfg: Config, t: State, q: Req, hop: Addr, frame: Frame)
    requires WholeHeader(frame) && t.HasSlot(q) && AllPendingResolved(t)
    ensures AllPendingResolved(Hand(cfg, t, q, hop, frame))
  {
    forall r: Req ensures PendingResolved(Hand(cfg, t, q, hop, frame), r) {
      HandKeepsEntries(cfg, t, q, hop, frame, r);
      assert PendingResolved(t, r);
    }
  }

  lemma ForwardPending(cfg: Config, s: State, d: Dev, hop: Addr, frame: Frame, now: int)
    requires Good(s) && WholeHeader(frame)
    requires AllPendingResolved(s) && CalmStep(s, RouteTo(cfg, s, d, hop, frame, now))
    ensures AllPendingResolved(RouteTo(cfg, s, d, hop, frame, now))
  {
    var t, q := Lookup(s, d, hop, None, now), Req(d, Search(s.Table(d), d, hop, None, now).slot);
    CalmBeforeHand(cfg, s, t, q, hop, frame);
    LookupPending(s, d, hop, None, now);
    HandPending(cfg, t, q, hop, frame);
  }

  lemma SamePending(s: State, s': State)
    requires AllPendingResolved(s)
    requires forall r: Req :: Pending(s', r) ==> Pending(s, r)
    requires forall r: Req :: s.HasSlot(r) ==> s'.HasSlot(r) && s'.At(r).flag == s.At(r).flag
    ensures AllPendingResolved(s')
  {
    forall r: Req ensures PendingResolved(s', r) { assert PendingResolved(s, r); }
  }

  lemma EffectPending(cfg: Config, s: State, s': State, now: int, f: Effect)
    requires Good(s) && HasEffect(cfg, s, s', now, f) && AllPendingResolved(s) && CalmStep(s, s')
    ensures AllPendingResolved(s')
  {
    match f
    case Nothing => SamePending(s, s');
    case OnlyLookup(d, addr, mac) => LookupPending(s, d, addr, Some(mac), now);
    case LookupAndHand(d, hop, frame) => ForwardPending(cfg, s, d, hop, frame, now);
  }

  lemma CalmSend(s: State)
    requires Good(s) && CacheAgrees(s) && Enabled(s, SendFrame)
    requires AllPendingResolved(s) && AllMacsTrue(s)
    ensures AllPendingResolved(SendOne(s)) && AllMacsTrue(SendOne(s))
  {
    assert PendingResolved(s, s.draining.value) && KnowsMac(s, s.draining.value);
    BufferedFrameMac(s);
    TrueMacsKept(s, SendOne(s));
    SamePending(s, SendOne(s));
  }

  lemma CalmStepKeeps(cfg: Config, s: State, ev: Event)
    requires Good(s) && CacheAgrees(s) && Enabled(s, ev)
    requires AllPendingResolved(s) && AllMacsTrue(s) && CalmStep(s, Step(cfg, s, ev))
    ensures AllPendingResolved(Step(cfg, s, ev)) && AllMacsTrue(Step(cfg, s, ev))
  {
    var s' := Step(cfg, s, ev);
    match ev
    case Arrival(dev, buf, size, now) =>
      var f := ArrivalEffect(cfg, s, dev, buf, size, now);
      EffectPending(cfg, s, s', now, f);
      EffectMacs(cfg, s, s', now, f);
      TrueMacsKept(s, s');
    case PopRequest =>
      TrueMacsKept(s, s');
      SamePending(s, s');
    case SendFrame => CalmSend(s);
    case FindEmpty =>
      TrueMacsKept(s, s');
      SamePending(s, s');
  }
}
