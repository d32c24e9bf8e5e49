/** Whatever the order, no interleaving of the two threads loses or doubles a frame. */
module Lossless {
  import opened Bytes
  import opened Frames
  import opened Cache
  import opened RouterSystem
  import opened Structure
  import opened Delivery
  import opened Wakeup
  import opened Splits
  import opened Overtaking

  /** `log` lists what was written or taken in the order in which it left its queue or bypassed it: the account of the
      next hop balances in that order, and the frames are those that it has got or that are in hand for it. */
  predicate Accounts(p: Split, log: seq<Sent>, d: Dev, hop: Addr) {
    && Balanced(p.s.(sent := log), d, hop)
    && multiset(SentTo(log, d, hop)) == multiset(Outgoing(p, d, hop))
  }

  lemma AccountsSame(p: Split, q: Split, log: seq<Sent>, d: Dev, hop: Addr)
    requires Accounts(p, log, d, hop) && Outgoing(q, d, hop) == Outgoing(p, d, hop)
    requires Balanced(q.s.(sent := log), d, hop)
    ensures Accounts(q, log, d, hop)
  {
  }

  lemma AccountsMore(p: Split, q: Split, log: seq<Sent>, log': seq<Sent>, added: seq<nat>, d: Dev, hop: Addr)
    requires Accounts(p, log, d, hop) && Balanced(q.s.(sent := log'), d, hop)
    requires SentTo(log', d, hop) == SentTo(log, d, hop) + added
    requires || Outgoing(q, d, hop) == Outgoing(p, d, hop) + added
             || Outgoing(q, d, hop) == SentTo(p.s.sent, d, hop) + added + InHand(p, d, hop)
    ensures Accounts(q, log', d, hop)
  {
  }

  lemma EffectAccounts(cfg: Config, p: Split, s': State, now: int, f: Effect, log: seq<Sent>, d: Dev, hop: Addr)
    returns (log': seq<Sent>)
    requires Sound(cfg, p) && Accounts(p, log, d, hop) && HasEffect(cfg, p.s, s', now, f)
    ensures Accounts(p.(s := s'), log', d, hop)
  {
    log' := log;
    match f
    case Nothing =>
    case OnlyLookup(d', addr, mac) => LookupAccounts(p, log, d', addr, Some(mac), now, d, hop);
    case LookupAndHand(d', h, frame) =>
      var t, r := Lookup(p.s, d', h, None, now), SlotFound(p.s, d', h, now);
      LookupAccounts(p, log, d', h, None, now, d, hop);
      LookupKeepsGood(p.s, d', h, None, now);
      LookupSound(p.s, d', h, None, now);
      log' := HandAccounts(cfg, p.(s := t), log, r, h, frame, d, hop);
  }

  lemma LookupAccounts(p: Split, log: seq<Sent>, d': Dev, addr: Addr, mac: Option<Mac>, now: int, d: Dev, hop: Addr)
    requires Good(p.s) && Labelled(p.s) && Accounts(p, log, d, hop)
    ensures Accounts(p.(s := Lookup(p.s, d', addr, mac, now)), log, d, hop)
  {
    var t := Lookup(p.s, d', addr, mac, now);
    var w' := LookupOnLog(p.s, p.s.(sent := log), d', addr, mac, now, d, hop);
    assert t.(sent := log) == w';
    AccountsSame(p, p.(s := t), log, d, hop);
  }

  lemma HandAccounts(cfg: Config, p: Split, log: seq<Sent>, r: Req, h: Addr, frame: Frame, d: Dev, hop: Addr)
    returns (log': seq<Sent>)
    requires Good(p.s) && DroppedKnown(p.s) && WholeHeader(frame) && Accounts(p, log, d, hop)
    requires p.s.HasSlot(r) && p.s.At(r).Live() && p.s.At(r).addr == h
    ensures Accounts(p.(s := Hand(cfg, p.s, r, h, frame)), log', d, hop)
  {
    var t := Hand(cfg, p.s, r, h, frame);
    var w', added := HandOnLog(cfg, p.s, p.s.(sent := log), r, h, frame, d, hop);
    var _ := HandSends(cfg, p.s, r, h, frame, d, hop);
    log' := w'.sent;
    assert t.(sent := log') == w';
    AccountsMore(p, p.(s := t), log, log', added, d, hop);
  }

  lemma HeadAccounts(p: Split, q: Split, log: seq<Sent>, r: Req, x: Sent, added: seq<nat>, d: Dev, hop: Addr)
    requires Good(p.s) && Accounts(p, log, d, hop) && p.s.HasSlot(r) && p.s.At(r).queue != []
    requires q.s.Table(d) == p.s.WithEntry(r, Get(p.s.At(r))).Table(d)
    requires q.s.handed == p.s.handed && q.s.dropped == p.s.dropped
    requires x.id == p.s.At(r).queue[0].id && x.dev == r.dev && x.hop == p.s.At(r).addr
    requires added == if x.dev == d && x.hop == hop then [x.id] else []
    requires Outgoing(q, d, hop) == Outgoing(p, d, hop) + added
    ensures Accounts(q, log + [x], d, hop)
  {
    SentSnoc(log, x, d, hop);
    HeadBalance(p.s, q.s, log, r, x, d, hop);
    AccountsMore(p, q, log, log + [x], added, d, hop);
  }

  lemma HeadBalance(s: State, s': State, log: seq<Sent>, r: Req, x: Sent, d: Dev, hop: Addr)
    requires Good(s) && Balanced(s.(sent := log), d, hop) && s.HasSlot(r) && s.At(r).queue != []
    requires s'.Table(d) == s.WithEntry(r, Get(s.At(r))).Table(d)
    requires s'.handed == s.handed && s'.dropped == s.dropped
    requires x.id == s.At(r).queue[0].id && x.dev == r.dev && x.hop == s.At(r).addr
    ensures Balanced(s'.(sent := log + [x]), d, hop)
  {
    HeadWritten(s.(sent := log), r, x, s'.(sent := log + [x]), d, hop);
  }

  /** What the sender thread writes is the head of the slot's queue. */
  lemma SentIsHead(s: State) returns (x: Sent)
    requires Enabled(s, SendFrame)
    ensures var r, s' := s.draining.value, SendOne(s);
      && s' == s.WithEntry(r, Get(s.At(r))).(sent := s.sent + [x]) && s'.handed == s.handed && s'.dropped == s.dropped
      && x.id == s.At(r).queue[0].id && x.dev == r.dev && x.hop == s.At(r).addr
  {
    x := SendOne(s).sent[|s.sent|];
  }

  lemma NothingInHand(p: Split, q: Split, x: Sent, added: seq<nat>, d: Dev, hop: Addr)
    requires p.held == None && q.held == None && q.s.sent == p.s.sent + [x]
    requires added == if x.dev == d && x.hop == hop then [x.id] else []
    ensures Outgoing(q, d, hop) == Outgoing(p, d, hop) + added
  {
    SentSnoc(p.s.sent, x, d, hop);
    assert Outgoing(p, d, hop) == SentTo(p.s.sent, d, hop) && Outgoing(q, d, hop) == SentTo(q.s.sent, d, hop);
  }

  lemma SendAccounts(cfg: Config, p: Split, log: seq<Sent>, d: Dev, hop: Addr) returns (log': seq<Sent>)
    requires Sound(cfg, p) && Possible(cfg, p, Whole(SendFrame)) && Accounts(p, log, d, hop)
    ensures Accounts(p.(s := SendOne(p.s)), log', d, hop)
  {
    var x := SentIsHead(p.s);
    var q, added := p.(s := SendOne(p.s)), if x.dev == d && x.hop == hop then [x.id] else [];
    NothingInHand(p, q, x, added, d, hop);
    HeadAccounts(p, q, log, p.s.draining.value, x, added, d, hop);
    log' := log + [x];
  }

  lemma SenderAccounts(cfg: Config, p: Split, ev: Event, log: seq<Sent>, d: Dev, hop: Addr) returns (log': seq<Sent>)
    requires Sound(cfg, p) && SenderEvent(ev) && Possible(cfg, p, Whole(ev)) && Accounts(p, log, d, hop)
    ensures Accounts(SplitStep(cfg, p, Whole(ev)), log', d, hop)
  {
    log' := log;
    if ev == SendFrame { log' := SendAccounts(cfg, p, log, d, hop); }
  }

  lemma TakeAccounts(cfg: Config, p: Split, log: seq<Sent>, d: Dev, hop: Addr) returns (log': seq<Sent>)
    requires Sound(cfg, p) && Possible(cfg, p, Take) && Accounts(p, log, d, hop)
    ensures Accounts(SplitStep(cfg, p, Take), log', d, hop)
  {
    var q, r := SplitStep(cfg, p, Take), p.s.draining.value;
    TakenIsHead(cfg, p);
    var h := q.held.value;
    var x := Sent(h.item.id, h.slot.dev, h.hop, ZERO_MAC, false, 0, []);
    var added := TakeGrows(p, q, d, hop);
    HeadAccounts(p, q, log, r, x, added, d, hop);
    log' := log + [x];
  }

  lemma BufferAccounts(p: Split, q: Split, log: seq<Sent>, l: Late, d: Dev, hop: Addr)
    requires Good(p.s) && DroppedKnown(p.s) && Accounts(p, log, d, hop)
    requires p.s.HasSlot(l.slot) && p.s.At(l.slot).Live() && p.s.At(l.slot).addr == l.hop
    requires q.s == Buffer(p.s, l) && q.held == p.held
    ensures Accounts(q, log, d, hop)
  {
    BufferBalance(p.s.(sent := log), l, d, hop);
    BufferIgnoresSent(p.s, log, l);
  }

  lemma StepAccounts(cfg: Config, p: Split, ev: SplitEvent, log: seq<Sent>, d: Dev, hop: Addr) returns (log': seq<Sent>)
    requires Sound(cfg, p) && Possible(cfg, p, ev) && Accounts(p, log, d, hop)
    ensures Accounts(SplitStep(cfg, p, ev), log', d, hop)
  {
    log' := log;
    match ev
    case Whole(e) =>
      if e.Arrival? {
        var f := ArrivalEffect(cfg, p.s, e.dev, e.buf, e.size, e.now);
        log' := EffectAccounts(cfg, p, Step(cfg, p.s, e), e.now, f, log, d, hop);
      } else {
        log' := SenderAccounts(cfg, p, e, log, d, hop);
      }
    case Guard(dev, buf, size, now) =>
      var f := EffectOf(cfg, dev, buf, size);
      LookupAccounts(p, log, f.d, f.hop, None, now, d, hop);
    case AppendLate => BufferAccounts(p, SplitStep(cfg, p, ev), log, p.late.value, d, hop);
    case Take => log' := TakeAccounts(cfg, p, log, d, hop);
    case ReadMac =>
    case Write =>
      WriteGrows(p, SplitStep(cfg, p, ev), SplitStep(cfg, p, ev).s.sent[|p.s.sent|], d, hop);
      AccountsSame(p, SplitStep(cfg, p, ev), log, d, hop);
  }

  lemma {:induction false} RunAccounts(cfg: Config, evs: seq<SplitEvent>, d: Dev, hop: Addr) returns (log: seq<Sent>)
    requires SplitRun(cfg, evs).Some?
    ensures Accounts(SplitRun(cfg, evs).value, log, d, hop)
  {
    log := [];
    if |evs| > 0 {
      var before := evs[..|evs| - 1];
      log := RunAccounts(cfg, before, d, hop);
      SplitRunSound(cfg, before);
      log := StepAccounts(cfg, SplitRun(cfg, before).value, evs[|evs| - 1], log, d, hop);
    }
  }

  /** However the threads interleave, overtaken or forgotten: of the frames handed over for a next hop and not dropped,
      every one, and nothing else, is written, in hand or waiting, once. */
  lemma NothingLostOrDoubled(cfg: Config, evs: seq<SplitEvent>, d: Dev, hop: Addr)
    requires SplitRun(cfg, evs).Some?
    ensures var p := SplitRun(cfg, evs).value;
      multiset(SentTo(p.s.sent, d, hop)) + multiset(InHand(p, d, hop)) + multiset(Waiting(p.s.Table(d), hop))
        == multiset(Survivors(p.s.handed, p.s.dropped, d, hop))
  {
    var p := SplitRun(cfg, evs).value;
    var log := RunAccounts(cfg, evs, d, hop);
    assert SentTo(log, d, hop) + Waiting(p.s.Table(d), hop) == Survivors(p.s.handed, p.s.dropped, d, hop);
  }
}
