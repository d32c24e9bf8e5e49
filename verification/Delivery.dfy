/** Per-neighbour order and conservation of frames. */
module Delivery {
  import opened Bytes
  import opened Frames
  import opened Cache
  import opened RouterSystem
  import opened Structure

  // ----- who waits, who was sent, who should be one of the two -----

  function IdSeq(q: seq<Item>): (ids: seq<nat>) {
    seq(|q|, k requires 0 <= k < |q| => q[k].id)
  }

  function Find(es: seq<Entry>, hop: Addr, i: nat): (f: nat)
    requires i <= |es|
    ensures i <= f <= |es|
    ensures forall j :: i <= j < f ==> !(es[j].Live() && es[j].addr == hop)
    ensures f < |es| ==> es[f].Live() && es[f].addr == hop
    decreases |es| - i
  {
    if i == |es| || (es[i].Live() && es[i].addr == hop) then i else Find(es, hop, i + 1)
  }

  /** The frames waiting for a next hop, oldest first. */
  function Waiting(t: Table, hop: Addr): seq<nat> {
    var i := Find(t.entries, hop, 0);
    if i < |t.entries| then IdSeq(t.entries[i].queue) else []
  }

  /** The frames written for a next hop, in the order of writing. */
  function SentTo(sent: seq<Sent>, d: Dev, hop: Addr): seq<nat> {
    if |sent| == 0 then []
    else
      var x := sent[|sent| - 1];
      SentTo(sent[..|sent| - 1], d, hop) + if x.dev == d && x.hop == hop then [x.id] else []
  }

  /** The frames handed over for a next hop, in that order, leaving out those that were dropped. */
  function Survivors(handed: seq<Handed>, dropped: set<nat>, d: Dev, hop: Addr): seq<nat> {
    if |handed| == 0 then []
    else
      var n := |handed| - 1;
      Survivors(handed[..n], dropped, d, hop)
        + if handed[n].dev == d && handed[n].hop == hop && n !in dropped then [n] else []
  }

  /** The account of one next hop balances: what was written, followed by what still waits, is exactly what was
      handed over and not dropped, in the same order. */
  predicate Balanced(s: State, d: Dev, hop: Addr) {
    SentTo(s.sent, d, hop) + Waiting(s.Table(d), hop) == Survivors(s.handed, s.dropped, d, hop)
  }

  ghost predicate Ledger(s: State) { forall d: Dev, hop: Addr :: Balanced(s, d, hop) }

  predicate GoodLabel(s: State, r: Req, k: nat)
    requires s.HasSlot(r) && k < |s.At(r).queue|
  {
    var x := s.At(r).queue[k];
    x.id < |s.handed| && s.handed[x.id] == Handed(r.dev, s.At(r).addr, x.frame)
  }

  /** Every waiting frame is the handed frame its rank says, for the device and address of its entry. */
  ghost predicate Labelled(s: State) {
    forall r: Req, k :: s.HasSlot(r) && 0 <= k < |s.At(r).queue| ==> GoodLabel(s, r, k)
  }

  /** What leaves is the handed frame, rewritten for its next hop and nothing else. */
  predicate SentOf(cfg: Config, h: Handed, x: Sent) {
    && h.dev == x.dev && h.hop == x.hop && WholeHeader(h.frame)
    && x.bytes == if x.direct then Direct(h.frame, x.dst, cfg.Device(x.dev).hwaddr) else Buffered(h.frame, x.dst)
  }

  predicate GoodSent(cfg: Config, s: State, x: Sent) {
    x.id < |s.handed| && SentOf(cfg, s.handed[x.id], x)
  }

  predicate GoodRecords(cfg: Config, s: State) {
    && (forall j :: 0 <= j < |s.sent| ==> GoodSent(cfg, s, s.sent[j]))
    && (forall id :: id in s.dropped ==> id < |s.handed|)
    && AllWellHanded(cfg, s.handed)
  }

  predicate AllWellHanded(cfg: Config, handed: seq<Handed>) {
    forall id :: 0 <= id < |handed| ==> WellHanded(cfg, handed[id])
  }

  /** Handed over for the next hop that its destination asks for. */
  predicate WellHanded(cfg: Config, h: Handed) {
    ToForward(h.frame) && NextHop(cfg, h.dev, h.frame[30..34]) == Some(h.hop)
  }

  /** Only accepted frames with time to live to spare are ever handed over. */
  predicate ToForward(frame: Frame) { WholeHeader(frame) && Decide(frame) == RoutedOn }

  ghost predicate Delivered(cfg: Config, s: State) { Labelled(s) && GoodRecords(cfg, s) && Ledger(s) }

  // ----- sequences of ranks -----

  function Without(xs: seq<nat>, gone: set<nat>): seq<nat> {
    if |xs| == 0 then []
    else Without(xs[..|xs| - 1], gone) + if xs[|xs| - 1] in gone then [] else [xs[|xs| - 1]]
  }

  lemma {:induction false} WithoutNone(xs: seq<nat>, gone: set<nat>)
    requires forall k :: 0 <= k < |xs| ==> xs[k] !in gone
    ensures Without(xs, gone) == xs
  {
    if |xs| > 0 { WithoutNone(xs[..|xs| - 1], gone); }
  }

  lemma {:induction false} WithoutAll(xs: seq<nat>, ys: seq<nat>, gone: set<nat>)
    requires forall k :: 0 <= k < |xs| ==> xs[k] !in gone
    requires forall k :: 0 <= k < |ys| ==> ys[k] in gone
    ensures Without(xs + ys, gone) == xs
  {
    if |ys| == 0 {
      assert xs + ys == xs;
      WithoutNone(xs, gone);
    } else {
      WithoutAll(xs, ys[..|ys| - 1], gone);
      assert (xs + ys)[..|xs + ys| - 1] == xs + ys[..|ys| - 1];
    }
  }

  lemma {:induction false} SurvivorsWithout(handed: seq<Handed>, dropped: set<nat>, gone: set<nat>, d: Dev, hop: Addr)
    ensures Survivors(handed, dropped + gone, d, hop) == Without(Survivors(handed, dropped, d, hop), gone)
  {
    if |handed| > 0 {
      var n := |handed| - 1;
      SurvivorsWithout(handed[..n], dropped, gone, d, hop);
      var rest := Survivors(handed[..n], dropped, d, hop);
      if handed[n].dev == d && handed[n].hop == hop && n !in dropped {
        assert (rest + [n])[..|rest|] == rest;
      } else {
        assert rest + [] == rest;
      }
    }
  }

  /** The survivors are exactly the undropped frames of that next hop, each once, by increasing rank. */
  lemma {:induction false} SurvivorsExact(handed: seq<Handed>, dropped: set<nat>, d: Dev, hop: Addr)
    ensures var v := Survivors(handed, dropped, d, hop);
      && (forall a, b :: 0 <= a < b < |v| ==> v[a] < v[b])
      && (forall a :: 0 <= a < |v| ==> v[a] < |handed|)
      && (forall id :: 0 <= id < |handed| ==>
            (id in v <==> handed[id].dev == d && handed[id].hop == hop && id !in dropped))
  {
    if |handed| > 0 { SurvivorsExact(handed[..|handed| - 1], dropped, d, hop); }
  }

  // ----- lookup -----

  lemma FindIs(es: seq<Entry>, i: nat)
    requires UniqueLive(es) && i < |es| && es[i].Live()
    ensures Find(es, es[i].addr, 0) == i
  {
  }

  lemma WaitingAfterSearch(t: Table, d: int, addr: Addr, mac: Option<Mac>, now: int, hop: Addr)
    requires GoodTable(t, d)
    ensures var i := Find(t.entries, hop, 0);
      Waiting(Search(t, d, addr, mac, now).table, hop)
        == if i < |t.entries| && Evicts(t, addr, mac, now, i) then [] else Waiting(t, hop)
  {
    var es' := Search(t, d, addr, mac, now).table.entries;
    var i := Find(t.entries, hop, 0);
    SearchQueues(t, d, addr, mac, now);
    SearchKeepsUnique(t, d, addr, mac, now);
    OwnersAfterSearch(t, d, addr, mac, now);
    WaitingTransfer(t.entries, es', hop, !(i < |t.entries| && Evicts(t, addr, mac, now, i)));
  }

  lemma OwnersAfterSearch(t: Table, d: int, addr: Addr, mac: Option<Mac>, now: int)
    requires GoodTable(t, d)
    ensures var es' := Search(t, d, addr, mac, now).table.entries;
      forall j :: 0 <= j < |es'| && es'[j].queue != [] ==> SameOwner(t.entries, es', j)
  {
    var es' := Search(t, d, addr, mac, now).table.entries;
    forall j | 0 <= j < |es'| && es'[j].queue != [] ensures SameOwner(t.entries, es', j) {
      SearchAddsNoFrames(t, d, addr, mac, now, j);
    }
  }

  predicate SameOwner(es: seq<Entry>, es': seq<Entry>, j: nat) {
    && j < |es| && j < |es'|
    && es[j].Live() && es'[j].Live() && es'[j].addr == es[j].addr && es'[j].queue == es[j].queue
  }

  lemma WaitingTransfer(es: seq<Entry>, es': seq<Entry>, hop: Addr, kept: bool)
    requires UniqueLive(es) && UniqueLive(es') && |es| <= |es'|
    requires forall j :: 0 <= j < |es'| && es'[j].queue != [] ==> SameOwner(es, es', j)
    requires var i := Find(es, hop, 0); i < |es| ==> es'[i].queue == if kept then es[i].queue else []
    ensures Waiting(Table(es', 0), hop) == if kept then Waiting(Table(es, 0), hop) else []
  {
    var i, j := Find(es, hop, 0), Find(es', hop, 0);
    if j < |es'| && es'[j].queue != [] {
      assert SameOwner(es, es', j);
      FindIs(es, j);
    }
  }

  lemma EvictedLabel(s: State, d: Dev, addr: Addr, mac: Option<Mac>, now: int, id: nat)
    requires Good(s) && Labelled(s) && id in Evicted(s.Table(d), addr, mac, now)
    ensures id < |s.handed| && s.handed[id].dev == d
    ensures var i := Find(s.Table(d).entries, s.handed[id].hop, 0);
      i < |s.Table(d).entries| && Evicts(s.Table(d), addr, mac, now, i)
  {
    var t := s.Table(d);
    var i, k :| 0 <= i < |t.entries| && Evicts(t, addr, mac, now, i) && 0 <= k < |t.entries[i].queue|
      && t.entries[i].queue[k].id == id;
    assert GoodLabel(s, Req(d, i), k);
    FindIs(t.entries, i);
  }

  lemma EvictedQueue(t: Table, addr: Addr, mac: Option<Mac>, now: int, i: nat)
    requires i < |t.entries| && Evicts(t, addr, mac, now, i)
    ensures forall k :: 0 <= k < |t.entries[i].queue| ==> t.entries[i].queue[k].id in Evicted(t, addr, mac, now)
  {
  }

  /** Nothing in the account of a next hop whose entry is not evicted is thrown away. */
  lemma KeptAccount(s: State, d: Dev, addr: Addr, mac: Option<Mac>, now: int, d': Dev, hop: Addr)
    requires Good(s) && Labelled(s) && Balanced(s, d', hop)
    requires var i := Find(s.Table(d).entries, hop, 0);
      d' != d || i == |s.Table(d).entries| || !Evicts(s.Table(d), addr, mac, now, i)
    ensures Without(Survivors(s.handed, s.dropped, d', hop), Evicted(s.Table(d), addr, mac, now))
         == Survivors(s.handed, s.dropped, d', hop)
  {
    var v, gone := Survivors(s.handed, s.dropped, d', hop), Evicted(s.Table(d), addr, mac, now);
    SurvivorsExact(s.handed, s.dropped, d', hop);
    forall k | 0 <= k < |v| ensures v[k] !in gone {
      if v[k] in gone {
        assert v[k] in v;
        EvictedLabel(s, d, addr, mac, now, v[k]);
      }
    }
    WithoutNone(v, gone);
  }

  /** The account of an evicted entry loses exactly its waiting part. */
  lemma EvictedAccount(s: State, d: Dev, addr: Addr, mac: Option<Mac>, now: int, hop: Addr)
    requires Good(s) && Labelled(s) && Balanced(s, d, hop)
    requires var i := Find(s.Table(d).entries, hop, 0);
      i < |s.Table(d).entries| && Evicts(s.Table(d), addr, mac, now, i)
    ensures Without(Survivors(s.handed, s.dropped, d, hop), Evicted(s.Table(d), addr, mac, now))
         == SentTo(s.sent, d, hop)
  {
    var out, gone := SentTo(s.sent, d, hop), Evicted(s.Table(d), addr, mac, now);
    EvictedQueue(s.Table(d), addr, mac, now, Find(s.Table(d).entries, hop, 0));
    forall k | 0 <= k < |out| ensures out[k] !in gone {
      SentNotWaiting(s, d, addr, mac, now, hop, k);
    }
    WithoutAll(out, Waiting(s.Table(d), hop), gone);
  }

  lemma LookupBalance(s: State, d: Dev, addr: Addr, mac: Option<Mac>, now: int, d': Dev, hop: Addr)
    requires Good(s) && Labelled(s) && Balanced(s, d', hop)
    ensures Balanced(Lookup(s, d, addr, mac, now), d', hop)
  {
    var t := s.Table(d);
    var i := Find(t.entries, hop, 0);
    SurvivorsWithout(s.handed, s.dropped, Evicted(t, addr, mac, now), d', hop);
    WaitingAfterSearch(t, d, addr, mac, now, hop);
    if d' == d && i < |t.entries| && Evicts(t, addr, mac, now, i) {
      EvictedAccount(s, d, addr, mac, now, hop);
      assert SentTo(s.sent, d, hop) + [] == SentTo(s.sent, d, hop);
    } else {
      KeptAccount(s, d, addr, mac, now, d', hop);
    }
  }

  /** A frame already written is not among those an eviction throws away. */
  lemma SentNotWaiting(s: State, d: Dev, addr: Addr, mac: Option<Mac>, now: int, hop: Addr, k: nat)
    requires Good(s) && Labelled(s) && Balanced(s, d, hop) && k < |SentTo(s.sent, d, hop)|
    ensures SentTo(s.sent, d, hop)[k] !in Evicted(s.Table(d), addr, mac, now)
  {
    var t, out, wait := s.Table(d), SentTo(s.sent, d, hop), Waiting(s.Table(d), hop);
    var id := out[k];
    SurvivorsExact(s.handed, s.dropped, d, hop);
    assert (out + wait)[k] == id && id in Survivors(s.handed, s.dropped, d, hop);
    forall i, m | 0 <= i < |t.entries| && Evicts(t, addr, mac, now, i) && 0 <= m < |t.entries[i].queue|
      ensures t.entries[i].queue[m].id != id
    {
      assert GoodLabel(s, Req(d, i), m);
      FindIs(t.entries, i);
      if t.entries[i].addr == hop { assert (out + wait)[|out| + m] == t.entries[i].queue[m].id; }
    }
  }

  lemma LookupLabels(s: State, d: Dev, addr: Addr, mac: Option<Mac>, now: int)
    requires Good(s) && Labelled(s)
    ensures Labelled(Lookup(s, d, addr, mac, now))
  {
    var s' := Lookup(s, d, addr, mac, now);
    forall r: Req, k | s'.HasSlot(r) && 0 <= k < |s'.At(r).queue| ensures GoodLabel(s', r, k) {
      if r.dev == d { SearchAddsNoFrames(s.Table(d), d, addr, mac, now, r.slot); }
      assert GoodLabel(s, r, k);
    }
  }

  lemma LookupDelivered(cfg: Config, s: State, d: Dev, addr: Addr, mac: Option<Mac>, now: int)
    requires Good(s) && Delivered(cfg, s)
    ensures Delivered(cfg, Lookup(s, d, addr, mac, now))
  {
    var s' := Lookup(s, d, addr, mac, now);
    LookupLabels(s, d, addr, mac, now);
    forall d': Dev, hop: Addr ensures Balanced(s', d', hop) {
      assert Balanced(s, d', hop);
      LookupBalance(s, d, addr, mac, now, d', hop);
    }
    forall id | id in s'.dropped ensures id < |s'.handed| {
      if id !in s.dropped { EvictedLabel(s, d, addr, mac, now, id); }
    }
    forall j | 0 <= j < |s'.sent| ensures GoodSent(cfg, s', s'.sent[j]) {
      assert GoodSent(cfg, s, s.sent[j]);
    }
  }

  // ----- hand-over and sending -----

  lemma FindUpdate(es: seq<Entry>, i: nat, e: Entry, hop: Addr, from: nat)
    requires from <= |es| && i < |es| && e.flag == es[i].flag && e.addr == es[i].addr
    ensures Find(es[i := e], hop, from) == Find(es, hop, from)
    decreases |es| - from
  {
    if from < |es| { FindUpdate(es, i, e, hop, from + 1); }
  }

  lemma WaitingUpdate(t: Table, d: int, i: nat, e: Entry, hop: Addr)
    requires GoodTable(t, d) && i < |t.entries| && t.entries[i].Live()
    requires e.flag == t.entries[i].flag && e.addr == t.entries[i].addr
    ensures Waiting(t.(entries := t.entries[i := e]), hop)
         == if hop == e.addr then IdSeq(e.queue) else Waiting(t, hop)
    ensures Waiting(t, e.addr) == IdSeq(t.entries[i].queue)
  {
    FindUpdate(t.entries, i, e, hop, 0);
    FindIs(t.entries, i);
  }

  lemma SurvivorsSnoc(handed: seq<Handed>, h: Handed, dropped: set<nat>, d: Dev, hop: Addr)
    ensures Survivors(handed + [h], dropped, d, hop)
         == Survivors(handed, dropped, d, hop)
          + if h.dev == d && h.hop == hop && |handed| !in dropped then [|handed|] else []
  {
    assert (handed + [h])[..|handed|] == handed;
  }

  lemma DropLast(handed: seq<Handed>, dropped: set<nat>, d: Dev, hop: Addr)
    ensures Survivors(handed, dropped + {|handed|}, d, hop) == Survivors(handed, dropped, d, hop)
  {
    SurvivorsWithout(handed, dropped, {|handed|}, d, hop);
    SurvivorsExact(handed, dropped, d, hop);
    WithoutNone(Survivors(handed, dropped, d, hop), {|handed|});
  }

  lemma SentSnoc(sent: seq<Sent>, x: Sent, d: Dev, hop: Addr)
    ensures SentTo(sent + [x], d, hop) == SentTo(sent, d, hop) + if x.dev == d && x.hop == hop then [x.id] else []
  {
    assert (sent + [x])[..|sent|] == sent;
  }

  lemma HandBalance(cfg: Config, s: State, r: Req, hop: Addr, frame: Frame, d: Dev, h: Addr)
    requires Good(s) && Balanced(s, d, h) && WholeHeader(frame) && |s.handed| !in s.dropped
    requires s.HasSlot(r) && s.At(r).Live() && s.At(r).addr == hop
    ensures Balanced(Hand(cfg, s, r, hop, frame), d, h)
  {
    var e, s' := s.At(r), Hand(cfg, s, r, hop, frame);
    var item := Handed(r.dev, hop, frame);
    SurvivorsSnoc(s.handed, item, s'.dropped, d, h);
    if !MustWait(e) {
      HandDirect(s, s', r, item, d, h);
    } else if e.bytes > MAX_BUCKET {
      DropLast(s.handed, s.dropped, d, h);
    } else {
      HandWaits(s, s', r, item, d, h);
    }
  }

  lemma NothingWaits(s: State, r: Req)
    requires Good(s) && s.HasSlot(r) && s.At(r).Live() && !MustWait(s.At(r))
    ensures Waiting(s.Table(r.dev), s.At(r).addr) == []
  {
    assert GoodEntry(s.At(r), r.dev);
    FindIs(s.Table(r.dev).entries, r.slot);
  }

  lemma HandDirect(s: State, s': State, r: Req, item: Handed, d: Dev, h: Addr)
    requires Good(s) && Balanced(s, d, h) && s.HasSlot(r) && s.At(r).Live() && !MustWait(s.At(r))
    requires s'.Table(d) == s.Table(d) && s'.handed == s.handed + [item] && s'.dropped == s.dropped
    requires |s'.sent| == |s.sent| + 1 && s'.sent == s.sent + [s'.sent[|s.sent|]]
    requires s'.sent[|s.sent|].id == |s.handed| && s'.sent[|s.sent|].dev == item.dev == r.dev
    requires s'.sent[|s.sent|].hop == item.hop == s.At(r).addr
    requires |s.handed| !in s.dropped
    ensures Balanced(s', d, h)
  {
    SurvivorsSnoc(s.handed, item, s'.dropped, d, h);
    SentSnoc(s.sent, s'.sent[|s.sent|], d, h);
    NothingWaits(s, r);
  }

  lemma HandWaits(s: State, s': State, r: Req, item: Handed, d: Dev, h: Addr)
    requires Good(s) && Balanced(s, d, h) && s.HasSlot(r) && s.At(r).Live()
    requires s.At(r).bytes <= MAX_BUCKET
    requires s' == s.(handed := s.handed + [item]).WithEntry(r, Append(s.At(r), Item(|s.handed|, item.frame)))
    requires item.dev == r.dev && item.hop == s.At(r).addr
    requires |s.handed| !in s.dropped
    ensures Balanced(s', d, h)
  {
    var e, x := s.At(r), Item(|s.handed|, item.frame);
    SurvivorsSnoc(s.handed, item, s'.dropped, d, h);
    EntryReplaced(s, r, Append(e, x), d, h);
    if r.dev == d && item.hop == h { AddTail(SentTo(s.sent, d, h), e.queue, x); }
  }

  lemma AddTail(out: seq<nat>, q: seq<Item>, x: Item)
    ensures out + IdSeq(q + [x]) == out + IdSeq(q) + [x.id]
  {
    assert IdSeq(q + [x]) == IdSeq(q) + [x.id];
  }

  /** Changing one entry's queue changes what waits for that entry's address and nothing else. */
  lemma EntryReplaced(s: State, r: Req, e: Entry, d: Dev, h: Addr)
    requires Good(s) && s.HasSlot(r) && s.At(r).Live()
    requires e.flag == s.At(r).flag && e.addr == s.At(r).addr
    ensures Waiting(s.WithEntry(r, e).Table(d), h)
         == if r.dev == d && e.addr == h then IdSeq(e.queue) else Waiting(s.Table(d), h)
    ensures Waiting(s.Table(r.dev), e.addr) == IdSeq(s.At(r).queue)
  {
    WaitingUpdate(s.Table(r.dev), r.dev, r.slot, e, h);
  }

  /** A frame that starts to wait gets the next rank; all other labels stay. */
  lemma AppendLabels(s: State, s': State, r: Req, frame: Frame)
    requires Labelled(s) && s.HasSlot(r)
    requires s'.handed == s.handed + [Handed(r.dev, s.At(r).addr, frame)]
    requires var t := s.WithEntry(r, Append(s.At(r), Item(|s.handed|, frame)));
      s'.table0 == t.table0 && s'.table1 == t.table1
    ensures Labelled(s')
  {
    forall q: Req, k | s'.HasSlot(q) && 0 <= k < |s'.At(q).queue| ensures GoodLabel(s', q, k) {
      if k < |s.At(q).queue| { assert GoodLabel(s, q, k); }
    }
  }

  lemma SameLabels(s: State, s': State)
    requires Labelled(s) && s'.table0 == s.table0 && s'.table1 == s.table1 && s.handed <= s'.handed
    ensures Labelled(s')
  {
    forall q: Req, k | s'.HasSlot(q) && 0 <= k < |s'.At(q).queue| ensures GoodLabel(s', q, k) {
      assert GoodLabel(s, q, k);
    }
  }

  lemma HandLabels(cfg: Config, s: State, r: Req, hop: Addr, frame: Frame)
    requires Labelled(s) && WholeHeader(frame) && s.HasSlot(r) && s.At(r).addr == hop
    ensures Labelled(Hand(cfg, s, r, hop, frame))
  {
    if MustWait(s.At(r)) && s.At(r).bytes <= MAX_BUCKET {
      AppendLabels(s, Hand(cfg, s, r, hop, frame), r, frame);
    } else {
      SameLabels(s, Hand(cfg, s, r, hop, frame));
    }
  }

  /** Only the last record can be new, and it is a good one. */
  lemma HandRecord(cfg: Config, s: State, r: Req, hop: Addr, frame: Frame)
    requires WholeHeader(frame) && s.HasSlot(r)
    ensures var s' := Hand(cfg, s, r, hop, frame);
      && s'.handed == s.handed + [Handed(r.dev, hop, frame)]
      && s.sent <= s'.sent && (forall j :: |s.sent| <= j < |s'.sent| ==> GoodSent(cfg, s', s'.sent[j]))
      && s'.dropped <= s.dropped + {|s.handed|}
  {
  }

  lemma HandRecords(cfg: Config, s: State, r: Req, hop: Addr, frame: Frame)
    requires GoodRecords(cfg, s) && WellHanded(cfg, Handed(r.dev, hop, frame)) && s.HasSlot(r)
    ensures GoodRecords(cfg, Hand(cfg, s, r, hop, frame))
  {
    HandRecord(cfg, s, r, hop, frame);
    MoreRecords(cfg, s, Hand(cfg, s, r, hop, frame), Handed(r.dev, hop, frame));
  }

  lemma OneMoreWellHanded(cfg: Config, handed: seq<Handed>, h: Handed)
    requires AllWellHanded(cfg, handed) && WellHanded(cfg, h)
    ensures AllWellHanded(cfg, handed + [h])
  {
    forall id | 0 <= id < |handed + [h]| ensures WellHanded(cfg, (handed + [h])[id]) {
      if id < |handed| { assert WellHanded(cfg, handed[id]); }
    }
  }

  lemma StillGoodSent(cfg: Config, s: State, s': State, x: Sent)
    requires GoodSent(cfg, s, x) && s.handed <= s'.handed
    ensures GoodSent(cfg, s', x)
  {
    assert s'.handed[x.id] == s.handed[x.id];
  }

  lemma MoreRecords(cfg: Config, s: State, s': State, h: Handed)
    requires GoodRecords(cfg, s) && WellHanded(cfg, h) && s'.handed == s.handed + [h]
    requires s.sent <= s'.sent && forall j :: |s.sent| <= j < |s'.sent| ==> GoodSent(cfg, s', s'.sent[j])
    requires s'.dropped <= s.dropped + {|s.handed|}
    ensures GoodRecords(cfg, s')
  {
    OneMoreWellHanded(cfg, s.handed, h);
    forall j | 0 <= j < |s'.sent| ensures GoodSent(cfg, s', s'.sent[j]) {
      if j < |s.sent| {
        var x := s.sent[j];
        assert s'.sent[j] == x && GoodSent(cfg, s, x);
        StillGoodSent(cfg, s, s', x);
      }
    }
  }

  lemma HandDelivered(cfg: Config, s: State, r: Req, hop: Addr, frame: Frame)
    requires Good(s) && Delivered(cfg, s) && WellHanded(cfg, Handed(r.dev, hop, frame))
    requires s.HasSlot(r) && s.At(r).Live() && s.At(r).addr == hop
    ensures Delivered(cfg, Hand(cfg, s, r, hop, frame))
  {
    HandRecords(cfg, s, r, hop, frame);
    HandLabels(cfg, s, r, hop, frame);
    forall d: Dev, h: Addr ensures Balanced(Hand(cfg, s, r, hop, frame), d, h) {
      assert Balanced(s, d, h);
      HandBalance(cfg, s, r, hop, frame, d, h);
    }
  }

  lemma HeadWritten(s: State, r: Req, x: Sent, s': State, d: Dev, h: Addr)
    requires Good(s) && Balanced(s, d, h) && s.HasSlot(r) && s.At(r).queue != []
    requires s'.Table(d) == s.WithEntry(r, Get(s.At(r))).Table(d) && s'.sent == s.sent + [x]
    requires s'.handed == s.handed && s'.dropped == s.dropped
    requires x.id == s.At(r).queue[0].id && x.dev == r.dev && x.hop == s.At(r).addr
    ensures Balanced(s', d, h)
  {
    SentSnoc(s.sent, x, d, h);
    EntryReplaced(s, r, Get(s.At(r)), d, h);
    if r.dev == d && x.hop == h { MoveHead(SentTo(s.sent, d, h), s.At(r).queue); }
  }

  lemma SendBalance(s: State, d: Dev, h: Addr)
    requires Good(s) && Balanced(s, d, h) && Enabled(s, SendFrame)
    ensures Balanced(SendOne(s), d, h)
  {
    HeadWritten(s, s.draining.value, SendOne(s).sent[|s.sent|], SendOne(s), d, h);
  }

  lemma MoveHead(out: seq<nat>, q: seq<Item>)
    requires q != []
    ensures out + [q[0].id] + IdSeq(q[1..]) == out + IdSeq(q)
  {
    assert IdSeq(q) == [q[0].id] + IdSeq(q[1..]);
  }

  lemma SendLabels(s: State)
    requires Labelled(s) && Enabled(s, SendFrame)
    ensures Labelled(SendOne(s))
  {
    var s', r := SendOne(s), s.draining.value;
    forall q: Req, k | s'.HasSlot(q) && 0 <= k < |s'.At(q).queue| ensures GoodLabel(s', q, k) {
      assert GoodLabel(s, q, if q == r then k + 1 else k);
    }
  }

  lemma SendRecords(cfg: Config, s: State)
    requires Labelled(s) && GoodRecords(cfg, s) && Enabled(s, SendFrame)
    ensures GoodRecords(cfg, SendOne(s))
  {
    var s' := SendOne(s);
    assert GoodLabel(s, s.draining.value, 0);
    forall j | 0 <= j < |s'.sent| ensures GoodSent(cfg, s', s'.sent[j]) {
      if j < |s.sent| { assert GoodSent(cfg, s, s.sent[j]); }
    }
  }

  lemma SendDelivered(cfg: Config, s: State)
    requires Good(s) && Delivered(cfg, s) && Enabled(s, SendFrame)
    ensures Delivered(cfg, SendOne(s))
  {
    SendLabels(s);
    SendRecords(cfg, s);
    forall d: Dev, h: Addr ensures Balanced(SendOne(s), d, h) {
      assert Balanced(s, d, h);
      SendBalance(s, d, h);
    }
  }

  // ----- every step -----

  lemma SameDelivered(cfg: Config, s: State, s': State)
    requires Delivered(cfg, s)
    requires s' == s.(origins := s'.origins) || s' == s.(requests := s'.requests, draining := s'.draining)
    ensures Delivered(cfg, s')
  {
    forall d: Dev, h: Addr ensures Balanced(s', d, h) { assert Balanced(s, d, h); }
    forall r: Req, k | s'.HasSlot(r) && 0 <= k < |s'.At(r).queue| ensures GoodLabel(s', r, k) {
      assert GoodLabel(s, r, k);
    }
    forall j | 0 <= j < |s'.sent| ensures GoodSent(cfg, s', s'.sent[j]) { assert GoodSent(cfg, s, s.sent[j]); }
  }

  lemma ForwardDelivered(cfg: Config, s: State, d: Dev, hop: Addr, frame: Frame, now: int)
    requires Good(s) && Delivered(cfg, s) && WellHanded(cfg, Handed(d, hop, frame))
    ensures Delivered(cfg, RouteTo(cfg, s, d, hop, frame, now))
  {
    LookupKeepsGood(s, d, hop, None, now);
    LookupDelivered(cfg, s, d, hop, None, now);
    HandDelivered(cfg, Lookup(s, d, hop, None, now), Req(d, Search(s.Table(d), d, hop, None, now).slot), hop, frame);
  }

  lemma EffectDelivered(cfg: Config, s: State, s': State, now: int, f: Effect)
    requires Good(s) && Delivered(cfg, s) && HasEffect(cfg, s, s', now, f)
    ensures Delivered(cfg, s')
  {
    match f
    case Nothing => SameDelivered(cfg, s, s');
    case OnlyLookup(d, addr, mac) => LookupDelivered(cfg, s, d, addr, Some(mac), now);
    case LookupAndHand(d, hop, frame) => ForwardDelivered(cfg, s, d, hop, frame, now);
  }

  lemma StepDelivered(cfg: Config, s: State, ev: Event)
    requires Good(s) && Delivered(cfg, s) && Enabled(s, ev)
    ensures Delivered(cfg, Step(cfg, s, ev))
  {
    match ev
    case Arrival(dev, buf, size, now) =>
      var f := ArrivalEffect(cfg, s, dev, buf, size, now);
      EffectDelivered(cfg, s, Step(cfg, s, ev), now, f);
    case PopRequest => SameDelivered(cfg, s, Step(cfg, s, ev));
    case SendFrame => SendDelivered(cfg, s);
    case FindEmpty => SameDelivered(cfg, s, Step(cfg, s, ev));
  }

  /** Frame number `id` has been written at position `j` of the log. */
  predicate WrittenAt(s: State, id: nat, j: nat) { j < |s.sent| && s.sent[j].id == id }

  /** Frame number `id` sits at place `k` of the queue of slot `r`. */
  predicate WaitsAt(s: State, id: nat, r: Req, k: nat) {
    s.HasSlot(r) && k < |s.At(r).queue| && s.At(r).queue[k].id == id
  }

  lemma {:induction false} WrittenIsSentTo(sent: seq<Sent>, j: nat)
    requires j < |sent|
    ensures sent[j].id in SentTo(sent, sent[j].dev, sent[j].hop)
  {
    if j < |sent| - 1 { WrittenIsSentTo(sent[..|sent| - 1], j); }
  }

  lemma {:induction false} SentToIsWritten(sent: seq<Sent>, d: Dev, hop: Addr, id: nat) returns (j: nat)
    requires id in SentTo(sent, d, hop)
    ensures j < |sent| && sent[j].id == id
  {
    var n := |sent| - 1;
    if sent[n].id == id && sent[n].dev == d && sent[n].hop == hop { j := n; }
    else { j := SentToIsWritten(sent[..n], d, hop, id); }
  }

  lemma WaitsIsWaiting(s: State, id: nat, r: Req, k: nat)
    requires Good(s) && Labelled(s) && WaitsAt(s, id, r, k)
    ensures id < |s.handed| && r.dev == s.handed[id].dev
    ensures k < |Waiting(s.Table(r.dev), s.handed[id].hop)| && Waiting(s.Table(r.dev), s.handed[id].hop)[k] == id
    ensures r.slot == Find(s.Table(r.dev).entries, s.handed[id].hop, 0)
  {
    assert GoodLabel(s, r, k);
    FindIs(s.Table(r.dev).entries, r.slot);
  }

  predicate NoRepeat(xs: seq<nat>) { forall a, b :: 0 <= a < b < |xs| ==> xs[a] != xs[b] }

  lemma {:induction false} WrittenOnce(sent: seq<Sent>, i: nat, j: nat)
    requires i < j < |sent| && NoRepeat(SentTo(sent, sent[j].dev, sent[j].hop))
    requires sent[i].dev == sent[j].dev && sent[i].hop == sent[j].hop
    ensures sent[i].id != sent[j].id
  {
    var n := |sent| - 1;
    var init, x := sent[..n], sent[n];
    var v := SentTo(init, sent[j].dev, sent[j].hop);
    var all := SentTo(sent, sent[j].dev, sent[j].hop);
    assert all == v + if x.dev == sent[j].dev && x.hop == sent[j].hop then [x.id] else [];
    if j == n {
      WrittenIsSentTo(init, i);
      var a :| 0 <= a < |v| && v[a] == sent[i].id;
      assert all[a] == v[a] && all[|v|] == x.id;
    } else {
      forall a, b | 0 <= a < b < |v| ensures v[a] != v[b] { assert all[a] != all[b]; }
      WrittenOnce(init, i, j);
    }
  }

  /** The two parts of an account have no member in common and none twice. */
  lemma AccountNoRepeat(s: State, d: Dev, hop: Addr)
    requires Balanced(s, d, hop)
    ensures NoRepeat(SentTo(s.sent, d, hop)) && NoRepeat(Waiting(s.Table(d), hop))
    ensures forall k, m :: 0 <= k < |SentTo(s.sent, d, hop)| && 0 <= m < |Waiting(s.Table(d), hop)| ==>
      SentTo(s.sent, d, hop)[k] != Waiting(s.Table(d), hop)[m]
  {
    var out, wait := SentTo(s.sent, d, hop), Waiting(s.Table(d), hop);
    SurvivorsExact(s.handed, s.dropped, d, hop);
    forall k, m | 0 <= k < m < |out| ensures out[k] != out[m] {
      assert (out + wait)[k] < (out + wait)[m];
    }
    forall k, m | 0 <= k < m < |wait| ensures wait[k] != wait[m] {
      assert (out + wait)[|out| + k] < (out + wait)[|out| + m];
    }
    forall k, m | 0 <= k < |out| && 0 <= m < |wait| ensures out[k] != wait[m] {
      assert (out + wait)[k] < (out + wait)[|out| + m];
    }
  }

  /** A frame that was written or waits is not a dropped one. */
  lemma AccountNotDropped(s: State, d: Dev, hop: Addr, id: nat)
    requires Balanced(s, d, hop) && id < |s.handed| && s.handed[id].dev == d && s.handed[id].hop == hop
    ensures id in SentTo(s.sent, d, hop) || id in Waiting(s.Table(d), hop) <==> id !in s.dropped
  {
    SurvivorsExact(s.handed, s.dropped, d, hop);
    assert id in SentTo(s.sent, d, hop) + Waiting(s.Table(d), hop)
      <==> id in SentTo(s.sent, d, hop) || id in Waiting(s.Table(d), hop);
  }

  lemma WrittenFacts(cfg: Config, s: State, id: nat, j: nat)
    requires Good(s) && Delivered(cfg, s) && WrittenAt(s, id, j)
    ensures id < |s.handed| && s.sent[j].dev == s.handed[id].dev && s.sent[j].hop == s.handed[id].hop
    ensures id in SentTo(s.sent, s.handed[id].dev, s.handed[id].hop)
  {
    assert GoodSent(cfg, s, s.sent[j]);
    WrittenIsSentTo(s.sent, j);
  }

  /** Conservation, part one: every frame handed over was dropped, or was written, or waits. */
  lemma EveryFrameHasAFate(cfg: Config, s: State, id: nat)
    requires Good(s) && Delivered(cfg, s) && id < |s.handed|
    ensures id in s.dropped || (exists j :: WrittenAt(s, id, j)) || (exists r, k :: WaitsAt(s, id, r, k))
  {
    var d, hop := s.handed[id].dev, s.handed[id].hop;
    assert Balanced(s, d, hop);
    AccountNotDropped(s, d, hop, id);
    if id in SentTo(s.sent, d, hop) {
      var j := SentToIsWritten(s.sent, d, hop, id);
      assert WrittenAt(s, id, j);
    } else if id in Waiting(s.Table(d), hop) {
      WaitingHasAPlace(s, d, hop, id);
    }
  }

  lemma WaitingHasAPlace(s: State, d: Dev, hop: Addr, id: nat)
    requires id in Waiting(s.Table(d), hop)
    ensures exists r, k :: WaitsAt(s, id, r, k)
  {
    var k :| 0 <= k < |Waiting(s.Table(d), hop)| && Waiting(s.Table(d), hop)[k] == id;
    assert WaitsAt(s, id, Req(d, Find(s.Table(d).entries, hop, 0)), k);
  }

  /** Conservation, part two: a written frame was written only once, waits nowhere and was not dropped. */
  lemma WrittenIsFinal(cfg: Config, s: State, id: nat, j: nat)
    requires Good(s) && Delivered(cfg, s) && WrittenAt(s, id, j)
    ensures id < |s.handed| && id !in s.dropped
    ensures forall i :: WrittenAt(s, id, i) ==> i == j
    ensures forall r, k :: !WaitsAt(s, id, r, k)
  {
    WrittenFacts(cfg, s, id, j);
    var d, hop := s.handed[id].dev, s.handed[id].hop;
    assert Balanced(s, d, hop);
    AccountNotDropped(s, d, hop, id);
    AccountNoRepeat(s, d, hop);
    forall i: nat | WrittenAt(s, id, i) ensures i == j {
      WrittenFacts(cfg, s, id, i);
      if i < j { WrittenOnce(s.sent, i, j); }
      if j < i { WrittenOnce(s.sent, j, i); }
    }
    forall r, k ensures !WaitsAt(s, id, r, k) {
      if WaitsAt(s, id, r, k) { WaitsIsWaiting(s, id, r, k); }
    }
  }

  /** Conservation, part three: a waiting frame has one place and was not dropped. */
  lemma WaitingIsUnique(cfg: Config, s: State, id: nat, r: Req, k: nat)
    requires Good(s) && Delivered(cfg, s) && WaitsAt(s, id, r, k)
    ensures id < |s.handed| && id !in s.dropped
    ensures forall q, m :: WaitsAt(s, id, q, m) ==> q == r && m == k
  {
    WaitsIsWaiting(s, id, r, k);
    var d, hop := s.handed[id].dev, s.handed[id].hop;
    assert Balanced(s, d, hop);
    AccountNotDropped(s, d, hop, id);
    AccountNoRepeat(s, d, hop);
    forall q, m | WaitsAt(s, id, q, m) ensures q == r && m == k {
      WaitsIsWaiting(s, id, q, m);
    }
  }
}
