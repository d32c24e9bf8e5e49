/** What every step keeps about the tables and the request queue. */
module Structure {
  import opened Bytes
  import opened Frames
  import opened Cache
  import opened RouterSystem

  /** No slot is requested twice, and every request, queued or being served, is for an existing slot. */
  predicate GoodRequests(s: State) {
    && (forall i, j :: 0 <= i < j < |s.requests| ==> s.requests[i] != s.requests[j])
    && (forall i :: 0 <= i < |s.requests| ==> s.HasSlot(s.requests[i]))
    && (s.draining.Some? ==> s.HasSlot(s.draining.value))
  }

  predicate Good(s: State) {
    GoodTable(s.table0, 0) && GoodTable(s.table1, 1) && GoodRequests(s)
  }

  lemma LookupKeepsGood(s: State, d: Dev, addr: Addr, mac: Option<Mac>, now: int)
    requires Good(s)
    ensures Good(Lookup(s, d, addr, mac, now))
    ensures var r := Req(d, Search(s.Table(d), d, addr, mac, now).slot); var s' := Lookup(s, d, addr, mac, now);
      s'.HasSlot(r) && s'.At(r).Live() && s'.At(r).addr == addr
  {
    SearchKeepsGood(s.Table(d), d, addr, mac, now);
    FoundSlot(s.Table(d), d, addr, mac, now);
    LookupKeepsRequests(s, d, addr, mac, now);
  }

  lemma LookupKeepsRequests(s: State, d: Dev, addr: Addr, mac: Option<Mac>, now: int)
    requires GoodRequests(s)
    requires |s.Table(d).entries| <= |Search(s.Table(d), d, addr, mac, now).table.entries|
    ensures GoodRequests(Lookup(s, d, addr, mac, now))
  {
    var r := Search(s.Table(d), d, addr, mac, now);
    var s1 := s.WithTable(d, r.table);
    WiderTable(s, s1);
    RequestKeepsGood(s1, Req(d, r.slot));
    var s2 := if r.wake then s1.(requests := Request(s1.requests, Req(d, r.slot))) else s1;
    OtherFields(s2, Lookup(s, d, addr, mac, now));
  }

  lemma WiderTable(s: State, s': State)
    requires GoodRequests(s) && s'.requests == s.requests && s'.draining == s.draining
    requires |s.table0.entries| <= |s'.table0.entries| && |s.table1.entries| <= |s'.table1.entries|
    ensures GoodRequests(s')
  {
  }

  lemma OtherFields(s: State, s': State)
    requires GoodRequests(s) && s'.requests == s.requests && s'.draining == s.draining
    requires s'.table0 == s.table0 && s'.table1 == s.table1
    ensures GoodRequests(s')
  {
  }

  lemma FoundSlot(t: Table, d: int, addr: Addr, mac: Option<Mac>, now: int)
    requires GoodTable(t, d)
    ensures var r := Search(t, d, addr, mac, now);
      |t.entries| <= |r.table.entries| && r.table.entries[r.slot].Live() && r.table.entries[r.slot].addr == addr
  {
    SearchSlots(t, d, addr, mac, now);
  }

  lemma RequestKeepsGood(s: State, r: Req)
    requires GoodRequests(s) && s.HasSlot(r)
    ensures GoodRequests(s.(requests := Request(s.requests, r)))
  {
  }

  lemma AppendKeepsTable(t: Table, d: int, i: nat, x: Item)
    requires GoodTable(t, d) && i < |t.entries| && t.entries[i].Live() && GoodItem(x)
    ensures GoodTable(t.(entries := t.entries[i := Append(t.entries[i], x)]), d)
  {
    AppendKeepsGood(t.entries[i], d, x);
  }

  lemma GetKeepsTable(t: Table, d: int, i: nat)
    requires GoodTable(t, d) && i < |t.entries| && t.entries[i].queue != []
    ensures GoodTable(t.(entries := t.entries[i := Get(t.entries[i])]), d)
  {
    GetKeepsGood(t.entries[i], d);
  }

  lemma HandKeepsGood(cfg: Config, s: State, r: Req, hop: Addr, frame: Frame)
    requires Good(s) && s.HasSlot(r) && s.At(r).Live() && WholeHeader(frame) && |frame| <= MAX_FRAME
    ensures Good(Hand(cfg, s, r, hop, frame))
  {
    AppendKeepsTable(s.Table(r.dev), r.dev, r.slot, Item(|s.handed|, frame));
  }

  lemma SendKeepsGood(s: State)
    requires Good(s) && Enabled(s, SendFrame)
    ensures Good(SendOne(s))
  {
    var r := s.draining.value;
    GetKeepsTable(s.Table(r.dev), r.dev, r.slot);
  }

  lemma PopKeepsGood(s: State)
    requires Good(s) && s.requests != []
    ensures Good(Pop(s))
  {
  }

  /** An arriving frame either leaves tables, requests and deliveries alone, or is one lookup, or a lookup
      followed by a hand-over to the slot found. Every step proof splits along these lines. */
  datatype Effect =
    | Nothing
    | OnlyLookup(dev: Dev, addr: Addr, mac: Mac)
    | LookupAndHand(d: Dev, hop: Addr, frame: Frame)

  predicate HasEffect(cfg: Config, s: State, s': State, now: int, f: Effect) {
    match f
    case Nothing => s' == s.(origins := s'.origins)
    case OnlyLookup(d, addr, mac) => s' == Lookup(s, d, addr, Some(mac), now)
    case LookupAndHand(d, hop, frame) =>
      && WholeHeader(frame) && Decide(frame) == RoutedOn && |frame| <= MAX_FRAME
      && NextHop(cfg, d, frame[30..34]) == Some(hop)
      && s' == RouteTo(cfg, s, d, hop, frame, now)
  }

  /** What an arriving frame will do, whatever the state. */
  function EffectOf(cfg: Config, dev: Dev, buf: seq<Byte>, size: nat): Effect
    requires Received(buf, size)
  {
    if size < ETHER_LEN || buf[..6] != cfg.Device(dev).hwaddr then Nothing
    else if EtherType(buf) == ETHERTYPE_ARP then
      if size < ETHER_LEN + ARP_LEN || buf[20..22] !in {[0, 1], [0, 2]} then Nothing
      else OnlyLookup(dev, buf[28..32], buf[22..28])
    else if EtherType(buf) == ETHERTYPE_IP && size >= MIN_IP_FRAME then IpEffect(cfg, dev, buf[..size])
    else Nothing
  }

  function IpEffect(cfg: Config, dev: Dev, frame: Frame): Effect
    requires WholeHeader(frame)
  {
    var hop := NextHop(cfg, 1 - dev, frame[30..34]);
    if Decide(frame) != RoutedOn || hop.None? then Nothing else LookupAndHand(1 - dev, hop.value, frame)
  }

  lemma ArrivalEffect(cfg: Config, s: State, dev: Dev, buf: seq<Byte>, size: nat, now: int) returns (f: Effect)
    requires Received(buf, size)
    ensures f == EffectOf(cfg, dev, buf, size)
    ensures HasEffect(cfg, s, Receive(cfg, s, dev, buf, size, now), now, f)
  {
    f := EffectOf(cfg, dev, buf, size);
    if size >= MIN_IP_FRAME && EtherType(buf) == ETHERTYPE_IP {
      if IpEffect(cfg, dev, buf[..size]).LookupAndHand? {
        IpEffectIs(cfg, s, dev, buf, buf[..size], now);
      } else {
        IpNoEffect(cfg, s, dev, buf, buf[..size], now);
      }
    }
  }

  lemma IpNoEffect(cfg: Config, s: State, dev: Dev, buf: seq<Byte>, frame: Frame, now: int)
    requires |buf| == MAX_FRAME && WholeHeader(frame) && !IpEffect(cfg, dev, frame).LookupAndHand?
    ensures var t := ReceiveIp(cfg, s, dev, buf, frame, now); t == s.(origins := t.origins)
  {
  }

  lemma IpEffectIs(cfg: Config, s: State, dev: Dev, buf: seq<Byte>, frame: Frame, now: int)
    requires |buf| == MAX_FRAME && WholeHeader(frame) && IpEffect(cfg, dev, frame).LookupAndHand?
    ensures var f := IpEffect(cfg, dev, frame);
      ReceiveIp(cfg, s, dev, buf, frame, now) == RouteTo(cfg, s, f.d, f.hop, frame, now)
  {
    RoutedIs(cfg, s, dev, buf, frame, now);
    RouteIs(cfg, s, dev, IpEffect(cfg, dev, frame).hop, frame, now);
  }

  lemma RoutedIs(cfg: Config, s: State, dev: Dev, buf: seq<Byte>, frame: Frame, now: int)
    requires |buf| == MAX_FRAME && WholeHeader(frame) && Decide(frame) == RoutedOn
    ensures ReceiveIp(cfg, s, dev, buf, frame, now) == Route(cfg, s, dev, frame, now)
  {
  }

  lemma RouteIs(cfg: Config, s: State, dev: Dev, hop: Addr, frame: Frame, now: int)
    requires WholeHeader(frame) && NextHop(cfg, 1 - dev, frame[30..34]) == Some(hop)
    ensures Route(cfg, s, dev, frame, now) == RouteTo(cfg, s, 1 - dev, hop, frame, now)
  {
  }

  /** A frame is forwarded at once only if 0 is returned, and a frame to be forwarded is exactly then; 1 means that
      nothing at all has happened. Replies and ARP requests that the router writes itself do not show in the code. */
  lemma ReturnCodeTells(cfg: Config, s: State, dev: Dev, buf: seq<Byte>, size: nat, now: int)
    requires Received(buf, size)
    ensures var code, t := ReturnCode(cfg, s, dev, buf, size, now), Receive(cfg, s, dev, buf, size, now);
      && (t.sent != s.sent ==> code == 0)
      && (EffectOf(cfg, dev, buf, size).LookupAndHand? && code == 0 ==> |t.sent| == |s.sent| + 1)
      && (code == 1 ==> t == s)
  {
    var f := ArrivalEffect(cfg, s, dev, buf, size, now);
    if f.LookupAndHand? {
      ForwardCode(cfg, s, dev, buf, size, now);
      RouteWrites(cfg, s, f.d, f.hop, f.frame, now);
    } else if ReturnCode(cfg, s, dev, buf, size, now) == 1 {
      NothingForSelf(cfg, s, dev, buf, buf[..size], now);
    }
  }

  lemma ForwardCode(cfg: Config, s: State, dev: Dev, buf: seq<Byte>, size: nat, now: int)
    requires Received(buf, size) && EffectOf(cfg, dev, buf, size).LookupAndHand?
    ensures var f := EffectOf(cfg, dev, buf, size);
      ReturnCode(cfg, s, dev, buf, size, now) == if FoundBusy(s, f.d, f.hop, now) then -1 else 0
  {
  }

  lemma NothingForSelf(cfg: Config, s: State, dev: Dev, buf: seq<Byte>, frame: Frame, now: int)
    requires |buf| == MAX_FRAME && WholeHeader(frame) && IpCode(cfg, s, dev, frame, now) == 1
    ensures ReceiveIp(cfg, s, dev, buf, frame, now) == s
  {
  }

  lemma RouteWrites(cfg: Config, s: State, d: Dev, hop: Addr, frame: Frame, now: int)
    requires WholeHeader(frame)
    ensures var t := RouteTo(cfg, s, d, hop, frame, now);
      if FoundBusy(s, d, hop, now) then t.sent == s.sent else |t.sent| == |s.sent| + 1
  {
  }

  lemma ForwardKeepsGood(cfg: Config, s: State, d: Dev, hop: Addr, frame: Frame, now: int)
    requires Good(s) && WholeHeader(frame) && |frame| <= MAX_FRAME
    ensures Good(RouteTo(cfg, s, d, hop, frame, now))
  {
    LookupKeepsGood(s, d, hop, None, now);
    HandKeepsGood(cfg, Lookup(s, d, hop, None, now), Req(d, Search(s.Table(d), d, hop, None, now).slot), hop, frame);
  }

  lemma EffectKeepsGood(cfg: Config, s: State, s': State, now: int, f: Effect)
    requires Good(s) && HasEffect(cfg, s, s', now, f)
    ensures Good(s')
  {
    match f
    case Nothing =>
    case OnlyLookup(d, addr, mac) => LookupKeepsGood(s, d, addr, Some(mac), now);
    case LookupAndHand(d, hop, frame) => ForwardKeepsGood(cfg, s, d, hop, frame, now);
  }

  lemma StepKeepsGood(cfg: Config, s: State, ev: Event)
    requires Good(s) && Enabled(s, ev)
    ensures Good(Step(cfg, s, ev))
  {
    match ev
    case Arrival(dev, buf, size, now) =>
      var f := ArrivalEffect(cfg, s, dev, buf, size, now);
      EffectKeepsGood(cfg, s, Step(cfg, s, ev), now, f);
    case PopRequest => PopKeepsGood(s);
    case SendFrame => SendKeepsGood(s);
    case FindEmpty =>
  }
}
