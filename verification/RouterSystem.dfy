/** The router as a step system: one received frame, or one action of the sender thread, per atomic step. */
module RouterSystem {
  import opened Bytes
  import opened Frames
  import opened Icmp
  import opened Cache

  type Dev = d: int | 0 <= d < 2

  datatype Device = Device(hwaddr: Mac, addr: Addr, subnet: Addr, netmask: Addr)

  datatype Config = Config(device0: Device, device1: Device, nextRouter: Addr) {
    function Device(d: Dev): Device { if d == 0 then device0 else device1 }
  }

  datatype Req = Req(dev: Dev, slot: nat)

  // ----- histories -----

  /** An ARP request or reply that reached the cache. */
  datatype Arp = Arp(dev: Dev, addr: Addr, mac: Mac)

  /** A frame handed over for sending to next hop `hop` on device `dev`. */
  datatype Handed = Handed(dev: Dev, hop: Addr, frame: Frame)

  /** A frame written to a device: which handed frame it was, the destination MAC used, by which path, and
      how many ARP frames had been accepted by then. */
  datatype Sent = Sent(id: nat, dev: Dev, hop: Addr, dst: Mac, direct: bool, known: nat, bytes: Frame)

  /** Frames the router originates itself. */
  datatype Origin = ArpRequest(dev: Dev, target: Addr) | TimeExceeded(dev: Dev, bytes: Frame)

  datatype State = State(table0: Table, table1: Table, requests: seq<Req>, draining: Option<Req>,
                         arps: seq<Arp>, handed: seq<Handed>, sent: seq<Sent>, dropped: set<nat>,
                         origins: seq<Origin>)
  {
    function Table(d: Dev): Table { if d == 0 then table0 else table1 }

    function WithTable(d: Dev, t: Table): (s: State)
      ensures s.Table(d) == t && s.Table(1 - d) == Table(1 - d)
    {
      if d == 0 then this.(table0 := t) else this.(table1 := t)
    }

    predicate HasSlot(r: Req) { r.slot < |Table(r.dev).entries| }

    function At(r: Req): Entry
      requires HasSlot(r)
    {
      Table(r.dev).entries[r.slot]
    }

    function WithEntry(r: Req, e: Entry): State
      requires HasSlot(r)
    {
      WithTable(r.dev, Table(r.dev).(entries := Table(r.dev).entries[r.slot := e]))
    }
  }

  const INIT: State := State(EMPTY, EMPTY, [], None, [], [], [], {}, [])

  // ----- the router thread -----

  /** `AppendSendReqData`: a request that is already queued is not queued again. */
  function Request(rs: seq<Req>, r: Req): seq<Req> {
    if r in rs then rs else rs + [r]
  }

  /** The waiting frames that a search throws away with their entries. */
  function Evicted(t: Table, addr: Addr, mac: Option<Mac>, now: int): set<nat> {
    set i, k | 0 <= i < |t.entries| && Evicts(t, addr, mac, now, i) && 0 <= k < |t.entries[i].queue| ::
      t.entries[i].queue[k].id
  }

  /** `Ip2Mac`: the search, its wake-up of the sender, and an ARP request when the entry is not resolved. */
  function Lookup(s: State, d: Dev, addr: Addr, mac: Option<Mac>, now: int): State {
    var r := Search(s.Table(d), d, addr, mac, now);
    s.WithTable(d, r.table).(
      requests := if r.wake then Request(s.requests, Req(d, r.slot)) else s.requests,
      dropped := s.dropped + Evicted(s.Table(d), addr, mac, now),
      arps := if mac.Some? then s.arps + [Arp(d, addr, mac.value)] else s.arps,
      origins := if r.table.entries[r.slot].flag == Ok then s.origins else s.origins + [ArpRequest(d, addr)])
  }

  /** The frame has to wait: the entry is unresolved, or earlier frames are still waiting. */
  predicate MustWait(e: Entry) { e.flag == Ng || e.dno != 0 }

  /** What `AnalyzePacket` does with the entry it got: buffer the frame, lose it to a full bucket, or send it. */
  function Hand(cfg: Config, s: State, r: Req, hop: Addr, frame: Frame): State
    requires s.HasSlot(r) && WholeHeader(frame)
  {
    var e, id := s.At(r), |s.handed|;
    var s' := s.(handed := s.handed + [Handed(r.dev, hop, frame)]);
    if MustWait(e) then
      if e.bytes > MAX_BUCKET then s'.(dropped := s.dropped + {id}) else s'.WithEntry(r, Append(e, Item(id, frame)))
    else
      s'.(sent := s.sent + [Sent(id, r.dev, hop, e.hwaddr, true, |s.arps|,
                                 Direct(frame, e.hwaddr, cfg.Device(r.dev).hwaddr))])
  }

  predicate OnSegment(cfg: Config, d: Dev, a: Addr) { Masked(a, cfg.Device(d).netmask) == cfg.Device(d).subnet }

  /** The next hop for a destination behind device `d`: the destination itself, the default router, or
      nobody when the packet is for the router. */
  function NextHop(cfg: Config, d: Dev, daddr: Addr): Option<Addr> {
    if OnSegment(cfg, d, daddr) then
      if daddr == cfg.Device(d).addr then None else Some(daddr)
    else Some(cfg.nextRouter)
  }

  /** Bit `p` of byte `k` of the address is as the segment wants it. */
  predicate FitsSegment(own: Device, a: Addr, k: nat, p: nat)
    requires k < 4 && IsBit(p)
  {
    (own.subnet[k] / p) % 2 == 1 <==> (a[k] / p) % 2 == 1 && (own.netmask[k] / p) % 2 == 1
  }

  /** An address is on a device's segment if and only if it has the subnet's bit wherever the mask has one, and the
      subnet has no bit outside the mask. */
  lemma OnSegmentBits(cfg: Config, d: Dev, a: Addr)
    ensures var own := if d == 0 then cfg.device0 else cfg.device1;
      OnSegment(cfg, d, a) <==> forall k, p :: 0 <= k < 4 && IsBit(p) ==> FitsSegment(own, a, k, p)
  {
    var own := if d == 0 then cfg.device0 else cfg.device1;
    forall k | 0 <= k < 4
      ensures BitAnd(a[k], own.netmask[k]) == own.subnet[k] <==> forall p :: IsBit(p) ==> FitsSegment(own, a, k, p)
    {
      AndIsBits(a[k], own.netmask[k], own.subnet[k]);
      assert forall p :: IsBit(p) ==> (FitsSegment(own, a, k, p) <==>
        (HasBit(own.subnet[k], p) <==> HasBit(a[k], p) && HasBit(own.netmask[k], p)));
    }
    assert Masked(a, own.netmask) == own.subnet <==>
      forall k :: 0 <= k < 4 ==> BitAnd(a[k], own.netmask[k]) == own.subnet[k];
  }

  /** Somebody else on device `d`'s segment. */
  predicate Neighbour(cfg: Config, d: Dev, a: Addr) { OnSegment(cfg, d, a) && a != cfg.Device(d).addr }

  /** Frames leave a device only for its neighbours if and only if the default router is one of them, or is never
      asked for because the segment is the whole world. */
  lemma HopsAreNeighbours(cfg: Config, d: Dev)
    ensures (forall a: Addr :: NextHop(cfg, d, a).Some? ==> Neighbour(cfg, d, NextHop(cfg, d, a).value))
        <==> Neighbour(cfg, d, cfg.nextRouter) || (forall a: Addr :: OnSegment(cfg, d, a))
  {
    if a: Addr :| !OnSegment(cfg, d, a) {
      assert NextHop(cfg, d, a) == Some(cfg.nextRouter);
    }
  }

  const ETHERTYPE_IP: int := 0x0800
  const ETHERTYPE_ARP: int := 0x0806
  const ARP_LEN: nat := 28

  function EtherType(buf: seq<Byte>): Word
    requires |buf| >= ETHER_LEN
  {
    Join(buf[13], buf[12])
  }

  /** The receive buffer is 2048 bytes long; an IP frame long enough to be looked at holds its whole IP header. */
  predicate Received(buf: seq<Byte>, size: nat) {
    && |buf| == MAX_FRAME && size <= MAX_FRAME
    && (size >= MIN_IP_FRAME && EtherType(buf) == ETHERTYPE_IP ==> WholeHeader(buf[..size]))
  }

  function SlotFound(s: State, d: Dev, hop: Addr, now: int): Req {
    Req(d, Search(s.Table(d), d, hop, None, now).slot)
  }

  /** After the lookup the entry is found busy. */
  predicate FoundBusy(s: State, d: Dev, hop: Addr, now: int) {
    MustWait(Search(s.Table(d), d, hop, None, now).table.entries[SlotFound(s, d, hop, now).slot])
  }

  /** Forwarding to a given next hop behind device `d`: look it up, then hand the frame over. */
  function RouteTo(cfg: Config, s: State, d: Dev, hop: Addr, frame: Frame, now: int): State
    requires WholeHeader(frame)
  {
    var slot := Search(s.Table(d), d, hop, None, now).slot;
    Hand(cfg, Lookup(s, d, hop, None, now), Req(d, slot), hop, frame)
  }

  /** Routing of an accepted IP frame that has not expired. */
  function Route(cfg: Config, s: State, dev: Dev, frame: Frame, now: int): State
    requires WholeHeader(frame)
  {
    var hop := NextHop(cfg, 1 - dev, frame[30..34]);
    if hop.None? then s else RouteTo(cfg, s, 1 - dev, hop.value, frame, now)
  }

  /** The Time Exceeded reply goes out. */
  function AnswerExpired(cfg: Config, s: State, dev: Dev, buf: seq<Byte>): State
    requires |buf| == MAX_FRAME
  {
    s.(origins := s.origins + [TimeExceeded(dev, Icmp.TimeExceeded(cfg.Device(dev).hwaddr, cfg.Device(dev).addr, buf))])
  }

  /** The IP branch of `AnalyzePacket`; the ICMP reply quotes the buffer, whatever it holds beyond the frame. */
  function ReceiveIp(cfg: Config, s: State, dev: Dev, buf: seq<Byte>, frame: Frame, now: int): State
    requires |buf| == MAX_FRAME && WholeHeader(frame)
  {
    match Decide(frame)
    case BadChecksum => s
    case Expired => AnswerExpired(cfg, s, dev, buf)
    case RoutedOn => Route(cfg, s, dev, frame, now)
  }

  /** `AnalyzePacket` on the first `size` bytes of the receive buffer. */
  function Receive(cfg: Config, s: State, dev: Dev, buf: seq<Byte>, size: nat, now: int): State
    requires Received(buf, size)
  {
    if size < ETHER_LEN || buf[..6] != cfg.Device(dev).hwaddr then s
    else if EtherType(buf) == ETHERTYPE_ARP then
      if size < ETHER_LEN + ARP_LEN || buf[20..22] !in {[0, 1], [0, 2]} then s
      else Lookup(s, dev, buf[28..32], Some(buf[22..28]), now)
    else if EtherType(buf) == ETHERTYPE_IP then
      if size < MIN_IP_FRAME then s else ReceiveIp(cfg, s, dev, buf, buf[..size], now)
    else s
  }

  /** What `AnalyzePacket` returns for an IP frame: 1 if it is for the router itself, 0 if it has been written, and
      otherwise, discarded, answered or buffered, -1. */
  function IpCode(cfg: Config, s: State, dev: Dev, frame: Frame, now: int): int
    requires WholeHeader(frame)
  {
    var hop := NextHop(cfg, 1 - dev, frame[30..34]);
    if Decide(frame) != RoutedOn then -1
    else if hop.None? then 1
    else if FoundBusy(s, 1 - dev, hop.value, now) then -1 else 0
  }

  /** And for any frame: too short or not for this router's MAC is -1; everything else that is not IP is 0. */
  function ReturnCode(cfg: Config, s: State, dev: Dev, buf: seq<Byte>, size: nat, now: int): int
    requires Received(buf, size)
  {
    if size < ETHER_LEN || buf[..6] != cfg.Device(dev).hwaddr then -1
    else if EtherType(buf) == ETHERTYPE_ARP then if size < ETHER_LEN + ARP_LEN then -1 else 0
    else if EtherType(buf) == ETHERTYPE_IP then
      if size < MIN_IP_FRAME then -1 else IpCode(cfg, s, dev, buf[..size], now)
    else 0
  }

  // ----- the sender thread -----

  /** `GetSendReqData` on a non-empty request queue. */
  function Pop(s: State): State
    requires s.requests != []
  {
    s.(requests := s.requests[1..], draining := Some(s.requests[0]))
  }

  /** One turn of the loop in `BufferSendOne`: take the oldest frame, rewrite it, write it. The entry's flag
      is not looked at. */
  function SendOne(s: State): State
    requires s.draining.Some? && s.HasSlot(s.draining.value) && s.At(s.draining.value).queue != []
    requires WholeHeader(s.At(s.draining.value).queue[0].frame)
  {
    var r := s.draining.value;
    var e := s.At(r);
    var x := e.queue[0];
    s.WithEntry(r, Get(e)).(
      sent := s.sent + [Sent(x.id, r.dev, e.addr, e.hwaddr, false, |s.arps|, Buffered(x.frame, e.hwaddr))])
  }

  datatype Event = Arrival(dev: Dev, buf: seq<Byte>, size: nat, now: int) | PopRequest | SendFrame | FindEmpty

  predicate Enabled(s: State, ev: Event) {
    match ev
    case Arrival(dev, buf, size, now) => Received(buf, size)
    case PopRequest => s.draining == None && s.requests != []
    case SendFrame =>
      && s.draining.Some? && s.HasSlot(s.draining.value) && s.At(s.draining.value).queue != []
      && WholeHeader(s.At(s.draining.value).queue[0].frame)
    case FindEmpty => s.draining.Some? && s.HasSlot(s.draining.value) && s.At(s.draining.value).queue == []
  }

  function Step(cfg: Config, s: State, ev: Event): State
    requires Enabled(s, ev)
  {
    match ev
    case Arrival(dev, buf, size, now) => Receive(cfg, s, dev, buf, size, now)
    case PopRequest => Pop(s)
    case SendFrame => SendOne(s)
    case FindEmpty => s.(draining := None)
  }

  /** The state after the events `evs` from `s`; `None` when some event was not possible where it occurs. */
  function RunFrom(cfg: Config, s: State, evs: seq<Event>): Option<State> {
    if |evs| == 0 then Some(s)
    else
      match RunFrom(cfg, s, evs[..|evs| - 1])
      case None => None
      case Some(t) => if Enabled(t, evs[|evs| - 1]) then Some(Step(cfg, t, evs[|evs| - 1])) else None
  }

  /** The state after a run from power-on. */
  function After(cfg: Config, evs: seq<Event>): Option<State> { RunFrom(cfg, INIT, evs) }

  lemma RunExtended(cfg: Config, s: State, evs: seq<Event>, t: State, ev: Event)
    requires RunFrom(cfg, s, evs) == Some(t) && Enabled(t, ev)
    ensures RunFrom(cfg, s, evs + [ev]) == Some(Step(cfg, t, ev))
  {
    assert (evs + [ev])[..|evs|] == evs;
  }
}
