/** What becomes of a received frame, read from its bytes and from the table of bindings. */
module Arrivals {
  import opened Bytes
  import opened Frames
  import Icmp
  import opened Cache
  import opened RouterSystem
  import opened Structure

  function Port(cfg: Config, dev: Dev): Device { if dev == 0 then cfg.device0 else cfg.device1 }

  lemma BufferSize(buf: seq<Byte>, size: nat)
    ensures Received(buf, size) <==>
      && |buf| == 2048 && size <= 2048
      && (size >= 34 && buf[12] == 8 && buf[13] == 0 ==> WholeHeader(buf[..size]))
  {
  }

  // ----- IP -----

  predicate Accepted(frame: Frame)
    requires WholeHeader(frame)
  {
    Decide(frame) != BadChecksum
  }

  /** The bytes of a Time Exceeded message (RFC 792: type 11, code 0) from `own` to the sender of the packet. */
  predicate IsTimeExceeded(own: Device, buf: seq<Byte>, out: seq<Byte>)
    requires |buf| >= 78
  {
    && |out| == 106
    && out[..6] == buf[6..12] && out[6..12] == own.hwaddr && out[12] == 8 && out[13] == 0
    && out[14..24] == [0x45, 0, 0, 92, 0, 0, 0, 0, 64, 1]
    && out[26..30] == own.addr && out[30..34] == buf[26..30]
    && out[34] == 11 && out[35] == 0 && out[38..42] == [0, 0, 0, 0] && out[42..] == buf[14..78]
  }

  /** The router does nothing but answer the sender with Time Exceeded, once. */
  predicate Answered(cfg: Config, s: State, t: State, dev: Dev, buf: seq<Byte>)
    requires |buf| >= 78
  {
    && |t.origins| == |s.origins| + 1 && t == s.(origins := s.origins + [t.origins[|s.origins|]])
    && var o := t.origins[|s.origins|];
    && o.TimeExceeded? && o.dev == dev && IsTimeExceeded(Port(cfg, dev), buf, o.bytes)
  }

  /** The router looks its next hop up and hands the frame over to it, once; it drops it only as its destination. */
  predicate PassedOn(cfg: Config, s: State, t: State, dev: Dev, g: Frame, now: int)
    requires WholeHeader(g)
  {
    var hop := NextHop(cfg, 1 - dev, g[30..34]);
    if hop.None? then t == s
    else t == RouteTo(cfg, s, 1 - dev, hop.value, g, now) && t.handed == s.handed + [Handed(1 - dev, hop.value, g)]
  }

  lemma IpArrival(cfg: Config, s: State, dev: Dev, buf: seq<Byte>, size: nat, now: int)
    requires Received(buf, size) && WholeHeader(buf[..size]) && Accepted(buf[..size])
    requires buf[..6] == Port(cfg, dev).hwaddr && buf[12] == 8 && buf[13] == 0
    ensures var g, t := buf[..size], Step(cfg, s, Arrival(dev, buf, size, now));
      && (Answered(cfg, s, t, dev, buf) <==> Decide(g) == Expired)
      && (PassedOn(cfg, s, t, dev, g, now) <==> Decide(g) == RoutedOn)
  {
    var g, t := buf[..size], Step(cfg, s, Arrival(dev, buf, size, now));
    assert t == ReceiveIp(cfg, s, dev, buf, g, now);
    if Decide(g) == Expired {
      AnswerIsAll(cfg, s, dev, buf, g, now);
    } else {
      RoutePassesOn(cfg, s, dev, g, now);
      RouteIsNoAnswer(cfg, s, dev, buf, g, now);
    }
  }

  lemma ReplyBytes(cfg: Config, dev: Dev, buf: seq<Byte>)
    requires |buf| == MAX_FRAME
    ensures IsTimeExceeded(Port(cfg, dev), buf, Icmp.TimeExceeded(cfg.Device(dev).hwaddr, cfg.Device(dev).addr, buf))
  {
    Icmp.TimeExceededLayout(cfg.Device(dev).hwaddr, cfg.Device(dev).addr, buf);
    var out := Icmp.TimeExceeded(cfg.Device(dev).hwaddr, cfg.Device(dev).addr, buf);
    assert out[12] == out[12..14][0] && out[13] == out[12..14][1];
  }

  lemma AnswerIsAll(cfg: Config, s: State, dev: Dev, buf: seq<Byte>, g: Frame, now: int)
    requires |buf| == MAX_FRAME && WholeHeader(g)
    ensures var t := AnswerExpired(cfg, s, dev, buf);
      Answered(cfg, s, t, dev, buf) && !PassedOn(cfg, s, t, dev, g, now)
  {
    var t := AnswerExpired(cfg, s, dev, buf);
    ReplyBytes(cfg, dev, buf);
    assert t.handed == s.handed && t != s by { assert |t.origins| == |s.origins| + 1; }
  }

  lemma RoutePassesOn(cfg: Config, s: State, dev: Dev, g: Frame, now: int)
    requires WholeHeader(g)
    ensures PassedOn(cfg, s, Route(cfg, s, dev, g, now), dev, g, now)
  {
    var hop := NextHop(cfg, 1 - dev, g[30..34]);
    if hop.Some? { RouteHands(cfg, s, 1 - dev, hop.value, g, now); }
  }

  lemma RouteIsNoAnswer(cfg: Config, s: State, dev: Dev, buf: seq<Byte>, g: Frame, now: int)
    requires WholeHeader(g) && |buf| == MAX_FRAME
    ensures !Answered(cfg, s, Route(cfg, s, dev, g, now), dev, buf)
  {
    var hop := NextHop(cfg, 1 - dev, g[30..34]);
    if hop.Some? {
      RouteHands(cfg, s, 1 - dev, hop.value, g, now);
      HandingIsNoAnswer(cfg, s, RouteTo(cfg, s, 1 - dev, hop.value, g, now), dev, buf);
    }
  }

  lemma HandingIsNoAnswer(cfg: Config, s: State, t: State, dev: Dev, buf: seq<Byte>)
    requires |t.handed| != |s.handed| && |buf| >= 78
    ensures !Answered(cfg, s, t, dev, buf)
  {
  }

  lemma RouteHands(cfg: Config, s: State, d: Dev, hop: Addr, frame: Frame, now: int)
    requires WholeHeader(frame)
    ensures RouteTo(cfg, s, d, hop, frame, now).handed == s.handed + [Handed(d, hop, frame)]
  {
  }

  // ----- every frame -----

  /** Frames that are too short, for somebody else, or of another kind are ignored; IP frames are ignored, answered or
      passed on by their verdict; ARP frames of 42 bytes with operation 1 or 2 are learned from. */
  lemma ArrivalByBytes(cfg: Config, s: State, dev: Dev, buf: seq<Byte>, size: nat, now: int)
    requires Received(buf, size)
    ensures var t, code := Step(cfg, s, Arrival(dev, buf, size, now)), ReturnCode(cfg, s, dev, buf, size, now);
      if size < 14 || buf[..6] != Port(cfg, dev).hwaddr then t == s && code == -1
      else if buf[12] == 8 && buf[13] == 0 then
        if size < 34 || !Accepted(buf[..size]) then t == s && code == -1
        else if Decide(buf[..size]) == Expired then Answered(cfg, s, t, dev, buf) && code == -1
        else PassedOn(cfg, s, t, dev, buf[..size], now)
      else if buf[12] == 8 && buf[13] == 6 then
        if size < 42 then t == s && code == -1
        else code == 0 && if buf[20] == 0 && (buf[21] == 1 || buf[21] == 2) then HearsFrom(s, t, dev, buf) else t == s
      else t == s && code == 0
  {
    if size >= 14 && buf[..6] == Port(cfg, dev).hwaddr {
      if buf[12] == 8 && buf[13] == 0 {
        IpByBytes(cfg, s, dev, buf, size, now);
      } else if buf[12] == 8 && buf[13] == 6 && size >= 42 {
        Operation(buf);
      }
    }
  }

  lemma Operation(buf: seq<Byte>)
    requires |buf| >= 42
    ensures buf[20..22] in {[0, 1], [0, 2]} <==> buf[20] == 0 && (buf[21] == 1 || buf[21] == 2)
  {
    assert buf[20..22] == [buf[20], buf[21]];
  }

  lemma IpByBytes(cfg: Config, s: State, dev: Dev, buf: seq<Byte>, size: nat, now: int)
    requires Received(buf, size) && size >= 14
    requires buf[..6] == Port(cfg, dev).hwaddr && buf[12] == 8 && buf[13] == 0
    ensures var t, code := Step(cfg, s, Arrival(dev, buf, size, now)), ReturnCode(cfg, s, dev, buf, size, now);
      if size < 34 || !Accepted(buf[..size]) then t == s && code == -1
      else if Decide(buf[..size]) == Expired then Answered(cfg, s, t, dev, buf) && code == -1
      else PassedOn(cfg, s, t, dev, buf[..size], now)
  {
    if size >= 34 && Accepted(buf[..size]) { IpArrival(cfg, s, dev, buf, size, now); }
  }

  /** An accepted ARP frame: sender MAC and sender address are recorded, and nothing else is, but for what the search of
      the table brings about. */
  predicate HearsFrom(s: State, t: State, dev: Dev, buf: seq<Byte>)
    requires |buf| >= 42
  {
    && t.arps == s.arps + [Arp(dev, buf[28..32], buf[22..28])]
    && t.handed == s.handed && t.sent == s.sent && t.origins == s.origins && t.Table(1 - dev) == s.Table(1 - dev)
  }

  /** The address then has a resolved binding with that MAC. */
  lemma HeardIsBound(cfg: Config, s: State, dev: Dev, buf: seq<Byte>, size: nat, now: int)
    requires Good(s) && Received(buf, size) && size >= 42 && buf[..6] == Port(cfg, dev).hwaddr
    requires buf[12] == 8 && buf[13] == 6 && buf[20] == 0 && (buf[21] == 1 || buf[21] == 2)
    ensures var es := Step(cfg, s, Arrival(dev, buf, size, now)).Table(dev).entries;
      && UniqueLive(es) && buf[28..32] in Bindings(es)
      && Bindings(es)[buf[28..32]].flag == Ok && Bindings(es)[buf[28..32]].hwaddr == buf[22..28]
  {
    Operation(buf);
    SearchRefinesMap(s.Table(dev), dev, buf[28..32], Some(buf[22..28]), now);
  }

  // ----- forwarding, by the table of bindings -----

  /** Frames for this next hop leave at once: it is resolved and nothing waits for it. */
  ghost predicate LeavesAtOnce(m: map<Addr, Entry>, hop: Addr) {
    hop in m && m[hop].flag == Ok && m[hop].queue == []
  }

  /** What waits for the next hop once it has been looked up. */
  ghost function Queue(m: map<Addr, Entry>, hop: Addr, now: int): seq<Item> {
    if Usable(m, hop, None, now) then m[hop].queue else []
  }

  ghost predicate Full(m: map<Addr, Entry>, hop: Addr, now: int) {
    Usable(m, hop, None, now) && m[hop].bytes > 1048576
  }

  /** The frame is written at once, with the binding's MAC as destination and the device's as source. */
  ghost predicate WrittenAtOnce(own: Device, s: State, t: State, d: Dev, hop: Addr, mac: Mac) {
    && |t.sent| == |s.sent| + 1 && s.sent <= t.sent
    && var x := t.sent[|s.sent|];
    && x.id == |s.handed| && x.dev == d && x.hop == hop && x.direct && x.dst == mac
    && |x.bytes| >= 12 && x.bytes[..6] == mac && x.bytes[6..12] == own.hwaddr
  }

  lemma FoundBinding(s: State, d: Dev, hop: Addr, now: int) returns (e: Entry)
    requires Good(s)
    ensures var t, r := Lookup(s, d, hop, None, now), SlotFound(s, d, hop, now);
      && t.HasSlot(r) && t.At(r) == e && e.Live() && e.addr == hop
    ensures var m := Bindings(s.Table(d).entries);
      && (e.flag == Ok <==> hop in m && m[hop].flag == Ok)
      && e.queue == Queue(m, hop, now) && (e.bytes > 1048576 <==> Full(m, hop, now))
      && (e.flag == Ok ==> e.hwaddr == m[hop].hwaddr)
  {
    SearchRefinesMap(s.Table(d), d, hop, None, now);
    LookupKeepsGood(s, d, hop, None, now);
    e := Lookup(s, d, hop, None, now).At(SlotFound(s, d, hop, now));
  }

  lemma BusyIsWaiting(e: Entry, d: int)
    requires GoodEntry(e, d) && e.Live()
    ensures MustWait(e) <==> !(e.flag == Ok && e.queue == [])
  {
  }

  /** The frame is handed over for `hop`: written, or put at the end of what waits, or refused. */
  ghost predicate HandedOver(own: Device, u: State, t: State, d: Dev, hop: Addr, frame: Frame,
                             mac: Option<Mac>, queue: seq<Item>, full: bool)
  {
    var es, id := t.Table(d).entries, |u.handed|;
    && UniqueLive(es) && hop in Bindings(es)
    && t.handed == u.handed + [Handed(d, hop, frame)]
    && Bindings(es)[hop].queue == queue + (if mac.Some? || full then [] else [Item(id, frame)])
    && t.dropped == u.dropped + (if mac.None? && full then {id} else {})
    && if mac.Some? then WrittenAtOnce(own, u, t, d, hop, mac.value) else t.sent == u.sent
  }

  /** A frame for `hop` is written at once if and only if `hop` is resolved and nothing waits for it. Otherwise it
      is put at the end of what waits for `hop`, or refused if and only if more than 1048576 bytes wait there. */
  lemma ForwardByBindings(cfg: Config, s: State, d: Dev, hop: Addr, frame: Frame, now: int)
    requires Good(s) && WholeHeader(frame) && |frame| <= 2048
    ensures var m, u := Bindings(s.Table(d).entries), Lookup(s, d, hop, None, now);
      && u.handed == s.handed && u.sent == s.sent && s.dropped <= u.dropped
      && HandedOver(Port(cfg, d), u, RouteTo(cfg, s, d, hop, frame, now), d, hop, frame,
                    if LeavesAtOnce(m, hop) then Some(m[hop].hwaddr) else None, Queue(m, hop, now), Full(m, hop, now))
  {
    var e := FoundBinding(s, d, hop, now);
    var u, r := Lookup(s, d, hop, None, now), SlotFound(s, d, hop, now);
    LookupKeepsGood(s, d, hop, None, now);
    HandByBinding(cfg, u, r, hop, frame);
  }

  lemma HandByBinding(cfg: Config, u: State, r: Req, hop: Addr, frame: Frame)
    requires Good(u) && u.HasSlot(r) && u.At(r).Live() && u.At(r).addr == hop && WholeHeader(frame) && |frame| <= 2048
    ensures var e := u.At(r);
      HandedOver(Port(cfg, r.dev), u, Hand(cfg, u, r, hop, frame), r.dev, hop, frame,
                 if e.flag == Ok && e.queue == [] then Some(e.hwaddr) else None, e.queue, e.bytes > 1048576)
  {
    BusyIsWaiting(u.At(r), r.dev);
    HandByEntry(cfg, u, r, hop, frame);
    HandBinds(cfg, u, r, hop, frame);
  }

  lemma HandBinds(cfg: Config, u: State, r: Req, hop: Addr, frame: Frame)
    requires Good(u) && u.HasSlot(r) && u.At(r).Live() && u.At(r).addr == hop && WholeHeader(frame) && |frame| <= 2048
    ensures var t := Hand(cfg, u, r, hop, frame); var es := t.Table(r.dev).entries;
      UniqueLive(es) && hop in Bindings(es) && t.HasSlot(r) && Bindings(es)[hop] == t.At(r)
  {
    HandKeepsGood(cfg, u, r, hop, frame);
    Bound(Hand(cfg, u, r, hop, frame).Table(r.dev).entries, r.slot);
  }

  lemma HandByEntry(cfg: Config, u: State, r: Req, hop: Addr, frame: Frame)
    requires u.HasSlot(r) && WholeHeader(frame)
    ensures var t, e, id := Hand(cfg, u, r, hop, frame), u.At(r), |u.handed|;
      && t.handed == u.handed + [Handed(r.dev, hop, frame)] && t.origins == u.origins
      && t.HasSlot(r) && t.At(r).flag == e.flag && t.At(r).addr == e.addr
      && if !MustWait(e) then
           WrittenAtOnce(Port(cfg, r.dev), u, t, r.dev, hop, e.hwaddr)
           && t.At(r).queue == e.queue && t.dropped == u.dropped
         else
           && t.sent == u.sent
           && t.dropped == u.dropped + (if e.bytes > 1048576 then {id} else {})
           && t.At(r).queue == e.queue + if e.bytes > 1048576 then [] else [Item(id, frame)]
  {
    PathEquivalence(frame, u.At(r).hwaddr, cfg.Device(r.dev).hwaddr);
  }

  /** What is returned for an accepted packet that has not expired: 1 if it is for the router itself, 0 if it leaves at
      once, and -1 if it has to wait or is refused. */
  lemma CodeByBindings(cfg: Config, s: State, dev: Dev, buf: seq<Byte>, size: nat, now: int)
    requires Good(s) && Received(buf, size) && size >= 34 && buf[..6] == Port(cfg, dev).hwaddr
    requires buf[12] == 8 && buf[13] == 0 && Decide(buf[..size]) == RoutedOn
    ensures var m, hop := Bindings(s.Table(1 - dev).entries), NextHop(cfg, 1 - dev, buf[30..34]);
      ReturnCode(cfg, s, dev, buf, size, now) == if hop.None? then 1 else if LeavesAtOnce(m, hop.value) then 0 else -1
  {
    var hop := NextHop(cfg, 1 - dev, buf[30..34]);
    assert buf[..size][30..34] == buf[30..34];
    if hop.Some? {
      LookupKeepsGood(s, 1 - dev, hop.value, None, now);
      var e := FoundBinding(s, 1 - dev, hop.value, now);
      BusyIsWaiting(e, 1 - dev);
    }
  }

  /** An ARP request goes out for a next hop if and only if it is not resolved. */
  lemma AsksIffUnresolved(cfg: Config, s: State, d: Dev, hop: Addr, frame: Frame, now: int)
    requires Good(s) && WholeHeader(frame)
    ensures var m, t := Bindings(s.Table(d).entries), RouteTo(cfg, s, d, hop, frame, now);
      t.origins == s.origins + if hop in m && m[hop].flag == Ok then [] else [ArpRequest(d, hop)]
  {
    var e := FoundBinding(s, d, hop, now);
    HandByEntry(cfg, Lookup(s, d, hop, None, now), SlotFound(s, d, hop, now), hop, frame);
  }
}
