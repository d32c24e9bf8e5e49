/** The program itself: tables, queues and buffers on the heap, proved to take exactly the steps of `RouterSystem`. */
module Router {
  import opened Bytes
  import opened Acceptance
  import opened Frames
  import opened ChecksumLoops
  import opened Icmp
  import opened Cache
  import opened RouterSystem
  import opened SendBuf
  import opened SendReqQueue
  import opened CacheTable
  import opened Structure
  import opened Wakeup

  class Router {
    const cfg: Config
    const table0: Ip2MacTable
    const table1: Ip2MacTable
    const req: SendReq
    ghost var draining: Option<Req>
    ghost var arps: seq<Arp>
    ghost var handed: seq<Handed>
    ghost var sent: seq<Sent>
    ghost var dropped: set<nat>
    ghost var origins: seq<Origin>

    ghost predicate Valid()
      reads table0, table0.data, table0.slots, table0.bufs
      reads table1, table1.data, table1.slots, table1.bufs, req, req.Repr
    {
      && table0.Valid() && table1.Valid() && req.Valid()
      && table0.dev == 0 && table1.dev == 1
      && Apart(table0, table1)
    }

    ghost function Abs(): State
      reads this, table0, table0.slots, table1, table1.slots, req
    {
      State(table0.Abs(), table1.Abs(), req.Abs(), draining, arps, handed, sent, dropped, origins)
    }

    constructor (cfg: Config)
      ensures Valid() && Abs() == INIT && this.cfg == cfg
    {
      this.cfg := cfg;
      table0 := new Ip2MacTable(0);
      table1 := new Ip2MacTable(1);
      req := new SendReq();
      draining, arps, handed, sent, dropped, origins := None, [], [], [], {}, [];
      new;
    }

    function TableOf(d: Dev): Ip2MacTable { if d == 0 then table0 else table1 }

    ghost function SlotOf(r: Req): Ip2Mac
      requires r.slot < |TableOf(r.dev).slots|
      reads TableOf(r.dev)`slots
    {
      TableOf(r.dev).slots[r.slot]
    }

    method SearchIn(d: Dev, addr: Addr, hwaddr: Option<Mac>, now: int) returns (slot: nat)
      requires Valid()
      modifies table0, table0.data, table0.slots, table1, table1.data, table1.slots, req, req.Repr
      ensures Valid()
      ensures Searched(old(Abs()), Abs(), d, slot, addr, hwaddr, now)
      ensures Kept(table0) && Kept(table1)
    {
      if d == 0 {
        slot := Search0(addr, hwaddr, now);
      } else {
        slot := Search1(addr, hwaddr, now);
      }
    }

    method Search0(addr: Addr, hwaddr: Option<Mac>, now: int) returns (slot: nat)
      requires Valid()
      modifies table0, table0.data, table0.slots, req, req.Repr
      ensures Valid() && Kept(table0) && Kept(table1)
      ensures Searched(old(Abs()), Abs(), 0, slot, addr, hwaddr, now)
    {
      slot := SearchBeside(table0, table1, req, addr, hwaddr, now);
    }

    method Search1(addr: Addr, hwaddr: Option<Mac>, now: int) returns (slot: nat)
      requires Valid()
      modifies table1, table1.data, table1.slots, req, req.Repr
      ensures Valid() && Kept(table0) && Kept(table1)
      ensures Searched(old(Abs()), Abs(), 1, slot, addr, hwaddr, now)
    {
      slot := SearchBeside(table1, table0, req, addr, hwaddr, now);
    }

    /** `Ip2Mac`: an ARP request goes out when the entry is not resolved. */
    method Resolve(d: Dev, addr: Addr, hwaddr: Option<Mac>, now: int) returns (slot: nat)
      requires Valid()
      modifies this`dropped, this`arps, this`origins
      modifies table0, table0.data, table0.slots, table1, table1.data, table1.slots, req, req.Repr
      ensures Valid() && Abs() == Lookup(old(Abs()), d, addr, hwaddr, now)
      ensures slot == Search(old(Abs()).Table(d), d, addr, hwaddr, now).slot && Abs().HasSlot(Req(d, slot))
      ensures Kept(table0) && Kept(table1)
    {
      ghost var s := Abs();
      slot := SearchIn(d, addr, hwaddr, now);
      NoteLookup(s, d, slot, addr, hwaddr, now);
    }

    method AppendIn(r: Req, frame: Frame, ghost id: nat)
      requires Valid() && Abs().HasSlot(r)
      modifies TableOf(r.dev)`bufs, SlotOf(r), SlotOf(r).nodes
      ensures Valid() && Abs() == old(Abs()).WithEntry(r, Append(old(Abs().At(r)), Item(id, frame)))
    {
      if r.dev == 0 {
        AppendBeside(table0, table1, req, r.slot, frame, id);
      } else {
        AppendBeside(table1, table0, req, r.slot, frame, id);
      }
    }

    method GetIn(r: Req) returns (status: int, frame: Frame, ghost id: nat)
      requires Valid() && Abs().HasSlot(r)
      modifies SlotOf(r), SlotOf(r).nodes
      ensures Valid() && status == if old(Abs().At(r)).queue == [] then -1 else 0
      ensures status == -1 ==> Abs() == old(Abs())
      ensures status == 0 ==> Abs() == old(Abs()).WithEntry(r, Get(old(Abs().At(r))))
      ensures status == 0 ==> Item(id, frame) == old(Abs().At(r)).queue[0]
    {
      if r.dev == 0 {
        status, frame, id := GetBeside(table0, table1, req, r.slot);
      } else {
        status, frame, id := GetBeside(table1, table0, req, r.slot);
      }
    }

    /** The histories after a lookup. */
    ghost method NoteLookup(s: State, d: Dev, slot: nat, addr: Addr, hwaddr: Option<Mac>, now: int)
      requires Searched(s, Abs(), d, slot, addr, hwaddr, now)
      modifies this`dropped, this`arps, this`origins
      ensures Abs() == Lookup(s, d, addr, hwaddr, now)
    {
      LookupFrom(s, Abs(), d, slot, addr, hwaddr, now);
      ghost var resolved := Abs().Table(d).entries[slot].flag == Ok;
      dropped := dropped + Evicted(s.Table(d), addr, hwaddr, now);
      arps := if hwaddr.Some? then arps + [Arp(d, addr, hwaddr.value)] else arps;
      origins := if resolved then origins else origins + [ArpRequest(d, addr)];
    }

    /** The frame has to wait: `AppendSendData`, which may refuse it. */
    method Wait(r: Req, hop: Addr, frame: Frame)
      requires Valid() && Abs().HasSlot(r) && MustWait(Abs().At(r)) && WholeHeader(frame)
      modifies this`handed, this`dropped
      modifies TableOf(r.dev)`bufs, SlotOf(r), SlotOf(r).nodes
      ensures Valid() && Abs() == Hand(cfg, old(Abs()), r, hop, frame)
    {
      ghost var s := Abs();
      AppendIn(r, frame, |handed|);
      NoteWaiting(s, r, hop, frame);
    }

    ghost method NoteWaiting(s: State, r: Req, hop: Addr, frame: Frame)
      requires s.HasSlot(r) && MustWait(s.At(r)) && WholeHeader(frame)
      requires Abs() == s.WithEntry(r, Append(s.At(r), Item(|s.handed|, frame)))
      modifies this`handed, this`dropped
      ensures Abs() == Hand(cfg, s, r, hop, frame)
    {
      HandWaiting(cfg, s, r, hop, frame);
      dropped := if s.At(r).bytes > MAX_BUCKET then dropped + {|handed|} else dropped;
      handed := handed + [Handed(r.dev, hop, frame)];
    }

    /** The entry is resolved and nothing waits: the frame is rewritten in the receive buffer and written. */
    method SendNow(r: Req, hop: Addr, data: array<Byte>, size: nat, ghost frame: Frame,
                   option: seq<Byte>, optionLen: int, ghost s: State)
      requires Valid() && Abs() == s && s.HasSlot(r) && !MustWait(s.At(r))
      requires size <= data.Length && data[..size] == frame && OptionsOf(frame, option, optionLen)
      modifies this`handed, this`sent, data
      ensures Valid() && Abs() == Hand(cfg, s, r, hop, frame)
    {
      var hwaddr := HwaddrOf(r);
      Rewrite(data, size, frame, option, optionLen, hwaddr, cfg.Device(r.dev).hwaddr, s);
      NoteSent(s, r, hop, frame, data[..size]);
    }

    method Rewrite(data: array<Byte>, size: nat, ghost frame: Frame, option: seq<Byte>, optionLen: int,
                   dst: Mac, src: Mac, ghost s: State)
      requires Valid() && Abs() == s
      requires size <= data.Length && data[..size] == frame && OptionsOf(frame, option, optionLen)
      modifies data
      ensures Valid() && Abs() == s && data[..size] == Direct(frame, dst, src)
    {
      RewriteDirect(data, size, option, optionLen, dst, src);
    }

    method HwaddrOf(r: Req) returns (hwaddr: Mac)
      requires Valid() && Abs().HasSlot(r)
      ensures hwaddr == Abs().At(r).hwaddr
    {
      hwaddr := if r.dev == 0 then table0.data[r.slot].hwaddr else table1.data[r.slot].hwaddr;
    }

    method IsBusy(r: Req) returns (busy: bool)
      requires Valid() && Abs().HasSlot(r)
      ensures busy == MustWait(Abs().At(r))
    {
      var e := if r.dev == 0 then table0.data[r.slot] else table1.data[r.slot];
      busy := e.flag == Ng || e.dno != 0;
    }

    ghost method NoteSent(s: State, r: Req, hop: Addr, frame: Frame, bytes: Frame)
      requires Valid() && Abs() == s && s.HasSlot(r) && !MustWait(s.At(r)) && WholeHeader(frame)
      requires bytes == Direct(frame, s.At(r).hwaddr, cfg.Device(r.dev).hwaddr)
      modifies this`handed, this`sent
      ensures Valid() && Abs() == Hand(cfg, s, r, hop, frame)
    {
      sent := sent + [Sent(|handed|, r.dev, hop, s.At(r).hwaddr, true, |arps|, bytes)];
      handed := handed + [Handed(r.dev, hop, frame)];
    }

    /** The two branches of `AnalyzePacket` that share their shape: to a neighbour on the target segment, or to
        the next router. */
    method Forward(d: Dev, hop: Addr, data: array<Byte>, size: nat, ghost frame: Frame,
                   option: seq<Byte>, optionLen: int, now: int, ghost s: State, ghost s': State, ghost code: int)
      returns (r: int)
      requires Valid() && Abs() == s && WholeHeader(frame) && s' == RouteTo(cfg, s, d, hop, frame, now)
      requires code == if FoundBusy(s, d, hop, now) then -1 else 0
      requires size <= data.Length && data[..size] == frame && OptionsOf(frame, option, optionLen)
      modifies this`handed, this`sent, this`dropped, this`arps, this`origins, data
      modifies table0, table0.data, table0.slots, table0.bufs
      modifies table1, table1.data, table1.slots, table1.bufs, req, req.Repr
      ensures Valid() && Abs() == s' && r == code
    {
      var slot := Resolve(d, hop, None, now);
      ghost var e, t := SlotOf(Req(d, slot)), TableOf(d);
      assert e in t.slots && (e in old(TableOf(d).slots) || fresh(e));
      assert t.Holds(e) && t.bufs == old(TableOf(d).bufs);
      r := HandOver(Req(d, slot), hop, data, size, frame, option, optionLen);
    }

    /** What follows the lookup (router/main.c:207-212 and 229-237). */
    method HandOver(r: Req, hop: Addr, data: array<Byte>, size: nat, ghost frame: Frame,
                    option: seq<Byte>, optionLen: int) returns (code: int)
      requires Valid() && Abs().HasSlot(r)
      requires size <= data.Length && data[..size] == frame && OptionsOf(frame, option, optionLen)
      modifies this`handed, this`sent, this`dropped, data
      modifies TableOf(r.dev)`bufs, SlotOf(r), SlotOf(r).nodes
      ensures Valid() && Abs() == Hand(cfg, old(Abs()), r, hop, frame)
      ensures code == if MustWait(old(Abs().At(r))) then -1 else 0
    {
      var busy := IsBusy(r);
      if busy {
        code := -1;
        Wait(r, hop, data[..size]);
      } else {
        code := 0;
        SendNow(r, hop, data, size, frame, option, optionLen, Abs());
      }
    }

    /** `AnalyzePacket` on the first `size` bytes of the receive buffer. */
    method AnalyzePacket(dev: Dev, data: array<Byte>, size: nat, now: int) returns (r: int)
      requires Valid() && Received(data[..], size)
      modifies this`handed, this`sent, this`dropped, this`arps, this`origins, data
      modifies table0, table0.data, table0.slots, table0.bufs
      modifies table1, table1.data, table1.slots, table1.bufs, req, req.Repr
      ensures Valid() && Abs() == Step(cfg, old(Abs()), Arrival(dev, old(data[..]), size, now))
      ensures r == ReturnCode(cfg, old(Abs()), dev, old(data[..]), size, now)
    {
      var ptr, lest := 0, size;
      ghost var buf := data[..];
      if lest < ETHER_LEN {
        return -1;
      }
      ptr, lest := ptr + ETHER_LEN, lest - ETHER_LEN;
      if data[..6] != cfg.Device(dev).hwaddr {
        return -1;
      }
      var etherType := Join(data[13], data[12]);
      if etherType == ETHERTYPE_ARP {
        if lest < ARP_LEN {
          return -1;
        }
        if data[20..22] == [0, 1] || data[20..22] == [0, 2] {
          var _ := Resolve(dev, data[28..32], Some(data[22..28]), now);
        }
        return 0;
      } else if etherType == ETHERTYPE_IP {
        if lest < IP_LEN {
          return -1;
        }
        r := AnalyzeIpFrame(dev, data, size, now, Abs(), buf, buf[..size]);
        return;
      }
      return 0;
    }

    /** The IP part of `AnalyzePacket`. */
    method AnalyzeIpFrame(dev: Dev, data: array<Byte>, size: nat, now: int, ghost s: State, ghost buf: seq<Byte>,
                          ghost frame: Frame) returns (r: int)
      requires Valid() && Abs() == s && data[..] == buf
      requires |buf| == MAX_FRAME && size <= MAX_FRAME && data[..size] == frame && WholeHeader(frame)
      modifies this`handed, this`sent, this`dropped, this`arps, this`origins, data
      modifies table0, table0.data, table0.slots, table0.bufs
      modifies table1, table1.data, table1.slots, table1.bufs, req, req.Repr
      ensures Valid() && Abs() == ReceiveIp(cfg, s, dev, buf, frame, now)
      ensures r == IpCode(cfg, s, dev, frame, now)
    {
      var verdict, hop, option, optionLen := Judge(dev, data, size, frame);
      ghost var s', code := ReceiveIpIs(cfg, s, dev, buf, frame, now, verdict, hop);
      r := Act(dev, data, size, now, verdict, hop, option, optionLen, s, buf, frame, s', code);
    }

    /** The frame is discarded, answered, or handed on. */
    method Act(dev: Dev, data: array<Byte>, size: nat, now: int, verdict: Verdict, hop: Option<Addr>,
               option: seq<Byte>, optionLen: int, ghost s: State, ghost buf: seq<Byte>, ghost frame: Frame,
               ghost s': State, ghost code: int) returns (r: int)
      requires Valid() && Abs() == s && data[..] == buf && |buf| == MAX_FRAME
      requires size <= MAX_FRAME && data[..size] == frame && OptionsOf(frame, option, optionLen)
      requires IpOutcome(cfg, s, dev, buf, frame, now, verdict, hop, s', code)
      modifies this`handed, this`sent, this`dropped, this`arps, this`origins, data
      modifies table0, table0.data, table0.slots, table0.bufs
      modifies table1, table1.data, table1.slots, table1.bufs, req, req.Repr
      ensures Valid() && Abs() == s' && r == code
    {
      if verdict == RoutedOn && hop.Some? {
        r := Forward(1 - dev, hop.value, data, size, frame, option, optionLen, now, s, s', code);
      } else {
        r := Refuse(dev, data, verdict, s);
      }
    }

    /** Nothing to forward: a bad checksum, an expired packet, or one for the router itself. */
    method Refuse(dev: Dev, data: array<Byte>, verdict: Verdict, ghost s: State) returns (r: int)
      requires Valid() && Abs() == s && data.Length == MAX_FRAME
      modifies this`origins
      ensures Valid() && Abs() == if verdict == Expired then AnswerExpired(cfg, s, dev, data[..]) else s
      ensures r == if verdict == RoutedOn then 1 else -1
    {
      if verdict == Expired {
        Expire(dev, data);
      }
      r := if verdict == RoutedOn then 1 else -1;
    }

    /** Checksum, time to live and destination decide what becomes of the frame (router/main.c:167-220). */
    method Judge(dev: Dev, data: array<Byte>, size: nat, ghost frame: Frame)
      returns (verdict: Verdict, hop: Option<Addr>, option: seq<Byte>, optionLen: int)
      requires data.Length == MAX_FRAME && size <= MAX_FRAME && data[..size] == frame && WholeHeader(frame)
      ensures verdict == Decide(frame) && hop == NextHop(cfg, 1 - dev, frame[30..34])
      ensures OptionsOf(frame, option, optionLen)
    {
      var ok;
      ok, option, optionLen := CheckHeader(data, size, frame);
      var ttl: int, daddr: Addr := data[22], data[30..34];
      assert ttl == Ttl(frame) && daddr == frame[30..34];
      verdict := if !ok then BadChecksum else if ttl - 1 == 0 then Expired else RoutedOn;
      hop := PickHop(1 - dev, daddr);
    }

    method CheckHeader(data: array<Byte>, size: nat, ghost frame: Frame)
      returns (ok: bool, option: seq<Byte>, optionLen: int)
      requires size <= data.Length && data[..size] == frame && WholeHeader(frame)
      ensures ok == Accepts(IpHeader(frame)) && OptionsOf(frame, option, optionLen)
    {
      option, optionLen := ExtractOptions(data, size);
      ok := CheckIpChecksum(data[ETHER_LEN..MIN_IP_FRAME], option, optionLen);
    }

    /** The options are copied out of the buffer before anything is changed. */
    method ExtractOptions(data: array<Byte>, size: nat) returns (option: seq<Byte>, optionLen: int)
      requires size <= data.Length && WholeHeader(data[..size])
      ensures OptionsOf(data[..size], option, optionLen)
      ensures data[ETHER_LEN..MIN_IP_FRAME] + Prefix(option, optionLen) == IpHeader(data[..size])
    {
      optionLen := OptionLen(data[..size]);
      option := if optionLen > 0 then data[MIN_IP_FRAME..MIN_IP_FRAME + optionLen] else [];
      Extracted(data[..], size, data[ETHER_LEN..MIN_IP_FRAME], option, optionLen);
    }

    /** The packet's time is up: the reply is built from the receive buffer and written. */
    method Expire(dev: Dev, data: array<Byte>)
      requires Valid() && data.Length == MAX_FRAME
      modifies this`origins
      ensures Valid() && Abs() == AnswerExpired(cfg, old(Abs()), dev, data[..])
    {
      var out := SendIcmpTimeExceeded(cfg.Device(dev).hwaddr, cfg.Device(dev).addr, data);
      origins := origins + [Origin.TimeExceeded(dev, out)];
    }

    /** The choice of the next hop (router/main.c:194-220). */
    method PickHop(tno: Dev, daddr: Addr) returns (hop: Option<Addr>)
      ensures hop == NextHop(cfg, tno, daddr)
    {
      if Masked(daddr, cfg.Device(tno).netmask) == cfg.Device(tno).subnet {
        if daddr == cfg.Device(tno).addr {
          return None;
        }
        return Some(daddr);
      }
      return Some(cfg.nextRouter);
    }

    /** `GetSendReqData` by the sender thread. */
    method TakeRequest() returns (r: int, deviceNo: Dev, ip2macNo: nat)
      requires Valid() && Abs().draining == None
      modifies this`draining, req, req.Repr
      ensures Valid() && r == if old(Abs()).requests == [] then -1 else 0
      ensures r == -1 ==> Abs() == old(Abs())
      ensures r == 0 ==> Abs() == Pop(old(Abs())) && draining == Some(Req(deviceNo, ip2macNo))
      ensures req.Repr == old(req.Repr)
    {
      r, deviceNo, ip2macNo := req.GetSendReqData();
      if r == 0 {
        draining := Some(Req(deviceNo, ip2macNo));
      }
    }

    /** One turn of the loop in `BufferSendOne`. */
    method SendOneFrame(r: Req, ghost s: State) returns (sentOne: bool)
      requires Valid() && Abs() == s && s.draining == Some(r) && s.HasSlot(r)
      requires s.At(r).queue != [] ==> Enabled(s, SendFrame)
      modifies this`sent, SlotOf(r), SlotOf(r).nodes
      ensures Valid() && (sentOne <==> s.At(r).queue != [])
      ensures Abs() == (if sentOne then SendOne(s) else s) && req.Repr == old(req.Repr)
    {
      var bytes;
      sentOne, bytes := TakeFrame(r, s);
      if sentOne {
        NoteBuffered(s, r, bytes);
      }
    }

    /** The oldest waiting frame is taken and rewritten with the entry's present MAC. */
    method TakeFrame(r: Req, ghost s: State) returns (taken: bool, bytes: Frame)
      requires Valid() && Abs() == s && s.HasSlot(r)
      requires s.At(r).queue != [] ==> WholeHeader(s.At(r).queue[0].frame)
      modifies SlotOf(r), SlotOf(r).nodes
      ensures Valid() && (taken <==> s.At(r).queue != [])
      ensures Abs() == if taken then s.WithEntry(r, Get(s.At(r))) else s
      ensures taken ==> bytes == Buffered(s.At(r).queue[0].frame, s.At(r).hwaddr)
    {
      var hwaddr := HwaddrOf(r);
      var frame;
      taken, frame := TakeOut(r, s);
      bytes := [];
      if taken {
        bytes := RewriteCopy(frame, hwaddr);
      }
    }

    /** `GetSendData`, without the rank that only the model knows. */
    method TakeOut(r: Req, ghost s: State) returns (taken: bool, frame: Frame)
      requires Valid() && Abs() == s && s.HasSlot(r)
      modifies SlotOf(r), SlotOf(r).nodes
      ensures Valid() && (taken <==> s.At(r).queue != [])
      ensures Abs() == if taken then s.WithEntry(r, Get(s.At(r))) else s
      ensures taken ==> frame == s.At(r).queue[0].frame
    {
      var status;
      ghost var id;
      status, frame, id := GetIn(r);
      taken := status == 0;
      assert taken ==> s.At(r).queue[0] == Item(id, frame);
    }

    method RewriteCopy(frame: Frame, hwaddr: Mac) returns (bytes: Frame)
      requires WholeHeader(frame)
      ensures bytes == Buffered(frame, hwaddr)
    {
      var data := new Byte[|frame|](i requires 0 <= i < |frame| => frame[i]);
      assert data[..] == frame;
      RewriteBuffered(data, hwaddr);
      bytes := data[..];
    }

    ghost method NoteBuffered(s: State, r: Req, bytes: Frame)
      requires Enabled(s, SendFrame) && s.draining == Some(r) && Abs() == s.WithEntry(r, Get(s.At(r)))
      requires bytes == Buffered(s.At(r).queue[0].frame, s.At(r).hwaddr)
      modifies this`sent
      ensures Abs() == SendOne(s)
    {
      var x := s.At(r).queue[0];
      sent := sent + [Sent(x.id, r.dev, s.At(r).addr, s.At(r).hwaddr, false, |arps|, bytes)];
    }

    /** `GetSendReqData` in the sender thread's loop. */
    method Begin(ghost s0: State, ghost evs: seq<Event>, ghost s: State)
      returns (r: Req, ghost evs': seq<Event>, ghost s': State)
      requires Valid() && Abs() == s && s.draining == None && s.requests != [] && SenderAt(cfg, s0, evs, s)
      modifies this`draining, req, req.Repr
      ensures Valid() && Abs() == s' && SenderAt(cfg, s0, evs', s') && s'.draining == Some(r) && Work(s') < Work(s)
      ensures req.Repr == old(req.Repr)
    {
      var _, deviceNo, ip2macNo := TakeRequest();
      r := Req(deviceNo, ip2macNo);
      PopMoves(cfg, s0, evs, s);
      evs', s' := evs + [PopRequest], Pop(s);
    }

    /** `BufferSendOne`: frames of the slot are sent until there are none. */
    method BufferSendOne(r: Req, ghost s0: State, ghost evs: seq<Event>, ghost s: State)
      returns (ghost evs': seq<Event>, ghost s': State)
      requires Valid() && Abs() == s && s.draining == Some(r) && SenderAt(cfg, s0, evs, s)
      modifies this`sent, this`draining, table0.slots, table0.bufs, table1.slots, table1.bufs
      ensures Valid() && Abs() == s' && SenderAt(cfg, s0, evs', s') && s'.draining == None && Work(s') < Work(s)
      ensures req.Repr == old(req.Repr)
    {
      evs', s' := evs, s;
      var more := true;
      while more
        invariant Valid() && Abs() == s' && SenderAt(cfg, s0, evs', s') && req.Repr == old(req.Repr)
        invariant s'.draining == if more then Some(r) else None
        invariant if more then Work(s') <= Work(s) else Work(s') < Work(s)
        decreases Work(s'), more
      {
        more, evs', s' := Turn(r, s0, evs', s');
      }
    }

    /** One request is taken and served. */
    method Serve(ghost s0: State, ghost evs: seq<Event>, ghost s: State)
      returns (ghost evs': seq<Event>, ghost s': State)
      requires Valid() && Abs() == s && s.draining == None && s.requests != [] && SenderAt(cfg, s0, evs, s)
      modifies this`sent, this`draining, table0.slots, table0.bufs, table1.slots, table1.bufs, req, req.Repr
      ensures Valid() && Abs() == s' && SenderAt(cfg, s0, evs', s') && s'.draining == None && Work(s') < Work(s)
      ensures req.Repr == old(req.Repr)
    {
      var r: Req;
      r, evs', s' := Begin(s0, evs, s);
      evs', s' := BufferSendOne(r, s0, evs', s');
    }

    /** One frame is sent, or the slot is found empty and left. */
    method Turn(r: Req, ghost s0: State, ghost evs: seq<Event>, ghost s: State)
      returns (more: bool, ghost evs': seq<Event>, ghost s': State)
      requires Valid() && Abs() == s && s.draining == Some(r) && SenderAt(cfg, s0, evs, s)
      modifies this`sent, this`draining, table0.slots, table0.bufs, table1.slots, table1.bufs
      ensures Valid() && Abs() == s' && SenderAt(cfg, s0, evs', s') && Work(s') == Work(s) - 1
      ensures s'.draining == (if more then Some(r) else None) && req.Repr == old(req.Repr)
    {
      SenderNext(cfg, s0, evs, s, r);
      ghost var e, t := SlotOf(r), TableOf(r.dev);
      assert e in t.slots && t.Holds(e);
      more := SendOneFrame(r, s);
      if more {
        evs', s' := evs + [SendFrame], SendOne(s);
      } else {
        evs', s' := evs + [FindEmpty], s.(draining := None);
        NoteEmpty();
      }
    }

    ghost method NoteEmpty()
      requires Valid()
      modifies this`draining
      ensures Valid() && Abs() == old(Abs()).(draining := None)
    {
      draining := None;
    }

    /** The inner loop of `BufferSend`: requests are taken and served until there are none. What happens is a run
        of the sender thread's steps, of at most `Work` of them, after which no resolved entry has a frame
        waiting. */
    method ServeRequests() returns (ghost evs: seq<Event>)
      requires Valid() && Good(Abs()) && Awake(Abs()) && Abs().draining == None
      modifies this`sent, this`draining, table0.slots, table0.bufs, table1.slots, table1.bufs, req, req.Repr
      ensures Valid() && SenderAt(cfg, old(Abs()), evs, Abs()) && |evs| <= old(Work(Abs()))
      ensures Quiet(Abs()) && AllSent(Abs())
    {
      ghost var s0, s := Abs(), Abs();
      evs := [];
      while req.top != null
        invariant Valid() && Abs() == s && SenderAt(cfg, s0, evs, s) && s.draining == None
        invariant req.Repr == old(req.Repr)
        decreases Work(s)
      {
        assert |req.nodes| > 0 && s.requests != [];
        evs, s := Serve(s0, evs, s);
      }
      SenderDrainsEverything(cfg, s0, evs);
    }
  }

  /** From `s0`, where all is well, the sender thread alone has got to `s` by the events `evs`. */
  ghost predicate SenderAt(cfg: Config, s0: State, evs: seq<Event>, s: State) {
    && Good(s0) && Awake(s0)
    && RunFrom(cfg, s0, evs) == Some(s) && forall i :: 0 <= i < |evs| ==> SenderEvent(evs[i])
  }

  lemma SenderMoves(cfg: Config, s0: State, evs: seq<Event>, s: State, ev: Event)
    requires SenderAt(cfg, s0, evs, s) && Enabled(s, ev) && SenderEvent(ev)
    ensures SenderAt(cfg, s0, evs + [ev], Step(cfg, s, ev)) && Work(Step(cfg, s, ev)) == Work(s) - 1
  {
    RunExtended(cfg, s0, evs, s, ev);
    SenderStepWork(cfg, s, ev);
  }

  lemma PopMoves(cfg: Config, s0: State, evs: seq<Event>, s: State)
    requires SenderAt(cfg, s0, evs, s) && s.draining == None && s.requests != []
    ensures SenderAt(cfg, s0, evs + [PopRequest], Pop(s)) && Work(Pop(s)) == Work(s) - 1
  {
    SenderMoves(cfg, s0, evs, s, PopRequest);
  }

  /** While the sender thread serves a slot, exactly one of its two moves there is possible. */
  lemma SenderNext(cfg: Config, s0: State, evs: seq<Event>, s: State, r: Req)
    requires SenderAt(cfg, s0, evs, s) && s.draining == Some(r)
    ensures s.HasSlot(r)
    ensures if s.At(r).queue == [] then Enabled(s, FindEmpty) else Enabled(s, SendFrame)
    ensures s.At(r).queue != [] ==> SenderAt(cfg, s0, evs + [SendFrame], SendOne(s))
    ensures s.At(r).queue != [] ==> Work(SendOne(s)) == Work(s) - 1 && SendOne(s).draining == Some(r)
    ensures s.At(r).queue == [] ==> SenderAt(cfg, s0, evs + [FindEmpty], s.(draining := None))
    ensures s.At(r).queue == [] ==> Work(s.(draining := None)) == Work(s) - 1
  {
    SenderDrainsEverything(cfg, s0, evs);
    assert GoodEntry(s.At(r), r.dev);
    if s.At(r).queue == [] {
      SenderMoves(cfg, s0, evs, s, FindEmpty);
    } else {
      assert GoodItem(s.At(r).queue[0]);
      SenderMoves(cfg, s0, evs, s, SendFrame);
    }
  }

  /** State and return code after an IP frame, case by case. */
  predicate IpOutcome(cfg: Config, s: State, dev: Dev, buf: seq<Byte>, frame: Frame, now: int,
                      verdict: Verdict, hop: Option<Addr>, s': State, code: int)
    requires |buf| == MAX_FRAME && WholeHeader(frame)
  {
    match verdict
    case BadChecksum => s' == s && code == -1
    case Expired => s' == AnswerExpired(cfg, s, dev, buf) && code == -1
    case RoutedOn =>
      if hop.None? then s' == s && code == 1
      else
        && s' == RouteTo(cfg, s, 1 - dev, hop.value, frame, now)
        && code == if FoundBusy(s, 1 - dev, hop.value, now) then -1 else 0
  }

  lemma ReceiveIpIs(cfg: Config, s: State, dev: Dev, buf: seq<Byte>, frame: Frame, now: int,
                    verdict: Verdict, hop: Option<Addr>) returns (s': State, code: int)
    requires |buf| == MAX_FRAME && WholeHeader(frame)
    requires verdict == Decide(frame) && hop == NextHop(cfg, 1 - dev, frame[30..34])
    ensures s' == ReceiveIp(cfg, s, dev, buf, frame, now) && code == IpCode(cfg, s, dev, frame, now)
    ensures IpOutcome(cfg, s, dev, buf, frame, now, verdict, hop, s', code)
  {
    s', code := ReceiveIp(cfg, s, dev, buf, frame, now), IpCode(cfg, s, dev, frame, now);
    if verdict == RoutedOn && hop.Some? {
      RoutedIs(cfg, s, dev, buf, frame, now);
      RouteIs(cfg, s, dev, hop.value, frame, now);
    }
  }

  lemma Extracted(buf: seq<Byte>, size: nat, iphdr: seq<Byte>, option: seq<Byte>, optionLen: int)
    requires size <= |buf| && WholeHeader(buf[..size]) && optionLen == OptionLen(buf[..size])
    requires iphdr == buf[ETHER_LEN..MIN_IP_FRAME]
    requires option == if optionLen > 0 then buf[MIN_IP_FRAME..MIN_IP_FRAME + optionLen] else []
    ensures OptionsOf(buf[..size], option, optionLen)
    ensures iphdr + Prefix(option, optionLen) == IpHeader(buf[..size])
  {
    var frame := buf[..size];
    assert iphdr == frame[ETHER_LEN..MIN_IP_FRAME];
    if optionLen > 0 { assert option == frame[MIN_IP_FRAME..ETHER_LEN + HeaderLen(frame)]; }
  }

  lemma HandWaiting(cfg: Config, s: State, r: Req, hop: Addr, frame: Frame)
    requires s.HasSlot(r) && MustWait(s.At(r)) && WholeHeader(frame)
    ensures var t := s.WithEntry(r, Append(s.At(r), Item(|s.handed|, frame)));
      Hand(cfg, s, r, hop, frame) == t.(
        dropped := if s.At(r).bytes > MAX_BUCKET then s.dropped + {|s.handed|} else s.dropped,
        handed := s.handed + [Handed(r.dev, hop, frame)])
  {
    var es := s.Table(r.dev).entries;
    assert es[r.slot := es[r.slot]] == es;
  }

  lemma LookupFrom(s: State, s': State, d: Dev, slot: nat, addr: Addr, mac: Option<Mac>, now: int)
    requires Searched(s, s', d, slot, addr, mac, now)
    ensures slot < |s'.Table(d).entries|
    ensures Lookup(s, d, addr, mac, now) == s'.(
      dropped := s'.dropped + Evicted(s.Table(d), addr, mac, now),
      arps := if mac.Some? then s'.arps + [Arp(d, addr, mac.value)] else s'.arps,
      origins := if s'.Table(d).entries[slot].flag == Ok then s'.origins else s'.origins + [ArpRequest(d, addr)])
  {
  }

  /** `s'` is `s` after the search alone, before the histories are brought up to date. */
  ghost predicate Searched(s: State, s': State, d: Dev, slot: nat, addr: Addr, mac: Option<Mac>, now: int) {
    var r := Search(s.Table(d), d, addr, mac, now);
    && slot == r.slot
    && s' == s.WithTable(d, r.table).(requests := if r.wake then Request(s.requests, Req(d, slot)) else s.requests)
  }

  /** The table still uses the same nodes, and no entries but its old ones and new ones. */
  twostate predicate Kept(t: Ip2MacTable)
    reads t
  {
    t.bufs == old(t.bufs) && forall e :: e in t.slots ==> e in old(t.slots) || fresh(e)
  }

  /** Two tables have no storage in common. */
  ghost predicate Apart(t: Ip2MacTable, u: Ip2MacTable)
    reads t, u
  {
    && t != u && t.data != u.data && t.bufs !! u.bufs
    && (forall e :: e in t.slots ==> e !in u.slots)
  }

  /** Nothing that a table consists of has changed, so neither has the table. */
  twostate lemma Untouched(u: Ip2MacTable)
    requires old(u.Valid()) && unchanged(u) && unchanged(u.data)
    requires forall e :: e in u.slots ==> unchanged(e)
    requires forall b :: b in u.bufs ==> unchanged(b)
    ensures u.Valid() && u.Abs() == old(u.Abs())
  {
    assert forall j :: 0 <= j < |u.slots| ==> u.slots[j] in u.slots && u.slots[j].Abs() == old(u.slots[j].Abs());
  }

  /** A search in one table while there is another. */
  method SearchBeside(t: Ip2MacTable, u: Ip2MacTable, req: SendReq, addr: Addr, hwaddr: Option<Mac>, now: int)
    returns (slot: nat)
    requires t.Valid() && u.Valid() && req.Valid() && Apart(t, u)
    modifies t, t.data, t.slots, req, req.Repr
    ensures t.Valid() && u.Valid() && req.Valid() && Apart(t, u)
    ensures var r := Search(old(t.Abs()), t.dev, addr, hwaddr, now);
      && t.Abs() == r.table && slot == r.slot
      && req.Abs() == if r.wake then Request(old(req.Abs()), Req(t.dev, slot)) else old(req.Abs())
    ensures u.Abs() == old(u.Abs())
    ensures Kept(t)
  {
    slot := t.Ip2MacSearch(addr, hwaddr, now, req);
    Untouched(u);
  }

  method AppendBeside(t: Ip2MacTable, u: Ip2MacTable, req: SendReq, slot: nat, frame: Frame, ghost id: nat)
    requires t.Valid() && u.Valid() && req.Valid() && Apart(t, u) && slot < t.no
    modifies t`bufs, t.slots[slot], t.slots[slot].nodes
    ensures t.Valid() && u.Valid() && req.Valid() && Apart(t, u)
    ensures t.Abs() ==
      old(t.Abs()).(entries := old(t.Entries())[slot := Append(old(t.Entries())[slot], Item(id, frame))])
    ensures u.Abs() == old(u.Abs()) && req.Abs() == old(req.Abs())
  {
    assert t.slots[slot] in t.slots;
    assert forall k :: 0 <= k < |t.slots[slot].nodes| ==> t.slots[slot].nodes[k] in t.bufs;
    t.AppendTo(slot, frame, id);
    Untouched(u);
  }

  method GetBeside(t: Ip2MacTable, u: Ip2MacTable, req: SendReq, slot: nat)
    returns (status: int, frame: Frame, ghost id: nat)
    requires t.Valid() && u.Valid() && req.Valid() && Apart(t, u) && slot < t.no
    modifies t.slots[slot], t.slots[slot].nodes
    ensures t.Valid() && u.Valid() && req.Valid() && Apart(t, u)
    ensures status == if old(t.Entries())[slot].queue == [] then -1 else 0
    ensures status == -1 ==> t.Abs() == old(t.Abs())
    ensures status == 0 ==>
      t.Abs() == old(t.Abs()).(entries := old(t.Entries())[slot := Get(old(t.Entries())[slot])])
    ensures status == 0 ==> Item(id, frame) == old(t.Entries())[slot].queue[0]
    ensures u.Abs() == old(u.Abs()) && req.Abs() == old(req.Abs())
  {
    assert t.slots[slot] in t.slots;
    assert forall k :: 0 <= k < |t.slots[slot].nodes| ==> t.slots[slot].nodes[k] in t.bufs;
    status, frame, id := t.GetFrom(slot);
    Untouched(u);
  }
}
