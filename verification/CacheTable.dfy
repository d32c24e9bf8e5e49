/** The growable array of cache entries of one device and the single scan that serves it (router/ip2mac.c:34-138). */
module CacheTable {
  import opened Bytes
  import opened Frames
  import opened Cache
  import opened RouterSystem
  import opened SendBuf
  import opened SendReqQueue

  class Ip2MacTable {
    const dev: Dev
    var data: array<Ip2Mac?>
    var size: nat
    var no: nat
    ghost var slots: seq<Ip2Mac>  // the first `no` elements of `data`
    ghost var bufs: set<DataBuf>  // every queue node that any of them may hold

    ghost predicate Shape()
      reads this, data
    {
      && data.Length == size && no == |slots| <= size
      && (forall i :: 0 <= i < no ==> data[i] == slots[i])
      && (forall i :: 0 <= i < no ==> slots[i].home == dev)
      && (forall i, j :: 0 <= i < j < no ==> slots[i] != slots[j])
    }

    ghost predicate Holds(e: Ip2Mac)
      reads this`bufs, e
    {
      forall k :: 0 <= k < |e.nodes| ==> e.nodes[k] in bufs
    }

    ghost predicate Valid()
      reads this, data, slots, bufs
    {
      Shape() && forall i :: 0 <= i < no ==> Holds(slots[i]) && slots[i].Valid()
    }

    ghost function Entries(): (es: seq<Entry>)
      reads this`slots, slots
      ensures |es| == |slots|
    {
      var cells := slots;
      seq(|cells|, i requires 0 <= i < |cells| reads cells => cells[i].Abs())
    }

    ghost function Abs(): Table
      reads this, slots
    {
      Table(Entries(), size)
    }

    constructor (dev: Dev)
      ensures Valid() && Abs() == EMPTY && this.dev == dev && fresh(data) && slots == [] && bufs == {}
    {
      this.dev := dev;
      data := new Ip2Mac?[0];
      size, no, slots, bufs := 0, 0, [], {};
    }

    method Visit(i: nat, addr: Addr, hwaddr: Option<Mac>, now: int) returns (stop: bool)
      requires Valid() && i < no
      modifies slots[i]
      ensures Valid() && (stop <==> Hit(old(Entries())[i], addr, hwaddr, now))
      ensures Entries() == old(Entries())[i := if stop then Touched(old(Entries())[i], hwaddr, now)
                                               else Sweep(old(Entries())[i], now)]
    {
      stop := data[i].Visit(addr, hwaddr, now);
    }

    /** `malloc` for the first 1024 slots or `realloc` for 1024 more. */
    method Grow()
      requires Valid() && no == size
      modifies this`size, this`data
      ensures Valid() && fresh(data) && size == old(size) + GROWTH && slots == old(slots) && no == old(no)
      ensures Entries() == old(Entries()) && bufs == old(bufs)
    {
      var bigger := new Ip2Mac?[size + GROWTH](_ => null);
      forall k | 0 <= k < size {
        bigger[k] := data[k];
      }
      size := size + GROWTH;
      data := bigger;
    }

    /** `no++`: one more slot of the array comes into use. */
    method AddSlot()
      requires Valid() && no < size
      modifies this`no, this`slots, data
      ensures Valid() && data == old(data) && size == old(size)
      ensures no == old(no) + 1 && slots == old(slots) + [slots[old(no)]] && fresh(slots[old(no)])
      ensures Entries()[..old(no)] == old(Entries()) && slots[old(no)].nodes == [] && bufs == old(bufs)
    {
      var e := new Ip2Mac(dev);
      data[no] := e;
      slots := slots + [e];
      no := no + 1;
    }

    method Fill(slot: nat, addr: Addr, hwaddr: Option<Mac>, now: int)
      requires Valid() && slot < no
      modifies slots[slot]
      ensures Valid() && Entries() == old(Entries())[slot := Fresh(dev, addr, hwaddr, now)]
    {
      data[slot].Fill(dev, addr, hwaddr, now);
    }

    /** The scan: up to the first hit, or through the whole table; stale entries on the way are given up, and the
        first free slot is remembered. */
    method Scan(addr: Addr, hwaddr: Option<Mac>, now: int) returns (i: nat, freeNo: int)
      requires Valid()
      modifies slots
      ensures Valid() && |old(Entries())| == no
      ensures i == FirstHit(old(Entries()), addr, hwaddr, now, 0)
      ensures i == no ==> freeNo == if FirstFree(Entries(), 0) == no then -1 else FirstFree(Entries(), 0)
      ensures Entries() == if i == no then Swept(old(Entries()), i, now)
                           else Swept(old(Entries()), i, now)[i := Touched(old(Entries())[i], hwaddr, now)]
    {
      ghost var es := Entries();
      i, freeNo := 0, -1;
      var stop := false;
      assert Swept(es, 0, now) == es;
      while i < no && !stop
        invariant i <= no == |es| && Valid()
        invariant InScan(es, Entries(), i, stop, freeNo, addr, hwaddr, now)
        decreases no - i, !stop
      {
        ghost var cur := Entries();
        stop := Visit(i, addr, hwaddr, now);
        assert Entries()[i] == slots[i].Abs();
        var isFree := data[i].flag == Free;
        ScanTurn(es, cur, i, freeNo, addr, hwaddr, now);
        if !stop {
          if isFree && freeNo == -1 {
            freeNo := i;
          }
          i := i + 1;
        }
      }
      ScanDone(es, Entries(), i, stop, freeNo, addr, hwaddr, now);
    }

    /** Returns the index of the slot found or made for the address, and asks the sender thread to drain it when it
        has just been resolved with frames waiting. */
    method Ip2MacSearch(addr: Addr, hwaddr: Option<Mac>, now: int, req: SendReq) returns (found: nat)
      requires Valid() && req.Valid()
      modifies this, data, slots, req, req.Repr
      ensures Valid() && req.Valid()
      ensures var r := Search(old(Abs()), dev, addr, hwaddr, now);
        && Abs() == r.table && found == r.slot
        && req.Abs() == if r.wake then Request(old(req.Abs()), Req(dev, found)) else old(req.Abs())
      ensures bufs == old(bufs) && (data == old(data) || fresh(data))
      ensures forall e :: e in slots ==> e in old(slots) || fresh(e)
      ensures fresh(req.Repr - old(req.Repr))
    {
      WakeIff(Abs(), dev, addr, hwaddr, now);
      found := SearchTable(addr, hwaddr, now);
      Wake(found, hwaddr, req);
    }

    /** `AppendSendReqData`, if the entry just recorded has frames waiting; the table is not affected. */
    method Wake(slot: nat, hwaddr: Option<Mac>, req: SendReq)
      requires Valid() && req.Valid() && slot < no
      modifies req, req.Repr
      ensures Valid() && req.Valid() && Entries() == old(Entries())
      ensures req.Abs() == if hwaddr.Some? && old(Entries())[slot].queue != []
                           then Request(old(req.Abs()), Req(dev, slot)) else old(req.Abs())
      ensures fresh(req.Repr - old(req.Repr))
    {
      assert Entries()[slot] == slots[slot].Abs();
      if hwaddr.Some? && data[slot].top != null {
        var _ := req.AppendSendReqData(dev, slot);
      }
    }

    method SearchTable(addr: Addr, hwaddr: Option<Mac>, now: int) returns (found: nat)
      requires Valid()
      modifies this, data, slots
      ensures Valid()
      ensures var r := Search(old(Abs()), dev, addr, hwaddr, now); Abs() == r.table && found == r.slot
      ensures bufs == old(bufs) && (data == old(data) || fresh(data))
      ensures forall e :: e in slots ==> e in old(slots) || fresh(e)
    {
      ghost var t := Abs();
      var freeNo;
      found, freeNo := Scan(addr, hwaddr, now);
      if found < no {
        SearchHits(t, dev, addr, hwaddr, now, Entries());
      } else {
        SearchMisses(t, dev, addr, hwaddr, now, Entries(), freeNo);
        found := Insert(freeNo, addr, hwaddr, now);
      }
    }

    /** The part of `Ip2MacSearch` after the scan: the first free slot, or a new one, takes the address. */
    method Insert(freeNo: int, addr: Addr, hwaddr: Option<Mac>, now: int) returns (slot: nat)
      requires Valid() && -1 <= freeNo < no
      modifies this, data, slots
      ensures Valid() && slot == if freeNo == -1 then old(no) else freeNo
      ensures Entries() == if freeNo == -1 then old(Entries()) + [Fresh(dev, addr, hwaddr, now)]
                           else old(Entries())[freeNo := Fresh(dev, addr, hwaddr, now)]
      ensures size == if freeNo == -1 && old(no) >= old(size) then old(size) + GROWTH else old(size)
      ensures bufs == old(bufs) && (data == old(data) || fresh(data))
      ensures forall e :: e in slots ==> e in old(slots) || fresh(e)
    {
      if freeNo == -1 {
        slot := no;
        if no >= size {
          Grow();
        }
        AddSlot();
      } else {
        slot := freeNo;
      }
      Fill(slot, addr, hwaddr, now);
    }

    /** The nodes of different slots are different, so changing one slot's list leaves the others alone. */
    lemma NodesApart(i: nat)
      requires Valid() && i < no
      ensures forall j, a, b :: 0 <= j < no && j != i && 0 <= a < |slots[i].nodes| && 0 <= b < |slots[j].nodes| ==>
        slots[i].nodes[a] != slots[j].nodes[b]
    {
      forall j, a, b | 0 <= j < no && j != i && 0 <= a < |slots[i].nodes| && 0 <= b < |slots[j].nodes|
        ensures slots[i].nodes[a] != slots[j].nodes[b]
      {
        assert slots[i].nodes[a].owner == slots[i] && slots[j].nodes[b].owner == slots[j];
      }
    }

    /** `AppendSendData` on slot `slot`. */
    method AppendTo(slot: nat, data: Frame, ghost id: nat)
      requires Valid() && slot < no
      modifies this`bufs, slots[slot], slots[slot].nodes
      ensures Valid() && Entries() == old(Entries())[slot := Append(old(Entries())[slot], Item(id, data))]
      ensures forall n :: n in bufs ==> n in old(bufs) || fresh(n)
    {
      AppendOnly(slot, data, id);
      NoteNodes(slot);
    }

    method AppendOnly(slot: nat, data: Frame, ghost id: nat)
      requires Valid() && slot < no
      modifies slots[slot], slots[slot].nodes
      ensures ValidBut(slot) && Entries() == old(Entries())[slot := Append(old(Entries())[slot], Item(id, data))]
      ensures forall k :: 0 <= k < |slots[slot].nodes| ==> slots[slot].nodes[k] in bufs || fresh(slots[slot].nodes[k])
    {
      NodesApart(slot);
      ghost var was := set n | n in slots[slot].nodes;
      var _ := this.data[slot].AppendSendData(data, id);
      forall k | 0 <= k < |slots[slot].nodes|
        ensures slots[slot].nodes[k] in bufs || fresh(slots[slot].nodes[k])
      {
        assert slots[slot].nodes[k] in was || fresh(slots[slot].nodes[k]);
      }
    }

    /** All is well except that slot `slot` may hold nodes not yet in `bufs`. */
    ghost predicate ValidBut(slot: nat)
      requires slot < |slots|
      reads this, data, slots, bufs, slots[slot].nodes
    {
      Shape() && slots[slot].Valid() && forall i :: 0 <= i < no && i != slot ==> Holds(slots[i]) && slots[i].Valid()
    }

    ghost method NoteNodes(slot: nat)
      requires slot < |slots| && ValidBut(slot)
      modifies this`bufs
      ensures Valid() && Entries() == old(Entries())
      ensures forall n :: n in bufs ==> n in old(bufs) || n in slots[slot].nodes
      ensures old(bufs) <= bufs
    {
      var all := set n | n in slots[slot].nodes;
      assert forall k :: 0 <= k < |slots[slot].nodes| ==> slots[slot].nodes[k] in all;
      bufs := bufs + all;
    }

    /** `GetSendData` on slot `slot`. */
    method GetFrom(slot: nat) returns (r: int, data: Frame, ghost id: nat)
      requires Valid() && slot < no
      modifies slots[slot], slots[slot].nodes
      ensures Valid() && r == if old(Entries())[slot].queue == [] then -1 else 0
      ensures r == -1 ==> Entries() == old(Entries())
      ensures r == 0 ==> Entries() == old(Entries())[slot := Get(old(Entries())[slot])]
      ensures r == 0 ==> Item(id, data) == old(Entries())[slot].queue[0]
    {
      NodesApart(slot);
      var e := this.data[slot];
      r, data, id := e.GetSendData();
      assert forall k :: 0 <= k < |e.nodes| ==> e.nodes[k] in e.nodes;
      assert Holds(e);
      assert forall j :: 0 <= j < no && j != slot ==> slots[j].Valid();
    }
  }

  /** Where the scan stands: entries before `i` are swept, entry `i` is touched if the scan has stopped there, and
      `freeNo` is the first free slot met. */
  ghost predicate InScan(es: seq<Entry>, cur: seq<Entry>, i: nat, stop: bool, freeNo: int,
                         addr: Addr, mac: Option<Mac>, now: int)
  {
    && i <= |es| && (stop ==> i < |es| && Hit(es[i], addr, mac, now))
    && cur == (if stop then Swept(es, i, now)[i := Touched(es[i], mac, now)] else Swept(es, i, now))
    && (forall j :: 0 <= j < i ==> !Hit(es[j], addr, mac, now))
    && -1 <= freeNo < i
    && (forall j :: 0 <= j < (if freeNo == -1 then i else freeNo) ==> Sweep(es[j], now).Live())
    && (freeNo != -1 ==> !Sweep(es[freeNo], now).Live())
  }

  lemma ScanTurn(es: seq<Entry>, cur: seq<Entry>, i: nat, freeNo: int, addr: Addr, mac: Option<Mac>, now: int)
    requires InScan(es, cur, i, false, freeNo, addr, mac, now) && i < |es|
    ensures cur[i] == es[i]
    ensures Hit(es[i], addr, mac, now) ==>
      InScan(es, cur[i := Touched(es[i], mac, now)], i, true, freeNo, addr, mac, now)
    ensures !Hit(es[i], addr, mac, now) ==>
      InScan(es, cur[i := Sweep(es[i], now)], i + 1, false,
             if freeNo == -1 && Sweep(es[i], now).flag == Free then i else freeNo, addr, mac, now)
  {
    assert Swept(es, i + 1, now) == Swept(es, i, now)[i := Sweep(es[i], now)];
  }

  lemma ScanDone(es: seq<Entry>, cur: seq<Entry>, i: nat, stop: bool, freeNo: int, addr: Addr, mac: Option<Mac>,
                 now: int)
    requires InScan(es, cur, i, stop, freeNo, addr, mac, now) && (stop || i == |es|)
    ensures i == FirstHit(es, addr, mac, now, 0)
    ensures cur == if i == |es| then Swept(es, i, now) else Swept(es, i, now)[i := Touched(es[i], mac, now)]
    ensures i == |es| ==> freeNo == if FirstFree(cur, 0) == |es| then -1 else FirstFree(cur, 0)
  {
    if !stop { FreeAt(cur, if freeNo == -1 then |es| else freeNo); }
    HitAt(es, addr, mac, now, i);
  }

  lemma WakeIff(t: Table, d: int, addr: Addr, mac: Option<Mac>, now: int)
    ensures var r := Search(t, d, addr, mac, now);
      r.wake <==> mac.Some? && r.table.entries[r.slot].queue != []
  {
  }

  lemma SearchHits(t: Table, d: int, addr: Addr, mac: Option<Mac>, now: int, scanned: seq<Entry>)
    requires var h := FirstHit(t.entries, addr, mac, now, 0);
      h < |t.entries| && scanned == Swept(t.entries, h, now)[h := Touched(t.entries[h], mac, now)]
    ensures var h := FirstHit(t.entries, addr, mac, now, 0);
      Search(t, d, addr, mac, now) == Found(Table(scanned, t.size), h, mac.Some? && scanned[h].queue != [])
  {
  }

  lemma SearchMisses(t: Table, d: int, addr: Addr, mac: Option<Mac>, now: int, scanned: seq<Entry>, freeNo: int)
    requires FirstHit(t.entries, addr, mac, now, 0) == |t.entries| && scanned == Swept(t.entries, |t.entries|, now)
    requires freeNo == if FirstFree(scanned, 0) == |scanned| then -1 else FirstFree(scanned, 0)
    ensures Search(t, d, addr, mac, now) ==
      if freeNo == -1 then
        Found(Table(scanned + [Fresh(d, addr, mac, now)],
                    if |scanned| >= t.size then t.size + GROWTH else t.size), |scanned|, false)
      else Found(Table(scanned[freeNo := Fresh(d, addr, mac, now)], t.size), freeNo, false)
  {
  }

  lemma HitAt(es: seq<Entry>, addr: Addr, mac: Option<Mac>, now: int, i: nat)
    requires i <= |es| && (i < |es| ==> Hit(es[i], addr, mac, now))
    requires forall j :: 0 <= j < i ==> !Hit(es[j], addr, mac, now)
    ensures FirstHit(es, addr, mac, now, 0) == i
  {
  }

  lemma FreeAt(es: seq<Entry>, i: nat)
    requires i <= |es| && (i < |es| ==> !es[i].Live())
    requires forall j :: 0 <= j < i ==> es[j].Live()
    ensures FirstFree(es, 0) == i
  {
  }
}
