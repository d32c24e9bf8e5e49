/** One cache entry on the heap with its doubly linked queue of waiting frames (router/sendBuf.c). */
module SendBuf {
  import opened Bytes
  import opened Frames
  import opened Cache

  /** A queue node. `owner` and `id` exist for the proof only: a node belongs to one entry for good. */
  class DataBuf {
    var next: DataBuf?
    var before: DataBuf?
    const size: nat
    const data: Frame
    ghost const id: nat
    ghost const owner: Ip2Mac

    constructor (data: Frame, ghost id: nat, ghost owner: Ip2Mac)
      ensures next == null && before == null
      ensures this.data == data && size == |data| && this.id == id && this.owner == owner
    {
      next, before := null, null;
      size, this.data, this.id, this.owner := |data|, data, id, owner;
    }
  }

  ghost function Items(nodes: seq<DataBuf>): seq<Item> {
    seq(|nodes|, i requires 0 <= i < |nodes| => Item(nodes[i].id, nodes[i].data))
  }

  class Ip2Mac {
    var flag: Flag
    var deviceNo: int
    var addr: Addr
    var hwaddr: Mac
    var lastTime: int
    var top: DataBuf?
    var bottom: DataBuf?
    var dno: U64
    var inBucketSize: U64
    ghost var nodes: seq<DataBuf>
    ghost const home: int  // the device whose table the entry lives in

    /** `top` and `bottom` are the ends of a list that `next` and `before` link in both directions. */
    ghost predicate Valid()
      reads this, nodes
    {
      && (forall i :: 0 <= i < |nodes| ==> nodes[i].owner == this && nodes[i].size == |nodes[i].data|)
      && (forall i, j :: 0 <= i < j < |nodes| ==> nodes[i] != nodes[j])
      && (|nodes| == 0 ==> top == null && bottom == null)
      && (|nodes| > 0 ==> top == nodes[0] && bottom == nodes[|nodes| - 1] && top.before == null && bottom.next == null)
      && (forall i, j :: 0 <= i < |nodes| && 0 <= j < |nodes| && j == i + 1 ==>
            nodes[i].next == nodes[j] && nodes[j].before == nodes[i])
    }

    ghost function Abs(): Entry
      reads this
    {
      Entry(flag, deviceNo, addr, hwaddr, lastTime, Items(nodes), dno, inBucketSize)
    }

    /** The storage of an entry before it is first used: its contents are arbitrary, here those of a free one. */
    constructor (ghost home: int)
      ensures Valid() && nodes == [] && this.home == home
    {
      flag, deviceNo, addr, hwaddr, lastTime := Free, 0, [0, 0, 0, 0], ZERO_MAC, 0;
      top, bottom, dno, inBucketSize := null, null, 0, 0;
      nodes := [];
      this.home := home;
    }

    method AppendSendData(data: Frame, ghost id: nat) returns (r: int)
      requires Valid()
      modifies this, nodes
      ensures Valid() && fresh(set n | n in nodes && n !in old(nodes))
      ensures Abs() == Append(old(Abs()), Item(id, data))
      ensures r == if old(inBucketSize) > MAX_BUCKET then -1 else 0
    {
      if inBucketSize > MAX_BUCKET {
        return -1;
      }
      Link(data, id);
      dno := Add64(dno, 1);
      inBucketSize := Add64(inBucketSize, |data|);
      r := 0;
    }

    /** The linking in `AppendSendData`: a new node at the bottom. */
    method Link(data: Frame, ghost id: nat)
      requires Valid()
      modifies this`top, this`bottom, this`nodes, nodes
      ensures Valid() && fresh(set n | n in nodes && n !in old(nodes))
      ensures Items(nodes) == Items(old(nodes)) + [Item(id, data)]
    {
      var d := new DataBuf(data, id, this);
      if bottom == null {
        top, bottom := d, d;
      } else {
        bottom.next := d;
        d.before := bottom;
        bottom := d;
      }
      nodes := nodes + [d];
    }

    method GetSendData() returns (r: int, data: Frame, ghost id: nat)
      requires Valid()
      modifies this, nodes
      ensures Valid() && forall n :: n in nodes ==> n in old(nodes)
      ensures r == if old(Abs()).queue == [] then -1 else 0
      ensures r == -1 ==> Abs() == old(Abs()) && nodes == old(nodes)
      ensures r == 0 ==> Abs() == Get(old(Abs())) && Item(id, data) == old(Abs()).queue[0]
    {
      r, data, id := -1, [], 0;
      if top != null {
        ghost var was := Abs();
        var d := Unlink();
        assert was.queue[0] == Item(d.id, d.data) && Items(nodes) == was.queue[1..];
        dno := Sub64(dno, 1);
        inBucketSize := Sub64(inBucketSize, d.size);
        r, data, id := 0, d.data, d.id;
      }
    }

    /** The unlinking in `GetSendData`: the first node leaves the list. */
    method Unlink() returns (d: DataBuf)
      requires Valid() && top != null
      modifies this`top, this`bottom, this`nodes, nodes
      ensures Valid() && forall n :: n in nodes ==> n in old(nodes)
      ensures |Items(old(nodes))| > 0 && Items(old(nodes))[0] == Item(d.id, d.data) && d.size == |d.data|
      ensures Items(nodes) == Items(old(nodes))[1..]
    {
      d := top;
      assert d == nodes[0] && d.next == if |nodes| == 1 then null else nodes[1];
      top := d.next;
      if top == null {
        bottom := null;
      } else {
        top.before := null;
      }
      nodes := nodes[1..];
    }

    /** Nothing happens to an empty queue; otherwise the nodes are let go, and both counters keep their value. */
    method FreeSendData()
      requires Valid()
      modifies this
      ensures Valid() && nodes == [] && Abs() == Emptied(old(Abs()))
    {
      if top == null {
        return;
      }
      top, bottom := null, null;
      nodes := [];
    }

    /** One turn of the loop in `Ip2MacSearch`: either the scan stops at this entry, refreshing it and recording
        the MAC address if one is given, or the entry is given up when it is stale. */
    method Visit(addr: Addr, hwaddr: Option<Mac>, now: int) returns (stop: bool)
      requires Valid()
      modifies this
      ensures Valid() && (nodes == old(nodes) || nodes == [])
      ensures stop <==> Hit(old(Abs()), addr, hwaddr, now)
      ensures Abs() == if stop then Touched(old(Abs()), hwaddr, now) else Sweep(old(Abs()), now)
    {
      stop := false;
      if flag != Free {
        var mine := this.addr == addr;
        if mine && flag == Ok {
          lastTime := now;
        }
        if mine && hwaddr.Some? {
          this.hwaddr := hwaddr.value;
          flag := Ok;
          stop := true;
        } else if (flag == Ok && now - lastTime > OK_TIMEOUT) || (flag == Ng && now - lastTime > NG_TIMEOUT) {
          FreeSendData();
          flag := Free;
        } else {
          stop := mine;
        }
      }
    }

    /** The tail of `Ip2MacSearch`: the chosen slot becomes a new entry; `memset` clears queue and counters. */
    method Fill(deviceNo: int, addr: Addr, mac: Option<Mac>, now: int)
      modifies this
      ensures Valid() && nodes == [] && Abs() == Fresh(deviceNo, addr, mac, now)
    {
      this.deviceNo := deviceNo;
      this.addr := addr;
      if mac.None? {
        flag := Ng;
        hwaddr := ZERO_MAC;
      } else {
        flag := Ok;
        hwaddr := mac.value;
      }
      lastTime := now;
      top, bottom, dno, inBucketSize := null, null, 0, 0;
      nodes := [];
    }
  }
}
