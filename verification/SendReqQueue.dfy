/** The request queue between the two threads: a doubly linked list without duplicates (router/ip2mac.c:206-288). */
module SendReqQueue {
  import opened RouterSystem

  class SendReqData {
    var next: SendReqData?
    var before: SendReqData?
    const deviceNo: Dev
    const ip2macNo: nat

    constructor (deviceNo: Dev, ip2macNo: nat)
      ensures next == null && before == null && this.deviceNo == deviceNo && this.ip2macNo == ip2macNo
    {
      next, before := null, null;
      this.deviceNo, this.ip2macNo := deviceNo, ip2macNo;
    }
  }

  ghost function Pairs(nodes: seq<SendReqData>): seq<Req> {
    seq(|nodes|, i requires 0 <= i < |nodes| => Req(nodes[i].deviceNo, nodes[i].ip2macNo))
  }

  class SendReq {
    var top: SendReqData?
    var bottom: SendReqData?
    ghost var nodes: seq<SendReqData>
    ghost var Repr: set<SendReqData>  // all nodes that are or were in the queue

    ghost predicate Valid()
      reads this, Repr
    {
      && (forall i :: 0 <= i < |nodes| ==> nodes[i] in Repr)
      && (forall i, j :: 0 <= i < j < |nodes| ==> nodes[i] != nodes[j])
      && (|nodes| == 0 ==> top == null && bottom == null)
      && (|nodes| > 0 ==> top == nodes[0] && bottom == nodes[|nodes| - 1] && top.before == null && bottom.next == null)
      && (forall i, j :: 0 <= i < |nodes| && 0 <= j < |nodes| && j == i + 1 ==>
            nodes[i].next == nodes[j] && nodes[j].before == nodes[i])
    }

    ghost function Abs(): seq<Req>
      reads this
    {
      Pairs(nodes)
    }

    constructor ()
      ensures Valid() && Abs() == []
    {
      top, bottom := null, null;
      nodes, Repr := [], {};
    }

    /** 1 when the pair is already queued, 0 when it has been added. */
    method AppendSendReqData(deviceNo: Dev, ip2macNo: nat) returns (r: int)
      requires Valid()
      modifies this, Repr
      ensures Valid() && fresh(Repr - old(Repr))
      ensures Abs() == Request(old(Abs()), Req(deviceNo, ip2macNo))
      ensures r == if Req(deviceNo, ip2macNo) in old(Abs()) then 1 else 0
    {
      var d := top;
      ghost var i := 0;
      while d != null
        invariant 0 <= i <= |nodes| && d == if i < |nodes| then nodes[i] else null
        invariant forall j :: 0 <= j < i ==> nodes[j].deviceNo != deviceNo || nodes[j].ip2macNo != ip2macNo
        decreases |nodes| - i
      {
        if d.deviceNo == deviceNo && d.ip2macNo == ip2macNo {
          assert Abs()[i] == Req(deviceNo, ip2macNo);
          return 1;
        }
        d := d.next;
        i := i + 1;
      }
      assert Req(deviceNo, ip2macNo) !in Abs();
      Link(deviceNo, ip2macNo);
      r := 0;
    }

    /** The second half of `AppendSendReqData`: a new node at the bottom. */
    method Link(deviceNo: Dev, ip2macNo: nat)
      requires Valid()
      modifies this, Repr
      ensures Valid() && fresh(Repr - old(Repr))
      ensures Abs() == old(Abs()) + [Req(deviceNo, ip2macNo)]
    {
      var d := new SendReqData(deviceNo, ip2macNo);
      if bottom == null {
        top, bottom := d, d;
      } else {
        bottom.next := d;
        d.before := bottom;
        bottom := d;
      }
      nodes, Repr := nodes + [d], Repr + {d};
      assert Abs() == old(Abs()) + [Req(deviceNo, ip2macNo)];
    }

    method GetSendReqData() returns (r: int, deviceNo: Dev, ip2macNo: nat)
      requires Valid()
      modifies this, Repr
      ensures Valid() && Repr == old(Repr)
      ensures r == if old(Abs()) == [] then -1 else 0
      ensures r == -1 ==> Abs() == old(Abs())
      ensures r == 0 ==> Abs() == old(Abs())[1..] && Req(deviceNo, ip2macNo) == old(Abs())[0]
    {
      if top == null {
        return -1, 0, 0;
      }
      var d := top;
      assert d == nodes[0] && d.next == if |nodes| == 1 then null else nodes[1];
      top := d.next;
      if top == null {
        bottom := null;
      } else {
        top.before := null;
      }
      nodes := nodes[1..];
      return 0, d.deviceNo, d.ip2macNo;
    }
  }
}
