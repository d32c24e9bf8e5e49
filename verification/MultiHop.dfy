/** A packet travelling through a chain, or loop, of these routers, each of which routes it onward. */
module MultiHop {
  import opened Bytes
  import opened Acceptance
  import opened Frames

  /** How one router passes the frame on: the MACs it uses and whether the frame waited for its ARP reply. */
  datatype Link = Link(dst: Mac, src: Mac, waited: bool)

  function Hop(frame: Frame, link: Link): (r: Frame)
    requires WholeHeader(frame)
    ensures WholeHeader(r)
  {
    BothPathsRoute(frame, link.dst, link.src);
    if link.waited then Buffered(frame, link.dst) else Direct(frame, link.dst, link.src)
  }

  /** Every frame seen along the chain: the original, then one per router that forwarded it. */
  function Journey(frame: Frame, links: seq<Link>): (fs: seq<Frame>)
    requires WholeHeader(frame)
    ensures |fs| > 0
    decreases |links|
  {
    if |links| == 0 || Decide(frame) != RoutedOn then [frame]
    else [frame] + Journey(Hop(frame, links[0]), links[1..])
  }

  /** Two Ethernet frames of the same type; TTL and checksum are the only IP bytes in which they may differ. */
  predicate SamePacket(f: Frame, g: Frame) {
    && |f| == |g| >= ETHER_LEN && f[12] == g[12] && f[13] == g[13]
    && forall j :: ETHER_LEN <= j < |f| && j != 22 && j != 24 && j != 25 ==> f[j] == g[j]
  }

  /** How often the code will forward a packet with this TTL: it tests only for 1, so 0 counts as 256. */
  function Hops(ttl: Byte): nat { (ttl + 0xFF) % 0x100 }

  /** `g` is what `frame` has become after `n` routers: accepted, the same packet, its TTL lower by `n`. */
  predicate AfterHops(frame: Frame, g: Frame, n: nat) {
    && WholeHeader(frame) && WholeHeader(g)
    && Accepts(IpHeader(g))
    && SamePacket(frame, g)
    && Hops(Ttl(g)) == Hops(Ttl(frame)) - n
  }

  lemma OneHop(frame: Frame, link: Link)
    requires WholeHeader(frame) && Decide(frame) == RoutedOn
    ensures AfterHops(frame, Hop(frame, link), 1)
  {
    var out := Hop(frame, link);
    BothPathsRoute(frame, link.dst, link.src);
    PathEquivalence(frame, link.dst, link.src);
    RoutedHeader(IpHeader(frame));
    TypeKept(frame, link);
    HeaderReplaced(frame, out, IpHeader(frame), IpHeader(out));
  }

  lemma TypeKept(frame: Frame, link: Link)
    requires WholeHeader(frame)
    ensures Hop(frame, link)[12] == frame[12] && Hop(frame, link)[13] == frame[13]
  {
    PathEquivalence(frame, link.dst, link.src);
    var d := Direct(frame, link.dst, link.src);
    assert d[12] == frame[12] && d[13] == frame[13];
    assert Hop(frame, link)[12..][..2] == d[12..][..2];
  }

  lemma HeaderReplaced(frame: Frame, out: Frame, h: seq<Byte>, r: seq<Byte>)
    requires WholeHeader(frame) && Decide(frame) == RoutedOn && h == IpHeader(frame)
    requires WholeHeader(out) && |out| == |frame| && r == IpHeader(out) && |r| == |h|
    requires Accepts(r) && r[8] == Decrement(h[8])
    requires forall j :: 0 <= j < |h| && j !in {8, 10, 11} ==> r[j] == h[j]
    requires out[12] == frame[12] && out[13] == frame[13]
    requires out[ETHER_LEN + |h|..] == frame[ETHER_LEN + |h|..]
    ensures AfterHops(frame, out, 1)
  {
    assert r[8] == Ttl(out) && h[8] == Ttl(frame);
    HopUsed(h[8]);
    SameBytes(frame, out, h, r);
  }

  lemma HopUsed(ttl: Byte)
    requires ttl != 1
    ensures Hops(Decrement(ttl)) == Hops(ttl) - 1
  {
  }

  lemma SameBytes(f: Frame, g: Frame, h: seq<Byte>, r: seq<Byte>)
    requires |f| == |g| >= ETHER_LEN + |h| && |h| == |r|
    requires h == f[ETHER_LEN..ETHER_LEN + |h|] && r == g[ETHER_LEN..ETHER_LEN + |h|]
    requires f[12] == g[12] && f[13] == g[13] && f[ETHER_LEN + |h|..] == g[ETHER_LEN + |h|..]
    requires forall j :: 0 <= j < |h| && j !in {8, 10, 11} ==> r[j] == h[j]
    ensures SamePacket(f, g)
  {
    forall j | ETHER_LEN <= j < |f| && j != 22 && j != 24 && j != 25 ensures f[j] == g[j] {
      var top := ETHER_LEN + |h|;
      if j < top {
        assert r[j - ETHER_LEN] == g[j] && h[j - ETHER_LEN] == f[j];
      } else {
        assert g[top..][j - top] == g[j] && f[top..][j - top] == f[j];
      }
    }
  }

  lemma MoreHops(frame: Frame, next: Frame, g: Frame, n: nat)
    requires AfterHops(frame, next, 1) && AfterHops(next, g, n)
    ensures AfterHops(frame, g, n + 1)
  {
  }

  /** An accepted packet is forwarded exactly `ttl - 1` times (255 times when it arrives with TTL 0), is accepted
      at every hop and stays the same packet; where it expires is stated by `ExpiresAfterLastHop`. */
  lemma {:induction false} ForwardedTtlMinusOneTimes(frame: Frame, links: seq<Link>)
    requires WholeHeader(frame) && Accepts(IpHeader(frame))
    ensures |Journey(frame, links)| - 1 == if |links| < Hops(Ttl(frame)) then |links| else Hops(Ttl(frame))
    ensures forall n :: 0 <= n < |Journey(frame, links)| ==> AfterHops(frame, Journey(frame, links)[n], n)
    ensures Hops(Ttl(frame)) == if Ttl(frame) == 0 then 255 else Ttl(frame) - 1
    decreases |links|
  {
    HopsLeft(Ttl(frame));
    if |links| > 0 && Decide(frame) == RoutedOn {
      var next := Hop(frame, links[0]);
      var rest := Journey(next, links[1..]);
      OneHop(frame, links[0]);
      ForwardedTtlMinusOneTimes(next, links[1..]);
      Prepend(frame, next, rest);
      assert Journey(frame, links) == [frame] + rest;
    }
  }

  lemma HopsLeft(ttl: Byte)
    ensures Hops(ttl) == if ttl == 0 then 255 else ttl - 1
  {
  }

  lemma Prepend(frame: Frame, next: Frame, rest: seq<Frame>)
    requires WholeHeader(frame) && Accepts(IpHeader(frame)) && AfterHops(frame, next, 1)
    requires forall n :: 0 <= n < |rest| ==> AfterHops(next, rest[n], n)
    ensures forall n :: 0 <= n < |[frame] + rest| ==> AfterHops(frame, ([frame] + rest)[n], n)
  {
    forall n | 0 <= n < |[frame] + rest| ensures AfterHops(frame, ([frame] + rest)[n], n) {
      if n > 0 { MoreHops(frame, next, rest[n - 1], n - 1); }
    }
  }

  /** Along the way a frame expires, so that the router answers Time Exceeded instead of forwarding it, exactly
      when it has used up all its hops. */
  lemma ExpiresAfterLastHop(frame: Frame, g: Frame, n: nat)
    requires AfterHops(frame, g, n)
    ensures Decide(g) == Expired <==> n == Hops(Ttl(frame))
    ensures Decide(g) == RoutedOn <==> n < Hops(Ttl(frame))
  {
    assert Hops(Ttl(g)) == 0 <==> Ttl(g) == 1;
  }
}
