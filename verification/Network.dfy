/** A packet on its way through a network of such routers, each in the middle of a run of its own. */
module Network {
  import opened Bytes
  import opened Frames
  import opened RouterSystem
  import opened Arrivals
  import opened MultiHop
  import opened Runs

  /** One router on the way: its configuration, what has happened to it so far, and which of the frames it has
      written is the one that is followed. */
  datatype Station = Station(cfg: Config, evs: seq<Event>, j: nat)

  /** That router was handed `f` for forwarding and has written `g` for it. */
  predicate Relays(st: Station, f: Frame, g: Frame) {
    var run := After(st.cfg, st.evs);
    && run.Some? && st.j < |run.value.sent|
    && var x := run.value.sent[st.j];
    && x.id < |run.value.handed| && run.value.handed[x.id].frame == f && x.bytes == g
  }

  /** `fs[i]` reaches the `i`-th router, which makes `fs[i + 1]` of it. */
  predicate Leg(stations: seq<Station>, fs: seq<Frame>, i: nat)
    requires i < |stations| && |fs| == |stations| + 1
  {
    Relays(stations[i], fs[i], fs[i + 1])
  }

  predicate Travelled(stations: seq<Station>, fs: seq<Frame>) {
    |fs| == |stations| + 1 && forall i :: 0 <= i < |stations| ==> Leg(stations, fs, i)
  }

  /** Whatever the routers have been through, and whether the packet waited in them or not: after `n` of them it is
      the same packet `n` hops further, so it has not been through more than its TTL allows. */
  lemma {:induction false} TravelledFar(stations: seq<Station>, fs: seq<Frame>, n: nat)
    requires Travelled(stations, fs) && n < |fs| && WholeHeader(fs[0]) && Accepted(fs[0])
    ensures AfterHops(fs[0], fs[n], n) && n <= Hops(Ttl(fs[0]))
  {
    if n > 0 {
      TravelledFar(stations, fs, n - 1);
      OneStation(stations, fs, n - 1);
      HopsAdd(fs[0], fs[n - 1], fs[n], n - 1, 1);
    }
  }

  lemma OneStation(stations: seq<Station>, fs: seq<Frame>, i: nat)
    requires Travelled(stations, fs) && i < |stations|
    ensures AfterHops(fs[i], fs[i + 1], 1)
  {
    var st := stations[i];
    assert Leg(stations, fs, i);
    ForwardedIsOneHopFurther(st.cfg, st.evs, st.j);
  }

  lemma HopsAdd(f: Frame, g: Frame, h: Frame, n: nat, m: nat)
    requires AfterHops(f, g, n) && AfterHops(g, h, m)
    ensures AfterHops(f, h, n + m)
  {
  }

  /** A packet that has come `n` hops arrives: the router, in whatever state, answers Time Exceeded to its sender and
      does nothing else exactly if the hops are used up, and passes it on exactly if they are not. */
  lemma ArrivalAfterHops(cfg: Config, s: State, dev: Dev, buf: seq<Byte>, size: nat, now: int, frame: Frame, n: nat)
    requires Received(buf, size) && AfterHops(frame, buf[..size], n)
    requires buf[..6] == Port(cfg, dev).hwaddr && frame[12] == 8 && frame[13] == 0
    ensures var t := Step(cfg, s, Arrival(dev, buf, size, now));
      && (Answered(cfg, s, t, dev, buf) <==> n == Hops(Ttl(frame)))
      && (PassedOn(cfg, s, t, dev, buf[..size], now) <==> n < Hops(Ttl(frame)))
  {
    var g := buf[..size];
    assert buf[12] == g[12] == frame[12] && buf[13] == g[13] == frame[13];
    ExpiresAfterLastHop(frame, g, n);
    IpArrival(cfg, s, dev, buf, size, now);
  }

  /** The whole journey: a packet sent with TTL `t` that is relayed by `n` routers, in any states, reaches each of them
      accepted and unchanged but for TTL and checksum, `n` is at most `t - 1`, and the next router answers Time Exceeded
      exactly if `n == t - 1`, and otherwise passes the packet on. */
  lemma JourneyEnds(stations: seq<Station>, fs: seq<Frame>, cfg: Config, s: State, dev: Dev, buf: seq<Byte>, size: nat,
                    now: int)
    requires Travelled(stations, fs) && WholeHeader(fs[0]) && Accepted(fs[0]) && fs[0][12] == 8 && fs[0][13] == 0
    requires Received(buf, size) && buf[..size] == fs[|stations|] && buf[..6] == Port(cfg, dev).hwaddr
    ensures var n, hops, t := |stations|, Hops(Ttl(fs[0])), Step(cfg, s, Arrival(dev, buf, size, now));
      && n <= hops && (forall i :: 0 <= i <= n ==> AfterHops(fs[0], fs[i], i))
      && (Answered(cfg, s, t, dev, buf) <==> n == hops)
      && (PassedOn(cfg, s, t, dev, buf[..size], now) <==> n < hops)
  {
    forall i | 0 <= i <= |stations| ensures AfterHops(fs[0], fs[i], i) && i <= Hops(Ttl(fs[0])) {
      TravelledFar(stations, fs, i);
    }
    ArrivalAfterHops(cfg, s, dev, buf, size, now, fs[0], |stations|);
  }
}
