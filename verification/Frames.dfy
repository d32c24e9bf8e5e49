/** Ethernet frames carrying IPv4, and what forwarding one does to its bytes (router/main.c, router/ip2mac.c). */
module Frames {
  import opened Bytes
  import opened OnesComplement
  import opened ChecksumLoops
  import opened Acceptance

  type Frame = seq<Byte>

  const ETHER_LEN: nat := 14
  const IP_LEN: nat := 20
  const MIN_IP_FRAME: nat := 34

  /** `ihl * 4 - sizeof(struct iphdr)` as an int: negative for an `ihl` below 5. */
  function OptionLen(frame: Frame): int
    requires |frame| >= MIN_IP_FRAME
  {
    (frame[ETHER_LEN] % 0x10) * 4 - IP_LEN
  }

  function HeaderLen(frame: Frame): nat
    requires |frame| >= MIN_IP_FRAME
  {
    if OptionLen(frame) > 0 then IP_LEN + OptionLen(frame) else IP_LEN
  }

  /** The frame holds the Ethernet header, the IP header and all options that `ihl` announces. */
  predicate WholeHeader(frame: Frame) {
    |frame| >= MIN_IP_FRAME && |frame| >= ETHER_LEN + HeaderLen(frame)
  }

  function IpHeader(frame: Frame): (h: seq<Byte>)
    requires WholeHeader(frame)
    ensures |h| >= IP_LEN
  {
    frame[ETHER_LEN..ETHER_LEN + HeaderLen(frame)]
  }

  /** The header's length is the low half of its first byte times four, but never less than 20. */
  lemma HeaderLength(frame: Frame, v: nat, n: nat)
    requires v < 16 && n < 16 && |frame| > 14 && frame[14] == 16 * v + n
    ensures var len := if n <= 5 then 20 else 4 * n;
      && (WholeHeader(frame) <==> |frame| >= 14 + len)
      && (WholeHeader(frame) ==> OptionLen(frame) == 4 * n - 20 && IpHeader(frame) == frame[14..14 + len])
  {
  }

  /** `option` and `optionLen` are what the code extracted from the frame. */
  predicate OptionsOf(frame: Frame, option: seq<Byte>, optionLen: int) {
    && WholeHeader(frame)
    && optionLen == OptionLen(frame) && optionLen <= |option|
    && Prefix(option, optionLen) == frame[MIN_IP_FRAME..ETHER_LEN + HeaderLen(frame)]
  }

  function Ttl(frame: Frame): Byte
    requires |frame| >= MIN_IP_FRAME
  {
    frame[22]
  }

  datatype Verdict = BadChecksum | Expired | RoutedOn

  /** The three-way decision that precedes the choice of the next hop (router/main.c:179-188). */
  function Decide(frame: Frame): Verdict
    requires WholeHeader(frame)
  {
    if !Accepts(IpHeader(frame)) then BadChecksum
    else if Ttl(frame) - 1 == 0 then Expired
    else RoutedOn
  }

  /** The decision, read from the bytes. */
  lemma VerdictByBytes(frame: Frame, v: nat, n: nat)
    requires WholeHeader(frame) && v < 16 && n < 16 && frame[14] == 16 * v + n
    ensures var len := if n <= 5 then 20 else 4 * n;
      && |frame| >= 14 + len
      && (Decide(frame) == BadChecksum <==> Sum(WordsLE(frame[14..14 + len])) % 65535 != 0)
      && (Decide(frame) == Expired <==> Sum(WordsLE(frame[14..14 + len])) % 65535 == 0 && frame[22] == 1)
      && (Decide(frame) == RoutedOn <==> Sum(WordsLE(frame[14..14 + len])) % 65535 == 0 && frame[22] != 1)
  {
    HeaderLength(frame, v, n);
    VerifiesIffDivisible(WordsLE(IpHeader(frame)));
  }

  /** `ttl--` on an unsigned char. */
  function Decrement(ttl: Byte): Byte { (ttl + 0xFF) % 0x100 }

  /** The header after `ttl--; check = 0`. */
  function Aged(h: seq<Byte>): seq<Byte>
    requires |h| >= IP_LEN
  {
    h[8 := Decrement(h[8])][10 := 0][11 := 0]
  }

  /** The header that leaves the router: aged, with the checksum recomputed in full and stored. */
  function Routed(h: seq<Byte>): (r: seq<Byte>)
    requires |h| >= IP_LEN
    ensures |r| == |h|
  {
    Splice(Aged(h), 10, StoreLE(InternetChecksum(WordsLE(Aged(h)))))
  }

  /** The frame as the direct path writes it: both MACs replaced. */
  function Direct(frame: Frame, dst: Mac, src: Mac): (r: Frame)
    requires WholeHeader(frame)
    ensures |r| == |frame|
  {
    dst + src + frame[12..ETHER_LEN] + Routed(IpHeader(frame)) + frame[ETHER_LEN + HeaderLen(frame)..]
  }

  /** The frame as the sender thread writes it: only the destination MAC replaced. */
  function Buffered(frame: Frame, dst: Mac): (r: Frame)
    requires WholeHeader(frame)
    ensures |r| == |frame|
  {
    dst + frame[6..ETHER_LEN] + Routed(IpHeader(frame)) + frame[ETHER_LEN + HeaderLen(frame)..]
  }

  /** Buffering a frame and sending it later differs from forwarding it at once in the source MAC and in
      nothing else; the buffered frame leaves with the source MAC it arrived with. */
  lemma PathEquivalence(frame: Frame, dst: Mac, src: Mac)
    requires WholeHeader(frame)
    ensures Buffered(frame, dst)[..6] == Direct(frame, dst, src)[..6] == dst
    ensures Buffered(frame, dst)[12..] == Direct(frame, dst, src)[12..]
    ensures Buffered(frame, dst)[6..12] == frame[6..12]
    ensures Direct(frame, dst, src)[6..12] == src
  {
    var rest := Routed(IpHeader(frame)) + frame[ETHER_LEN + HeaderLen(frame)..];
    assert frame[6..ETHER_LEN] == frame[6..12] + frame[12..ETHER_LEN];
    assert Buffered(frame, dst) == dst + frame[6..12] + (frame[12..ETHER_LEN] + rest);
    assert Direct(frame, dst, src) == dst + src + (frame[12..ETHER_LEN] + rest);
  }

  /** Forwarding keeps every byte of the IP header except TTL and checksum, lowers the TTL by one modulo 256
      and leaves a header that the next receiver accepts. */
  lemma RoutedHeader(h: seq<Byte>)
    requires |h| >= IP_LEN
    ensures Accepts(Routed(h))
    ensures Routed(h)[8] == Decrement(h[8])
    ensures forall j :: 0 <= j < |h| && j !in {8, 10, 11} ==> Routed(h)[j] == h[j]
  {
    StoredChecksumVerifies(Aged(h), 10);
  }

  /** HC' = ~(~HC + ~m + m') of RFC 1624 section 3. */
  function Incremental(hc: Word, m: Word, m': Word): Word {
    Complement(OnesAdd(OnesAdd(Complement(hc), Complement(m)), m'))
  }

  lemma AgedSum(h: seq<Byte>)
    requires |h| >= IP_LEN
    ensures Sum(WordsLE(Aged(h)))
         == Sum(WordsLE(h)) - Join(h[10], h[11]) - Join(h[8], h[9]) + Join(Decrement(h[8]), h[9])
    ensures |WordsLE(Aged(h))| > 4 && WordsLE(Aged(h))[4] == Join(Decrement(h[8]), h[9])
  {
    var ws, t := WordsLE(h), Decrement(h[8]);
    var ws' := ws[4 := Join(t, h[9])];
    assert WordsLE(Aged(h)) == ws'[5 := 0] by {
      var u, v := WordsLE(Aged(h)), ws'[5 := 0];
      forall i | 0 <= i < |v| ensures u[i] == v[i] {
        if i != 4 && i != 5 { assert 2 * i !in {8, 9, 10, 11} && 2 * i + 1 !in {8, 9, 10, 11}; }
      }
    }
    SumUpdate(ws, 4, Join(t, h[9]));
    SumUpdate(ws', 5, 0);
  }

  lemma SumAtLeast(ws: seq<Word>, i: nat)
    requires i < |ws|
    ensures Sum(ws) >= ws[i]
  {
    SumUpdate(ws, i, 0);
  }

  lemma IncrementalIsCanon(hc: Word, m: Word, m': Word)
    requires m' > 0
    ensures Incremental(hc, m, m') == Complement(Canon(0x1_FFFE - hc - m + m'))
  {
    var a := Complement(hc) + Complement(m);
    OnesAddIsCanon(Complement(hc), Complement(m));
    OnesAddIsCanon(Canon(a), m');
    CanonCharacterised(a, Canon(a));
    SameSumPlus(a, Canon(a), m');
    CanonCharacterised(a + m', Canon(a) + m');
  }

  /** Recomputing the checksum from scratch gives exactly what RFC 1624's incremental update gives, for every
      accepted header that is forwarded (TTL other than 1), with no discrepancy between the two zeros. */
  lemma FullEqualsIncremental(h: seq<Byte>)
    requires |h| >= IP_LEN && Accepts(h) && h[8] != 1
    ensures Join(Routed(h)[10], Routed(h)[11])
         == Incremental(Join(h[10], h[11]), Join(h[8], h[9]), Join(Routed(h)[8], Routed(h)[9]))
  {
    var hc, m, m' := Join(h[10], h[11]), Join(h[8], h[9]), Join(Decrement(h[8]), h[9]);
    RoutedFields(h);
    AgedPositive(h);
    assert InternetChecksum(WordsLE(Aged(h))) == Incremental(hc, m, m') by {
      AgedCanon(h);
      IncrementalIsCanon(hc, m, m');
    }
  }

  lemma AgedCanon(h: seq<Byte>)
    requires |h| >= IP_LEN && Accepts(h) && h[8] != 1
    ensures Canon(Sum(WordsLE(Aged(h))))
         == Canon(0x1_FFFE - Join(h[10], h[11]) - Join(h[8], h[9]) + Join(Decrement(h[8]), h[9]))
  {
    AgedSum(h);
    AgedPositive(h);
    AcceptedSum(h);
    FullSameAsIncremental(Sum(WordsLE(h)), Sum(WordsLE(Aged(h))),
                          Join(h[10], h[11]), Join(h[8], h[9]), Join(Decrement(h[8]), h[9]));
  }

  lemma AgedPositive(h: seq<Byte>)
    requires |h| >= IP_LEN && h[8] != 1
    ensures Join(Decrement(h[8]), h[9]) > 0 && Sum(WordsLE(Aged(h))) > 0
  {
    AgedSum(h);
    SumAtLeast(WordsLE(Aged(h)), 4);
  }

  lemma AcceptedSum(h: seq<Byte>)
    requires Accepts(h)
    ensures Sum(WordsLE(h)) % 0xFFFF == 0
  {
    VerifiesIffDivisible(WordsLE(h));
  }

  lemma RoutedFields(h: seq<Byte>)
    requires |h| >= IP_LEN
    ensures Join(Routed(h)[10], Routed(h)[11]) == InternetChecksum(WordsLE(Aged(h)))
    ensures Join(Routed(h)[8], Routed(h)[9]) == Join(Decrement(h[8]), h[9])
  {
    RoutedHeader(h);
    var c := InternetChecksum(WordsLE(Aged(h)));
    assert Routed(h)[10] == c % 0x100 && Routed(h)[11] == c / 0x100;
  }

  lemma FullSameAsIncremental(before: nat, after: nat, hc: Word, m: Word, m': Word)
    requires before % 0xFFFF == 0 && after == before - hc - m + m'
    requires m' > 0 && after > 0
    ensures Canon(after) == Canon(0x1_FFFE - hc - m + m')
  {
    var k := before / 0xFFFF;
    ModEq(0x1_FFFE - hc - m + m', after, 2 - k);
    CanonCharacterised(after, 0x1_FFFE - hc - m + m');
  }

  /** Both paths put the routed header where the received header was. */
  lemma BothPathsRoute(frame: Frame, dst: Mac, src: Mac)
    requires WholeHeader(frame)
    ensures WholeHeader(Direct(frame, dst, src)) && IpHeader(Direct(frame, dst, src)) == Routed(IpHeader(frame))
    ensures WholeHeader(Buffered(frame, dst)) && IpHeader(Buffered(frame, dst)) == Routed(IpHeader(frame))
  {
    RoutedHeader(IpHeader(frame));
    PathEquivalence(frame, dst, src);
    var h, tail := Routed(IpHeader(frame)), frame[ETHER_LEN + HeaderLen(frame)..];
    RoutedInPlace(frame, Direct(frame, dst, src), dst + src + frame[12..ETHER_LEN], tail);
    RoutedInPlace(frame, Buffered(frame, dst), dst + frame[6..ETHER_LEN], tail);
  }

  lemma RoutedInPlace(frame: Frame, out: Frame, front: seq<Byte>, tail: seq<Byte>)
    requires WholeHeader(frame) && |front| == ETHER_LEN
    requires out == front + Routed(IpHeader(frame)) + tail
    ensures WholeHeader(out) && IpHeader(out) == Routed(IpHeader(frame))
  {
    RoutedHeader(IpHeader(frame));
    assert out[ETHER_LEN] == Routed(IpHeader(frame))[0] == frame[ETHER_LEN];
  }

  /** `memcpy(data + at, part, |part|)`. */
  method Memcpy(data: array<Byte>, at: nat, part: seq<Byte>)
    requires at + |part| <= data.Length
    modifies data
    ensures data[..] == Splice(old(data[..]), at, part)
  {
    forall k | 0 <= k < |part| {
      data[at + k] := part[k];
    }
  }

  /** The steps that both paths share, on the IP header at offset 14: `ttl--`, `check = 0`, recompute, store. */
  method AgeInPlace(data: array<Byte>, option: seq<Byte>, optionLen: int, ghost h: seq<Byte>)
    requires data.Length >= MIN_IP_FRAME && optionLen <= |option|
    requires h == data[ETHER_LEN..MIN_IP_FRAME] + Prefix(option, optionLen)
    modifies data
    ensures data[..ETHER_LEN] == old(data[..ETHER_LEN])
    ensures data[ETHER_LEN..MIN_IP_FRAME] == Routed(h)[..IP_LEN]
    ensures data[MIN_IP_FRAME..] == old(data[MIN_IP_FRAME..])
  {
    data[22] := Decrement(data[22]);
    data[24], data[25] := 0, 0;
    var iphdr := data[ETHER_LEN..MIN_IP_FRAME];
    assert iphdr == Aged(h)[..IP_LEN];
    var sum, _ := Checksum2(iphdr, IP_LEN, option, optionLen);
    HeaderChecksum(iphdr, Prefix(option, optionLen), h);
    data[24], data[25] := sum % 0x100, sum / 0x100;
    assert data[ETHER_LEN..MIN_IP_FRAME] == Splice(iphdr, 10, StoreLE(sum));
  }

  lemma HeaderChecksum(iphdr: seq<Byte>, options: seq<Byte>, h: seq<Byte>)
    requires |iphdr| == IP_LEN && |h| == IP_LEN + |options| && h[IP_LEN..] == options
    requires iphdr == Aged(h)[..IP_LEN]
    ensures InternetChecksum(TwoPartWords(iphdr[..IP_LEN], options)) == InternetChecksum(WordsLE(Aged(h)))
    ensures var c := InternetChecksum(WordsLE(Aged(h)));
      Routed(h) == Splice(iphdr, 10, StoreLE(c)) + options
  {
    var c := InternetChecksum(WordsLE(Aged(h)));
    assert Aged(h)[IP_LEN..] == h[IP_LEN..];
    assert Aged(h) == iphdr + options;
    assert Routed(h) == Splice(iphdr, 10, StoreLE(c)) + options by { SpliceFront(iphdr, options, 10, StoreLE(c)); }
    assert iphdr[..IP_LEN] == iphdr;
    TwoPartsIffConcatenation(iphdr, options);
  }

  lemma SpliceFront(a: seq<Byte>, b: seq<Byte>, at: nat, part: seq<Byte>)
    requires at + |part| <= |a|
    ensures Splice(a + b, at, part) == Splice(a, at, part) + b
  {
  }

  /** The direct path (router/main.c:229-235), in the receive buffer itself. */
  method RewriteDirect(data: array<Byte>, size: nat, option: seq<Byte>, optionLen: int, hwaddr: Mac, own: Mac)
    requires size <= data.Length && OptionsOf(data[..size], option, optionLen)
    modifies data
    ensures data[..size] == Direct(old(data[..size]), hwaddr, own)
    ensures data[size..] == old(data[size..])
  {
    ghost var frame, stale := data[..size], data[size..];
    ghost var h := IpHeader(frame);
    assert data[..] == frame + stale;
    assert h == frame[ETHER_LEN..MIN_IP_FRAME] + frame[MIN_IP_FRAME..ETHER_LEN + HeaderLen(frame)];
    Memcpy(data, 0, hwaddr);
    Memcpy(data, 6, own);
    NewMacs(frame, stale, hwaddr, own, data[..]);
    AgeInPlace(data, option, optionLen, h);
    Joined(data[..], data[..ETHER_LEN], data[ETHER_LEN..MIN_IP_FRAME], data[MIN_IP_FRAME..]);
    ghost var front := hwaddr + own + frame[12..ETHER_LEN];
    Reassemble(frame, front, stale);
    assert data[..] == Direct(frame, hwaddr, own) + stale;
  }

  lemma NewMacs(frame: Frame, stale: seq<Byte>, dst: Mac, src: Mac, now: seq<Byte>)
    requires |frame| >= MIN_IP_FRAME
    requires now == Splice(Splice(frame + stale, 0, dst), 6, src)
    ensures now[..ETHER_LEN] == dst + src + frame[12..ETHER_LEN]
    ensures now[ETHER_LEN..MIN_IP_FRAME] == frame[ETHER_LEN..MIN_IP_FRAME]
    ensures now[MIN_IP_FRAME..] == frame[MIN_IP_FRAME..] + stale
  {
    assert now == dst + src + frame[12..] + stale;
  }

  lemma Joined(all: seq<Byte>, a: seq<Byte>, b: seq<Byte>, c: seq<Byte>)
    requires |all| == |a| + |b| + |c|
    requires all[..|a|] == a && all[|a|..|a| + |b|] == b && all[|a| + |b|..] == c
    ensures all == a + b + c
  {
  }

  lemma Reassemble(frame: Frame, front: seq<Byte>, stale: seq<Byte>)
    requires WholeHeader(frame)
    ensures front + Routed(IpHeader(frame))[..IP_LEN] + (frame[MIN_IP_FRAME..] + stale)
         == front + Routed(IpHeader(frame)) + frame[ETHER_LEN + HeaderLen(frame)..] + stale
  {
    RoutedTail(frame);
    var r, o, t := Routed(IpHeader(frame))[..IP_LEN], frame[MIN_IP_FRAME..ETHER_LEN + HeaderLen(frame)],
                   frame[ETHER_LEN + HeaderLen(frame)..];
    assert front + r + (o + t + stale) == front + (r + o) + t + stale;
  }

  lemma RoutedTail(frame: Frame)
    requires WholeHeader(frame)
    ensures Routed(IpHeader(frame))
         == Routed(IpHeader(frame))[..IP_LEN] + frame[MIN_IP_FRAME..ETHER_LEN + HeaderLen(frame)]
    ensures frame[MIN_IP_FRAME..]
         == frame[MIN_IP_FRAME..ETHER_LEN + HeaderLen(frame)] + frame[ETHER_LEN + HeaderLen(frame)..]
  {
    RoutedHeader(IpHeader(frame));
  }

  /** The sender thread's path (router/ip2mac.c:174-197), in the buffered copy. */
  method RewriteBuffered(data: array<Byte>, hwaddr: Mac)
    requires WholeHeader(data[..])
    modifies data
    ensures data[..] == Buffered(old(data[..]), hwaddr)
  {
    ghost var frame := data[..];
    ghost var h := IpHeader(frame);
    assert h == frame[ETHER_LEN..MIN_IP_FRAME] + frame[MIN_IP_FRAME..ETHER_LEN + HeaderLen(frame)];
    var optionLen := OptionLen(data[..]);
    var option := if optionLen > 0 then data[MIN_IP_FRAME..MIN_IP_FRAME + optionLen] else [];
    Memcpy(data, 0, hwaddr);
    NewMac(frame, hwaddr, data[..]);
    AgeInPlace(data, option, optionLen, h);
    Joined(data[..], data[..ETHER_LEN], data[ETHER_LEN..MIN_IP_FRAME], data[MIN_IP_FRAME..]);
    Reassemble(frame, hwaddr + frame[6..ETHER_LEN], []);
    assert frame[MIN_IP_FRAME..] + [] == frame[MIN_IP_FRAME..];
    assert Buffered(frame, hwaddr) + [] == Buffered(frame, hwaddr);
  }

  lemma NewMac(frame: Frame, dst: Mac, now: seq<Byte>)
    requires |frame| >= MIN_IP_FRAME && now == Splice(frame, 0, dst)
    ensures now[..ETHER_LEN] == dst + frame[6..ETHER_LEN]
    ensures now[ETHER_LEN..MIN_IP_FRAME] == frame[ETHER_LEN..MIN_IP_FRAME]
    ensures now[MIN_IP_FRAME..] == frame[MIN_IP_FRAME..]
  {
    assert now == dst + frame[6..];
  }
}
