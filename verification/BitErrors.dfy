/** Single-bit errors in a received frame, followed through the header length that the frame itself announces. */
module BitErrors {
  import opened Bytes
  import opened OnesComplement
  import opened ChecksumLoops
  import opened Acceptance
  import opened Frames

  /** The frame with one bit of IP header byte `j` inverted. */
  function Flipped(f: Frame, j: nat, p: nat): (g: Frame)
    requires ETHER_LEN + j < |f| && IsBit(p)
    ensures |g| == |f|
  {
    f[ETHER_LEN + j := FlipBit(f[ETHER_LEN + j], p)]
  }

  /** The bytes between the ends of the two headers, counted as header by one of the frames only. */
  function Between(f: Frame, from: nat, to: nat): (r: seq<Byte>)
    requires from <= to && ETHER_LEN + to <= |f|
    ensures |r| == to - from
  {
    f[ETHER_LEN + from..ETHER_LEN + to]
  }

  lemma FirstByteChanged(h: seq<Byte>, b: Byte)
    requires |h| > 0
    ensures Sum(WordsLE(h[0 := b])) == Sum(WordsLE(h)) + b - h[0]
  {
    var w := ByteUpdate(h, 0, b);
    SumUpdate(WordsLE(h), 0, w);
  }

  /** A frame that differs in the first header byte, and so announces a header of at least the same length: its sum is
      the old one, plus the change of that byte, plus the bytes that it counts in addition. */
  lemma LongerHeader(f: Frame, g: Frame)
    requires WholeHeader(f) && WholeHeader(g) && g == f[ETHER_LEN := g[ETHER_LEN]] && HeaderLen(f) <= HeaderLen(g)
    ensures Sum(WordsLE(IpHeader(g)))
         == Sum(WordsLE(IpHeader(f))) + g[ETHER_LEN] - f[ETHER_LEN]
          + Sum(WordsLE(Between(f, HeaderLen(f), HeaderLen(g))))
  {
    var h, b, more := IpHeader(f), g[ETHER_LEN], Between(f, HeaderLen(f), HeaderLen(g));
    HeaderExtended(f, g);
    ExtendedSum(h, b, more);
  }

  lemma ExtendedSum(h: seq<Byte>, b: Byte, more: seq<Byte>)
    requires |h| > 0 && |h| % 2 == 0
    ensures Sum(WordsLE(h[0 := b] + more)) == Sum(WordsLE(h)) + b - h[0] + Sum(WordsLE(more))
  {
    SumOfParts(h[0 := b], more);
    FirstByteChanged(h, b);
  }

  lemma HeaderExtended(f: Frame, g: Frame)
    requires WholeHeader(f) && WholeHeader(g) && g == f[ETHER_LEN := g[ETHER_LEN]] && HeaderLen(f) <= HeaderLen(g)
    ensures IpHeader(g) == IpHeader(f)[0 := g[ETHER_LEN]] + Between(f, HeaderLen(f), HeaderLen(g))
    ensures |IpHeader(f)| % 2 == 0
  {
  }

  /** What the frame with the longer header counts in addition to the other. */
  function Surplus(f: Frame, g: Frame): int
    requires WholeHeader(f) && WholeHeader(g) && HeaderLen(f) <= HeaderLen(g) && |f| == |g|
  {
    Sum(WordsLE(Between(f, HeaderLen(f), HeaderLen(g)))) + g[ETHER_LEN] - f[ETHER_LEN]
  }

  lemma BothOrSurplus(f: Frame, g: Frame)
    requires WholeHeader(f) && WholeHeader(g) && g == f[ETHER_LEN := g[ETHER_LEN]] && HeaderLen(f) <= HeaderLen(g)
    requires Accepts(IpHeader(f)) || Accepts(IpHeader(g))
    ensures Accepts(IpHeader(f)) && Accepts(IpHeader(g)) <==> Surplus(f, g) % 0xFFFF == 0
  {
    LongerHeader(f, g);
    VerifyTogether(WordsLE(IpHeader(f)), WordsLE(IpHeader(g)), Surplus(f, g));
  }

  lemma VerifyTogether(u: seq<Word>, v: seq<Word>, d: int)
    requires Sum(v) == Sum(u) + d && (Verifies(u) || Verifies(v))
    ensures Verifies(u) && Verifies(v) <==> d % 0xFFFF == 0
  {
    VerifiesIffDivisible(u);
    VerifiesIffDivisible(v);
    Divisible(Sum(u), d);
  }

  lemma Divisible(a: nat, d: int)
    ensures a % 0xFFFF == 0 ==> ((a + d) % 0xFFFF == 0 <==> d % 0xFFFF == 0)
    ensures (a + d) % 0xFFFF == 0 ==> (a % 0xFFFF == 0 <==> d % 0xFFFF == 0)
  {
    if a % 0xFFFF == 0 { ModEq(a + d, d, a / 0xFFFF); }
    if d % 0xFFFF == 0 { ModEq(a + d, a, d / 0xFFFF); }
  }

  lemma SameLength(f: Frame, j: nat, p: nat)
    requires WholeHeader(f) && Accepts(IpHeader(f)) && j < HeaderLen(f) && IsBit(p) && WholeHeader(Flipped(f, j, p))
    requires HeaderLen(Flipped(f, j, p)) == HeaderLen(f)
    ensures !Accepts(IpHeader(Flipped(f, j, p)))
  {
    var h := IpHeader(f);
    assert IpHeader(Flipped(f, j, p)) == h[j := FlipBit(h[j], p)];
    SingleBitErrorDetected(h, j, p);
  }

  lemma OtherLength(f: Frame, j: nat, p: nat)
    requires WholeHeader(f) && ETHER_LEN + j < |f| && IsBit(p) && HeaderLen(Flipped(f, j, p)) != HeaderLen(f)
    ensures j == 0
    ensures var g := Flipped(f, j, p); g == f[ETHER_LEN := g[ETHER_LEN]] && f == g[ETHER_LEN := f[ETHER_LEN]]
  {
  }

  /** A single-bit error in an accepted header is noticed whenever it leaves the header length alone. An error in the
      length itself goes unnoticed exactly if the bytes that become header, or cease to be, make up for it. */
  lemma SingleBitErrorNoticedIff(f: Frame, j: nat, p: nat)
    requires WholeHeader(f) && Accepts(IpHeader(f)) && j < HeaderLen(f) && IsBit(p) && WholeHeader(Flipped(f, j, p))
    ensures var g := Flipped(f, j, p);
      Accepts(IpHeader(g)) <==>
        || (HeaderLen(g) > HeaderLen(f) && Surplus(f, g) % 0xFFFF == 0)
        || (HeaderLen(g) < HeaderLen(f) && Surplus(g, f) % 0xFFFF == 0)
  {
    var g := Flipped(f, j, p);
    if HeaderLen(g) == HeaderLen(f) {
      SameLength(f, j, p);
    } else {
      OtherLength(f, j, p);
      if HeaderLen(g) > HeaderLen(f) { BothOrSurplus(f, g); } else { BothOrSurplus(g, f); }
    }
  }

  /** It does happen: a header without options whose payload begins with these eight bytes is accepted as well with the
      bit of weight 2 in its length inverted, and then has eight bytes of options. */
  lemma UnnoticedLengthError(f: Frame)
    requires |f| >= MIN_IP_FRAME + 8 && f[ETHER_LEN] == 0x45 && Accepts(IpHeader(f))
    requires f[MIN_IP_FRAME..MIN_IP_FRAME + 8] == [0xFD, 0xFF, 0, 0, 0, 0, 0, 0]
    ensures var g := Flipped(f, 0, 2); WholeHeader(g) && g != f && HeaderLen(g) == 28 && Accepts(IpHeader(g))
  {
    FiveBecomesSeven(f);
    EightBytes();
    SurplusIs(f, Flipped(f, 0, 2));
    SingleBitErrorNoticedIff(f, 0, 2);
  }

  lemma FiveBecomesSeven(f: Frame)
    requires |f| >= MIN_IP_FRAME + 8 && f[ETHER_LEN] == 0x45
    ensures WholeHeader(f) && HeaderLen(f) == 20
    ensures var g := Flipped(f, 0, 2); g[ETHER_LEN] == 0x47 && WholeHeader(g) && HeaderLen(g) == 28
  {
    assert FlipBit(0x45, 2) == 0x47;
  }

  lemma SurplusIs(f: Frame, g: Frame)
    requires WholeHeader(f) && WholeHeader(g) && HeaderLen(f) == 20 && HeaderLen(g) == 28 && |f| == |g|
    requires g[ETHER_LEN] == f[ETHER_LEN] + 2
    requires Sum(WordsLE(f[MIN_IP_FRAME..MIN_IP_FRAME + 8])) == 0xFFFD
    ensures Surplus(f, g) == 0xFFFF
  {
  }

  lemma EightBytes()
    ensures Sum(WordsLE([0xFD, 0xFF, 0, 0, 0, 0, 0, 0])) == 0xFFFD
  {
    var data: seq<Byte> := [0xFD, 0xFF, 0, 0, 0, 0, 0, 0];
    var zeros: seq<Word> := [0, 0, 0];
    assert WordsLE(data) == [0xFFFD] + zeros;
    SumConcat([0xFFFD], zeros);
    SumZero(zeros);
    SumSnoc([], 0xFFFD);
    assert [] + [0xFFFD] == [0xFFFD];
  }
}
