/** RFC 1071 section 2(B): the checksum bytes on the wire do not depend on the machine's byte order. */
module ByteOrder {
  import opened Bytes
  import opened OnesComplement
  import opened ChecksumLoops
  import opened Acceptance
  import opened Frames

  /** The words a big-endian machine loads; `memcpy` puts an odd last byte into the high half there. */
  function WordsBE(data: seq<Byte>): seq<Word> {
    seq((|data| + 1) / 2, k requires 0 <= k < (|data| + 1) / 2 =>
        Join(if 2 * k + 1 < |data| then data[2 * k + 1] else 0, data[2 * k]))
  }

  function Swap(w: Word): Word { Join(w / 0x100, w % 0x100) }

  function Shifted(n: nat): nat { 0x100 * n }

  function SwapAll(ws: seq<Word>): seq<Word> {
    seq(|ws|, k requires 0 <= k < |ws| => Swap(ws[k]))
  }

  lemma BigEndianWordsAreSwapped(data: seq<Byte>)
    ensures WordsBE(data) == SwapAll(WordsLE(data))
  {
    var be, le := WordsBE(data), SwapAll(WordsLE(data));
    forall k | 0 <= k < |be| ensures be[k] == le[k] {
      SwapJoin(data[2 * k], if 2 * k + 1 < |data| then data[2 * k + 1] else 0);
    }
  }

  lemma SwapJoin(lo: Byte, hi: Byte)
    ensures Swap(Join(lo, hi)) == Join(hi, lo)
  {
    JoinParts(lo, hi);
  }

  /** Swapping the bytes of a word multiplies it by 256 modulo 65535. */
  lemma SwapSame(w: Word)
    ensures SameSum(Swap(w), Shifted(w))
  {
    ModEq(Shifted(w), Swap(w), w / 0x100);
  }

  lemma SwapOneMore(s: nat, t: nat, w: Word)
    requires SameSum(s, Shifted(t))
    ensures SameSum(s + Swap(w), Shifted(t + w))
  {
    SameSumPlus(s, Shifted(t), Swap(w));
    SwapSame(w);
    SameSumPlus(Swap(w), Shifted(w), Shifted(t));
  }

  lemma {:induction false} SwapAllSame(ws: seq<Word>)
    ensures SameSum(Sum(SwapAll(ws)), Shifted(Sum(ws)))
  {
    if |ws| > 0 {
      var n := |ws| - 1;
      SwapAllSame(ws[..n]);
      assert SwapAll(ws) == SwapAll(ws[..n]) + [Swap(ws[n])];
      SumSnoc(SwapAll(ws[..n]), Swap(ws[n]));
      SwapOneMore(Sum(SwapAll(ws[..n])), Sum(ws[..n]), ws[n]);
    }
  }

  lemma SwapCommutesWithCanon(n: nat)
    ensures Canon(Shifted(n)) == Swap(Canon(n))
  {
    var c := Canon(n);
    CanonCharacterised(n, 0);
    var k := ModDiff(n, c);
    ModEq(Shifted(n), Shifted(c), 0x100 * k);
    SwapSame(c);
    CanonCharacterised(Shifted(n), Swap(c));
    CanonSmall(Swap(c));
  }

  lemma StoreSwapped(w: Word)
    ensures StoreLE(Complement(w)) == StoreBE(Complement(Swap(w)))
  {
    var lo: Byte, hi: Byte := 0xFF - w % 0x100, 0xFF - w / 0x100;
    assert Complement(w) == Join(lo, hi) && Complement(Swap(w)) == Join(hi, lo);
    JoinParts(lo, hi);
    JoinParts(hi, lo);
  }

  lemma JoinParts(lo: Byte, hi: Byte)
    ensures Join(lo, hi) % 0x100 == lo && Join(lo, hi) / 0x100 == hi
  {
    assert Join(lo, hi) == 0x100 * hi + lo;
    var q, r := Join(lo, hi) / 0x100, Join(lo, hi) % 0x100;
    assert 0x100 * (q - hi) == lo - r;
  }

  /** The loop that ends both C functions. */
  function FoldAll(n: nat): Word {
    if n < 0x1_0000 then n else FoldAll(Fold(n))
  }

  lemma {:induction false} FoldAllIsCanon(n: nat)
    ensures FoldAll(n) == Canon(n)
  {
    if n < 0x1_0000 {
      CanonSmall(n);
    } else {
      FoldAllIsCanon(Fold(n));
      FoldSame(n);
      CanonCharacterised(n, Fold(n));
    }
  }

  /** What the C code computes from the words that its machine loads. */
  function LoopResult(ws: seq<Word>): Word { Complement(FoldAll(LazySum(ws))) }

  lemma LoopComputes(ws: seq<Word>)
    ensures LoopResult(ws) == InternetChecksum(ws)
  {
    FoldAllIsCanon(LazySum(ws));
    LazySumSame(ws);
    CanonCharacterised(LazySum(ws), Sum(ws));
  }

  /** Computing with little-endian words and storing little-endian writes the same two bytes as computing
      and storing big-endian, for byte strings of either parity, whether by the closed form or by the loops. */
  lemma ByteOrderIndependence(data: seq<Byte>)
    ensures StoreLE(InternetChecksum(WordsLE(data))) == StoreBE(InternetChecksum(WordsBE(data)))
    ensures StoreLE(LoopResult(WordsLE(data))) == StoreBE(LoopResult(WordsBE(data)))
  {
    LoopComputes(WordsLE(data));
    LoopComputes(WordsBE(data));
    var le, be := Sum(WordsLE(data)), Sum(WordsBE(data));
    BigEndianWordsAreSwapped(data);
    SwapAllSame(WordsLE(data));
    CanonCharacterised(be, Shifted(le));
    SwapCommutesWithCanon(le);
    StoreSwapped(Canon(le));
  }

  // ----- the incremental update in network order -----

  lemma SwapComplement(w: Word)
    ensures Swap(Complement(w)) == Complement(Swap(w))
  {
    JoinParts(0xFF - w % 0x100, 0xFF - w / 0x100);
    assert Complement(w) == Join(0xFF - w % 0x100, 0xFF - w / 0x100);
  }

  lemma SwapOnesAdd(a: Word, b: Word)
    ensures Swap(OnesAdd(a, b)) == OnesAdd(Swap(a), Swap(b))
  {
    OnesAddIsCanon(a, b);
    OnesAddIsCanon(Swap(a), Swap(b));
    SwapCommutesWithCanon(a + b);
    SwapSame(a);
    SwapSame(b);
    SameSumPlus(Swap(a), Shifted(a), Swap(b));
    SameSumPlus(Swap(b), Shifted(b), Shifted(a));
    CanonCharacterised(Shifted(a + b), Swap(a) + Swap(b));
  }

  lemma IncrementalSwaps(hc: Word, m: Word, m': Word)
    ensures Incremental(Swap(hc), Swap(m), Swap(m')) == Swap(Incremental(hc, m, m'))
  {
    var sum := OnesAdd(Complement(hc), Complement(m));
    SwapComplement(hc);
    SwapComplement(m);
    SwapOnesAdd(Complement(hc), Complement(m));
    SwapOnesAdd(sum, m');
    SwapComplement(OnesAdd(sum, m'));
  }

  /** RFC 1624 on the words as they stand in the header, in network order: what the little-endian machine stores is the
      incremental update of the old checksum. */
  lemma FullEqualsIncrementalInNetworkOrder(h: seq<Byte>)
    requires |h| >= IP_LEN && Accepts(h) && h[8] != 1
    ensures Join(Routed(h)[11], Routed(h)[10])
         == Incremental(Join(h[11], h[10]), Join(h[9], h[8]), Join(Routed(h)[9], Routed(h)[8]))
  {
    var r := Routed(h);
    FullEqualsIncremental(h);
    IncrementalSwaps(Join(h[10], h[11]), Join(h[8], h[9]), Join(r[8], r[9]));
    SwapJoin(h[10], h[11]);
    SwapJoin(h[8], h[9]);
    SwapJoin(r[8], r[9]);
    SwapJoin(r[10], r[11]);
  }
}
