/** The Internet checksum loops `checksum` and `checksum2`, with their 32-bit accumulator and lazy folding. */
module ChecksumLoops {
  import opened Bytes
  import opened OnesComplement

  const TWO_16: int := 0x1_0000
  const TWO_32: int := 0x1_0000_0000
  const TOP_BIT: int := 0x8000_0000

  type U32 = x: int | 0 <= x < 0x1_0000_0000

  /** Unsigned 32-bit addition, wrapping round as C's does. */
  function Add32(a: U32, b: U32): U32 { (a + b) % TWO_32 }

  lemma NoWrap(a: U32, b: Word)
    requires a < TOP_BIT
    ensures Add32(a, b) == a + b
  {
  }

  /** `(sum & 0xFFFF) + (sum >> 16)` on a 32-bit register. */
  function Fold32(sum: U32): U32 { Add32(sum % TWO_16, sum / TWO_16) }

  /** `(u_int16_t) ~sum`. */
  function Not16(sum: U32): Word { (TWO_32 - 1 - sum) % TWO_16 }

  /** The 16-bit words that a little-endian machine loads from the bytes; an odd last byte is the low half. */
  function WordsLE(data: seq<Byte>): (ws: seq<Word>) {
    seq((|data| + 1) / 2, k requires 0 <= k < (|data| + 1) / 2 =>
        Join(data[2 * k], if 2 * k + 1 < |data| then data[2 * k + 1] else 0))
  }

  /** The Internet checksum of a sequence of words: the closed form every loop below has to meet. */
  function InternetChecksum(ws: seq<Word>): Word { Complement(Canon(Sum(ws))) }

  /** The two-buffer form, for whatever lengths the C function accepts; `len2` may be zero or negative. */
  function TwoPartWords(data1: seq<Byte>, data2: seq<Byte>): seq<Word>
    requires |data1| % 2 == 1 ==> |data2| > 0
  {
    if |data1| % 2 == 0 then
      WordsLE(data1) + WordsLE(data2)
    else
      WordsLE(data1[..|data1| - 1]) + [Join(data2[0], data1[|data1| - 1])] + WordsLE(data2[1..])
  }

  /** What the accumulator holds after the main loop has consumed `ws`, computed without any bound. */
  function LazySum(ws: seq<Word>): nat {
    if |ws| == 0 then 0
    else
      var s := LazySum(ws[..|ws| - 1]) + ws[|ws| - 1];
      if s >= TOP_BIT then Fold(s) else s
  }

  /** The 32-bit register never overflows: every addition of the loop stays below 2^32, whatever the length. */
  lemma {:induction false} AccumulatorNeverWraps(ws: seq<Word>, w: Word)
    ensures LazySum(ws) < 0x8000_0000
    ensures LazySum(ws) + w < 0x1_0000_0000
  {
    if |ws| > 0 { AccumulatorNeverWraps(ws[..|ws| - 1], ws[|ws| - 1]); }
  }

  lemma {:induction false} LazySumSame(ws: seq<Word>)
    ensures SameSum(LazySum(ws), Sum(ws))
  {
    if |ws| > 0 {
      var init, last := ws[..|ws| - 1], ws[|ws| - 1];
      LazySumSame(init);
      SameSumPlus(LazySum(init), Sum(init), last);
      FoldSame(LazySum(init) + last);
    }
  }

  lemma FoldShrinks(sum: U32)
    requires TWO_16 <= sum < TOP_BIT + TWO_16
    ensures Fold32(sum) == Fold(sum) && Fold32(sum) < sum && Fold32(sum) < 0x1_8000
    ensures sum < 0x1_8000 ==> Fold32(sum) < TWO_16
  {
  }

  /** The final fold loop and the complement, from any 32-bit sum that denotes the right number. */
  method Finish(acc: U32, ghost ws: seq<Word>) returns (r: Word, ghost folds: nat)
    requires SameSum(acc, Sum(ws)) && acc < TOP_BIT + TWO_16
    ensures r == InternetChecksum(ws)
    ensures folds <= 2
    ensures folds == 0 <==> acc < TWO_16
  {
    var sum: U32 := acc;
    folds := 0;
    while sum / TWO_16 != 0
      invariant SameSum(sum, Sum(ws))
      invariant folds == 0 ==> sum == acc
      invariant folds == 1 ==> sum < 0x1_8000
      invariant folds >= 2 ==> sum < TWO_16
      invariant folds <= 2 && (folds > 0 ==> acc >= TWO_16)
      decreases sum
    {
      FoldSame(sum);
      FoldShrinks(sum);
      sum := Fold32(sum);
      folds := folds + 1;
    }
    CanonCharacterised(sum, Sum(ws));
    CanonSmall(sum);
    r := Not16(sum);
  }

  lemma WordsSnoc(data: seq<Byte>, k: nat)
    requires 2 * k + 2 <= |data|
    ensures WordsLE(data[..2 * k + 2]) == WordsLE(data[..2 * k]) + [Join(data[2 * k], data[2 * k + 1])]
  {
  }

  lemma NextWord(before: seq<Word>, data: seq<Byte>, k: nat)
    requires 2 * k + 2 <= |data|
    ensures before + WordsLE(data[..2 * k + 2])
         == before + WordsLE(data[..2 * k]) + [Join(data[2 * k], data[2 * k + 1])]
  {
    WordsSnoc(data, k);
    var ws, w := WordsLE(data[..2 * k]), Join(data[2 * k], data[2 * k + 1]);
    assert before + (ws + [w]) == before + ws + [w];
  }

  lemma LazySumSnoc(ws: seq<Word>, w: Word)
    ensures LazySum(ws + [w]) == if LazySum(ws) + w >= 0x8000_0000 then Fold(LazySum(ws) + w) else LazySum(ws) + w
    ensures LazySum(ws) < TOP_BIT
  {
    assert (ws + [w])[..|ws|] == ws;
    AccumulatorNeverWraps(ws, w);
  }

  /** `sum += w; if (sum & 0x80000000) fold`. */
  method AddWord(start: U32, w: Word, ghost before: seq<Word>) returns (sum: U32)
    requires start == LazySum(before)
    ensures sum == LazySum(before + [w])
  {
    LazySumSnoc(before, w);
    NoWrap(start, w);
    sum := Add32(start, w);
    if sum >= TOP_BIT {
      sum := Fold32(sum);
    }
  }

  /** The main loop over one buffer, shared shape of both C functions: adds the whole words of `data[..len]`. */
  method AddWords(start: U32, data: seq<Byte>, len: int, ghost before: seq<Word>)
    returns (sum: U32, ptr: nat, c: int, ghost words: nat)
    requires len <= |data|
    requires start == LazySum(before)
    ensures c == len - ptr && ptr == 2 * words && ptr <= |data| && c <= 1
    ensures if len <= 0 then ptr == 0 else c >= 0
    ensures sum == LazySum(before + WordsLE(data[..ptr]))
  {
    sum, ptr, c, words := start, 0, len, 0;
    ghost var ws := before;
    assert before + WordsLE(data[..0]) == before;
    while c > 1
      invariant 0 <= ptr <= |data| && ptr == 2 * words && c == len - ptr
      invariant if len <= 0 then ptr == 0 else c >= 0
      invariant ws == before + WordsLE(data[..2 * words])
      invariant sum == LazySum(ws)
    {
      NextWord(before, data, words);
      var w := Join(data[ptr], data[ptr + 1]);
      sum := AddWord(sum, w, ws);
      ws, words := ws + [w], words + 1;
      ptr, c := ptr + 2, c - 2;
    }
  }

  lemma TailByte(before: seq<Word>, data: seq<Byte>, k: nat)
    requires 2 * k + 1 == |data|
    ensures SameSum(LazySum(before + WordsLE(data[..2 * k])) + data[2 * k], Sum(before + WordsLE(data)))
    ensures LazySum(before + WordsLE(data[..2 * k])) < TOP_BIT
  {
    var ws := before + WordsLE(data[..2 * k]);
    assert before + WordsLE(data) == ws + [data[2 * k]];
    SumSnoc(ws, data[2 * k]);
    LazySumSame(ws);
    SameSumPlus(LazySum(ws), Sum(ws), data[2 * k]);
    AccumulatorNeverWraps(ws, 0);
  }

  /** `data[..len]`, and nothing when `len` is negative, as a C loop counting down from `len` sees it. */
  function Prefix(data: seq<Byte>, len: int): seq<Byte>
    requires len <= |data|
  {
    if len <= 0 then [] else data[..len]
  }

  /** The rest of either C function once `start` holds the words of `before`: the loop over the last buffer,
      the odd byte, the final folding and the complement. */
  method SumRest(start: U32, data: seq<Byte>, len: int, ghost before: seq<Word>) returns (r: Word, ghost folds: nat)
    requires len <= |data|
    requires start == LazySum(before)
    ensures r == InternetChecksum(before + WordsLE(Prefix(data, len)))
    ensures folds <= 2
  {
    var sum, ptr, c, words := AddWords(start, data, len, before);
    RestOf(before, data, len, words);
    if c == 1 {
      NoWrap(sum, data[ptr]);
      sum := Add32(sum, data[ptr]);
    }
    r, folds := Finish(sum, before + WordsLE(Prefix(data, len)));
  }

  lemma RestOf(before: seq<Word>, data: seq<Byte>, len: int, k: nat)
    requires len <= |data| && if len <= 0 then k == 0 else 2 * k <= len <= 2 * k + 1
    ensures var tail: nat := if 2 * k < len then data[2 * k] else 0;
      SameSum(LazySum(before + WordsLE(data[..2 * k])) + tail, Sum(before + WordsLE(Prefix(data, len))))
    ensures LazySum(before + WordsLE(data[..2 * k])) < TOP_BIT
  {
    var bytes := Prefix(data, len);
    assert bytes[..2 * k] == data[..2 * k];
    RestWords(before, bytes, k);
  }

  /** After the last whole word at most one byte is left, and the register still cannot overflow. */
  lemma RestWords(before: seq<Word>, data: seq<Byte>, k: nat)
    requires 2 * k <= |data| <= 2 * k + 1
    ensures var tail: nat := if 2 * k < |data| then data[2 * k] else 0;
      SameSum(LazySum(before + WordsLE(data[..2 * k])) + tail, Sum(before + WordsLE(data)))
    ensures LazySum(before + WordsLE(data[..2 * k])) < TOP_BIT
  {
    if 2 * k < |data| { TailByte(before, data, k); } else { WholeWords(before, data, 2 * k); }
  }

  lemma WholeWords(before: seq<Word>, data: seq<Byte>, ptr: nat)
    requires ptr == |data|
    ensures SameSum(LazySum(before + WordsLE(data[..ptr])), Sum(before + WordsLE(data)))
    ensures LazySum(before + WordsLE(data[..ptr])) < TOP_BIT
  {
    assert data[..ptr] == data;
    LazySumSame(before + WordsLE(data));
    AccumulatorNeverWraps(before + WordsLE(data), 0);
  }

  /** A negative `len` sums nothing. */
  method Checksum(data: seq<Byte>, len: int) returns (r: Word, ghost folds: nat)
    requires len <= |data|
    ensures r == InternetChecksum(WordsLE(Prefix(data, len)))
    ensures r == Complement(OnesSum(WordsLE(Prefix(data, len))))
    ensures folds <= 2
  {
    r, folds := SumRest(0, data, len, []);
    assert [] + WordsLE(Prefix(data, len)) == WordsLE(Prefix(data, len));
    OnesSumIsCanon(WordsLE(Prefix(data, len)));
  }

  /** `val = ((*ptr) << 8) + (*data2)` in a 16-bit variable: the byte loaded beyond the buffer is shifted out. */
  function HighLoad(last: Byte, beyond: Byte, first: Byte): (w: Word)
    ensures w == Join(first, last)
  {
    (Join(last, beyond) * 0x100 + first) % TWO_16
  }

  /** For an odd `len1` the C code loads a 16-bit word at the last byte of `data1`, hence one byte beyond it. */
  method Checksum2(data1: seq<Byte>, len1: nat, data2: seq<Byte>, len2: int) returns (r: Word, ghost folds: nat)
    requires len1 <= |data1| && len2 <= |data2|
    requires len1 % 2 == 1 ==> len1 < |data1| && 0 < len2
    ensures r == InternetChecksum(TwoPartWords(data1[..len1], Prefix(data2, len2)))
    ensures folds <= 2
  {
    var sum, ptr, c, words := AddWords(0, data1, len1, []);
    ghost var front := [] + WordsLE(data1[..ptr]);
    TwoPartFront(data1, len1, words, Prefix(data2, len2));
    if c == 1 {
      PrefixTail(data2, len2);
      sum := AddSeam(sum, data1[ptr], data1[ptr + 1], data2[0], front);
      r, folds := SumRest(sum, data2[1..], len2 - 1, front + [Join(data2[0], data1[ptr])]);
    } else {
      r, folds := SumRest(sum, data2, len2, front);
    }
  }

  /** The odd branch: the word across the seam of the two buffers. */
  method AddSeam(start: U32, last: Byte, beyond: Byte, first: Byte, ghost before: seq<Word>) returns (sum: U32)
    requires start == LazySum(before)
    ensures sum == LazySum(before + [Join(first, last)])
  {
    sum := AddWord(start, HighLoad(last, beyond, first), before);
  }

  lemma PrefixTail(data: seq<Byte>, len: int)
    requires 0 < len <= |data|
    ensures |Prefix(data, len)| > 0 && Prefix(data, len)[0] == data[0]
    ensures Prefix(data, len)[1..] == Prefix(data[1..], len - 1)
  {
  }

  lemma Parity(n: nat, k: nat)
    requires 2 * k <= n <= 2 * k + 1
    ensures n % 2 == n - 2 * k
  {
  }

  lemma TwoPartFront(data1: seq<Byte>, len1: nat, k: nat, b: seq<Byte>)
    requires len1 <= |data1| && 2 * k <= len1 <= 2 * k + 1
    requires len1 == 2 * k + 1 ==> |b| > 0
    ensures len1 % 2 == len1 - 2 * k
    ensures var front := [] + WordsLE(data1[..2 * k]);
      TwoPartWords(data1[..len1], b) ==
        if len1 == 2 * k + 1 then front + [Join(b[0], data1[2 * k])] + WordsLE(b[1..]) else front + WordsLE(b)
  {
    var a := data1[..len1];
    Parity(len1, k);
    assert [] + WordsLE(data1[..2 * k]) == WordsLE(data1[..2 * k]);
    if len1 == 2 * k + 1 {
      OddSplit(a, b);
      assert a[..2 * k] == data1[..2 * k];
    }
  }

  lemma OddSplit(a: seq<Byte>, b: seq<Byte>)
    requires |a| % 2 == 1 && |b| > 0
    ensures TwoPartWords(a, b) == WordsLE(a[..|a| - 1]) + [Join(b[0], a[|a| - 1])] + WordsLE(b[1..])
  {
  }

  /** Both zeros count as success: `sum == 0 || sum == 0xFFFF`. */
  predicate Verifies(ws: seq<Word>) {
    InternetChecksum(ws) == 0 || InternetChecksum(ws) == 0xFFFF
  }

  /** A header is accepted exactly when its words add up to a multiple of 65535. */
  lemma VerifiesIffDivisible(ws: seq<Word>)
    ensures Verifies(ws) <==> Sum(ws) % 0xFFFF == 0
  {
    CanonCharacterised(Sum(ws), 0);
    CanonCharacterised(Sum(ws), 0xFFFF);
  }

  lemma WordsConcat(a: seq<Byte>, b: seq<Byte>)
    requires |a| % 2 == 0
    ensures WordsLE(a + b) == WordsLE(a) + WordsLE(b)
  {
    var u, v := WordsLE(a + b), WordsLE(a) + WordsLE(b);
    var h := |a| / 2;
    forall k | 0 <= k < |u| ensures u[k] == v[k] {
      if k >= h {
        assert (a + b)[2 * k] == b[2 * (k - h)];
      }
    }
  }

  lemma SumOfParts(a: seq<Byte>, b: seq<Byte>)
    requires |a| % 2 == 0
    ensures Sum(WordsLE(a + b)) == Sum(WordsLE(a)) + Sum(WordsLE(b))
  {
    WordsConcat(a, b);
    SumConcat(WordsLE(a), WordsLE(b));
  }

  /** Two buffers are summed like their concatenation exactly when the first has even length, or the two
      bytes that the odd branch swaps happen to be equal. */
  lemma TwoPartsIffConcatenation(a: seq<Byte>, b: seq<Byte>)
    requires |a| % 2 == 1 ==> |b| > 0
    ensures InternetChecksum(TwoPartWords(a, b)) == InternetChecksum(WordsLE(a + b))
        <==> |a| % 2 == 0 || a[|a| - 1] == b[0]
  {
    if |a| % 2 == 0 {
      WordsConcat(a, b);
    } else {
      OddParts(a[..|a| - 1], a[|a| - 1], b[0], b[1..]);
      OddSplit(a, b);
      assert a + b == a[..|a| - 1] + ([a[|a| - 1], b[0]] + b[1..]);
    }
  }

  lemma OddParts(a: seq<Byte>, x: Byte, y: Byte, b: seq<Byte>)
    requires |a| % 2 == 0
    ensures InternetChecksum(WordsLE(a) + [Join(y, x)] + WordsLE(b)) == InternetChecksum(WordsLE(a + ([x, y] + b)))
        <==> x == y
  {
    WordsAround(a, x, y, b);
    SumMiddle(WordsLE(a), Join(x, y), WordsLE(b));
    SumMiddle(WordsLE(a), Join(y, x), WordsLE(b));
    SwappedBytes(Sum(WordsLE(a)) + Sum(WordsLE(b)), x, y);
  }

  lemma WordsAround(a: seq<Byte>, x: Byte, y: Byte, b: seq<Byte>)
    requires |a| % 2 == 0
    ensures WordsLE(a + ([x, y] + b)) == WordsLE(a) + [Join(x, y)] + WordsLE(b)
  {
    WordsConcat(a, [x, y] + b);
    WordsConcat([x, y], b);
    assert WordsLE([x, y]) == [Join(x, y)];
    assert WordsLE(a) + ([Join(x, y)] + WordsLE(b)) == WordsLE(a) + [Join(x, y)] + WordsLE(b);
  }

  lemma SumMiddle(front: seq<Word>, w: Word, back: seq<Word>)
    ensures Sum(front + [w] + back) == Sum(front) + w + Sum(back)
  {
    SumConcat(front + [w], back);
    SumSnoc(front, w);
  }

  lemma SwappedBytes(rest: nat, x: Byte, y: Byte)
    ensures Canon(rest + Join(y, x)) == Canon(rest + Join(x, y)) <==> x == y
  {
    CanonCharacterised(rest + Join(y, x), rest + Join(x, y));
    if SameSum(rest + Join(y, x), rest + Join(x, y)) {
      var k := ModDiff(rest + Join(y, x), rest + Join(x, y));
      assert 255 * (x - y) == 0xFFFF * k;
    }
  }
}
