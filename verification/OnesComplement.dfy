/** One's-complement arithmetic on sums of 16-bit words (RFC 1071 section 1). */
module OnesComplement {
  import opened Bytes

  /** The sum of the words as an unbounded number: what any folding has to agree with. */
  function Sum(ws: seq<Word>): nat {
    if |ws| == 0 then 0 else Sum(ws[..|ws| - 1]) + ws[|ws| - 1]
  }

  /** The 16-bit representative of an unbounded sum: 0 only for 0, otherwise in 1..65535. */
  function Canon(n: nat): Word {
    if n == 0 then 0 else (n - 1) % 0xFFFF + 1
  }

  /** 16-bit addition with end-around carry. */
  function OnesAdd(a: Word, b: Word): Word {
    if a + b > 0xFFFF then a + b - 0xFFFF else a + b
  }

  /** The sum with the carry folded in after every single addition: the textbook reference. */
  function OnesSum(ws: seq<Word>): Word {
    if |ws| == 0 then 0 else OnesAdd(OnesSum(ws[..|ws| - 1]), ws[|ws| - 1])
  }

  function Complement(w: Word): Word { 0xFFFF - w }

  /** Two sums denote the same one's-complement number, in the same one of its two zeros. */
  predicate SameSum(a: nat, b: nat) {
    a % 0xFFFF == b % 0xFFFF && (a == 0 <==> b == 0)
  }

  function Fold(n: nat): nat { n % 0x1_0000 + n / 0x1_0000 }

  lemma ModEq(a: int, b: int, k: int)
    requires a == b + 0xFFFF * k
    ensures a % 0xFFFF == b % 0xFFFF
  {
    assert (a - b) % 0xFFFF == 0;
  }

  lemma ModDiff(a: int, b: int) returns (k: int)
    requires a % 0xFFFF == b % 0xFFFF
    ensures a == b + 0xFFFF * k
  {
    k := a / 0xFFFF - b / 0xFFFF;
  }

  /** Canonical forms coincide exactly for sums that denote the same number and the same zero. */
  lemma CanonCharacterised(a: nat, b: nat)
    ensures Canon(a) == Canon(b) <==> SameSum(a, b)
    ensures SameSum(a, Canon(a))
    ensures Canon(Canon(a)) == Canon(a)
  {
    if a > 0 { CanonCongruent(a); }
    if b > 0 { CanonCongruent(b); }
  }

  lemma CanonCongruent(a: nat)
    requires a > 0
    ensures Canon(a) % 0xFFFF == a % 0xFFFF && Canon(a) > 0
  {
    ModEq(a, Canon(a), (a - 1) / 0xFFFF);
  }

  lemma CanonSmall(a: nat)
    requires a < 0x1_0000
    ensures Canon(a) == a
  {
  }

  lemma SameSumPlus(a: nat, b: nat, c: nat)
    requires SameSum(a, b)
    ensures SameSum(a + c, b + c)
  {
    var k := ModDiff(a, b);
    ModEq(a + c, b + c, k);
  }

  lemma FoldSame(n: nat)
    ensures SameSum(n, Fold(n))
  {
    ModEq(n, Fold(n), n / 0x1_0000);
  }

  lemma SumSnoc(ws: seq<Word>, w: Word)
    ensures Sum(ws + [w]) == Sum(ws) + w
  {
    assert (ws + [w])[..|ws|] == ws;
  }

  lemma {:induction false} SumConcat(a: seq<Word>, b: seq<Word>)
    ensures Sum(a + b) == Sum(a) + Sum(b)
  {
    if |b| == 0 {
      assert a + b == a;
    } else {
      var init, last := b[..|b| - 1], b[|b| - 1];
      SumConcat(a, init);
      assert a + b == a + init + [last];
      SumSnoc(a + init, last);
    }
  }

  lemma {:induction false} SumUpdate(ws: seq<Word>, i: nat, w: Word)
    requires i < |ws|
    ensures Sum(ws[i := w]) == Sum(ws) - ws[i] + w
  {
    var n := |ws| - 1;
    if i == n {
      assert ws[i := w][..n] == ws[..n];
    } else {
      SumUpdate(ws[..n], i, w);
      assert ws[i := w][..n] == ws[..n][i := w];
    }
  }

  lemma {:induction false} SumZero(ws: seq<Word>)
    ensures Sum(ws) == 0 <==> forall i :: 0 <= i < |ws| ==> ws[i] == 0
  {
    if |ws| > 0 { SumZero(ws[..|ws| - 1]); }
  }

  /** The order of the words is irrelevant: only their multiset matters. */
  lemma {:induction false} SumPermutation(a: seq<Word>, b: seq<Word>)
    requires multiset(a) == multiset(b)
    ensures Sum(a) == Sum(b)
    decreases |a|
  {
    assert |a| == |multiset(a)| == |multiset(b)| == |b|;
    if |a| > 0 {
      var n, w := |a| - 1, a[|a| - 1];
      assert a == a[..n] + [w];
      assert w in multiset(b);
      var j :| 0 <= j < |b| && b[j] == w;
      var rest := b[..j] + b[j + 1..];
      assert b == b[..j] + [w] + b[j + 1..];
      assert multiset(a[..n]) == multiset(a) - multiset{w} == multiset(rest);
      SumPermutation(a[..n], rest);
      SumConcat(b[..j] + [w], b[j + 1..]);
      SumSnoc(b[..j], w);
      SumConcat(b[..j], b[j + 1..]);
    }
  }

  /** Folding after every addition yields the canonical form of the unbounded sum. */
  lemma {:induction false} OnesSumIsCanon(ws: seq<Word>)
    ensures OnesSum(ws) == Canon(Sum(ws))
  {
    if |ws| > 0 {
      var init, last := ws[..|ws| - 1], ws[|ws| - 1];
      OnesSumIsCanon(init);
      OnesAddIsCanon(Canon(Sum(init)), last);
      CanonCharacterised(Sum(init), Canon(Sum(init)));
      SameSumPlus(Sum(init), Canon(Sum(init)), last);
      CanonCharacterised(Sum(ws), Canon(Sum(init)) + last);
    }
  }

  lemma OnesAddIsCanon(a: Word, b: Word)
    ensures OnesAdd(a, b) == Canon(a + b)
  {
  }
}
