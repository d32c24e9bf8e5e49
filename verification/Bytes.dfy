/** Bytes, 16-bit words and the fixed-size byte groups (addresses, MACs) that the router copies around. */
module Bytes {
  type Byte = b: int | 0 <= b < 0x100
  type Word = w: int | 0 <= w < 0x1_0000
  type Mac = m: seq<Byte> | |m| == 6 witness [0, 0, 0, 0, 0, 0]
  type Addr = a: seq<Byte> | |a| == 4 witness [0, 0, 0, 0]

  const ZERO_MAC: Mac := [0, 0, 0, 0, 0, 0]

  datatype Option<+T> = None | Some(value: T)

  /** The effect of `memcpy(s + at, part, |part|)`. */
  function Splice(s: seq<Byte>, at: nat, part: seq<Byte>): (r: seq<Byte>)
    requires at + |part| <= |s|
    ensures |r| == |s|
  {
    s[..at] + part + s[at + |part|..]
  }

  /** The 16-bit value whose low byte is `lo` and whose high byte is `hi`. */
  function Join(lo: Byte, hi: Byte): Word { (lo as int) + 0x100 * (hi as int) }

  /** A 16-bit value as it lies in memory on a little-endian machine. */
  function StoreLE(w: Word): seq<Byte> { [w % 0x100, w / 0x100] }

  /** A 16-bit value as it lies in memory on a big-endian machine, which is also network order. */
  function StoreBE(w: Word): seq<Byte> { [w / 0x100, w % 0x100] }

  /** `a & b`, bit by bit from the least significant. */
  function BitAnd(a: Byte, b: Byte): (r: Byte)
    ensures r <= a && r <= b
    decreases a
  {
    if a == 0 || b == 0 then 0
    else (if a % 2 == 1 && b % 2 == 1 then 1 else 0) + 2 * BitAnd(a / 2, b / 2)
  }

  // ----- bits -----

  predicate IsBit(p: nat) { p in {1, 2, 4, 8, 16, 32, 64, 128} }

  lemma BitWeights(p: nat)
    ensures IsBit(p) <==> 0 < p < 0x100 && 0x100 % p == 0
  {
  }

  predicate HasBit(b: Byte, p: nat)
    requires IsBit(p)
  {
    (b / p) % 2 == 1
  }

  lemma HalfBit(b: Byte, p: nat)
    requires IsBit(p) && p > 1
    ensures HasBit(b, p) <==> HasBit(b / 2, p / 2)
  {
  }

  /** A bit of `a & b` is set exactly if it is set in both. */
  lemma {:induction false} AndBit(a: Byte, b: Byte, p: nat)
    requires IsBit(p)
    ensures (BitAnd(a, b) / p) % 2 == 1 <==> (a / p) % 2 == 1 && (b / p) % 2 == 1
    decreases p
  {
    var c := BitAnd(a, b);
    if a > 0 && b > 0 && p > 1 {
      assert c / 2 == BitAnd(a / 2, b / 2);
      HalfBit(a, p);
      HalfBit(b, p);
      HalfBit(c, p);
      AndBit(a / 2, b / 2, p / 2);
    }
  }

  lemma {:induction false} DifferentBit(a: Byte, b: Byte, top: nat) returns (p: nat)
    requires IsBit(top) && a != b && a < 2 * top && b < 2 * top
    ensures IsBit(p) && HasBit(a, p) != HasBit(b, p)
    decreases top
  {
    if a % 2 != b % 2 {
      p := 1;
    } else {
      var q := DifferentBit(a / 2, b / 2, top / 2);
      p := 2 * q;
      BitBelow(a, b, top, q);
    }
  }

  /** Bytes below `2 * top` have no bits above `top`, so the weight found can be doubled. */
  lemma BitBelow(a: Byte, b: Byte, top: nat, q: nat)
    requires IsBit(top) && top > 1 && a < 2 * top && b < 2 * top
    requires IsBit(q) && HasBit(a / 2, q) != HasBit(b / 2, q)
    ensures IsBit(2 * q) && HasBit(a, 2 * q) != HasBit(b, 2 * q)
  {
    if q < 128 {
      HalfBit(a, 2 * q);
      HalfBit(b, 2 * q);
    }
  }

  /** Bytes with the same bits are the same. */
  lemma SameBits(a: Byte, b: Byte)
    requires forall p :: IsBit(p) ==> (HasBit(a, p) <==> HasBit(b, p))
    ensures a == b
  {
    if a != b { var p := DifferentBit(a, b, 128); }
  }

  lemma FullByte(p: nat)
    requires IsBit(p)
    ensures HasBit(0xFF, p)
  {
  }

  lemma AndAll(a: Byte)
    ensures BitAnd(a, 0xFF) == a && BitAnd(a, 0) == 0
  {
    forall p | IsBit(p) ensures HasBit(BitAnd(a, 0xFF), p) <==> HasBit(a, p) {
      AndBit(a, 0xFF, p);
      FullByte(p);
    }
    SameBits(BitAnd(a, 0xFF), a);
  }

  /** `b & mask == net`, bit by bit: wherever the mask has a bit `b` has it like `net`, and `net` has no other. */
  lemma AndIsBits(b: Byte, mask: Byte, net: Byte)
    ensures BitAnd(b, mask) == net <==>
      forall p :: IsBit(p) ==> (HasBit(net, p) <==> HasBit(b, p) && HasBit(mask, p))
  {
    forall p | IsBit(p) ensures HasBit(BitAnd(b, mask), p) <==> HasBit(b, p) && HasBit(mask, p) {
      AndBit(b, mask, p);
    }
    if forall p :: IsBit(p) ==> (HasBit(net, p) <==> HasBit(b, p) && HasBit(mask, p)) {
      SameBits(BitAnd(b, mask), net);
    }
  }

  /** `addr & mask` on `in_addr_t` values, byte by byte. */
  function Masked(a: Addr, mask: Addr): Addr {
    [BitAnd(a[0], mask[0]), BitAnd(a[1], mask[1]), BitAnd(a[2], mask[2]), BitAnd(a[3], mask[3])]
  }
}
