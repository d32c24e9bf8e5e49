/** `checkIPchecksum`: exactly which headers are accepted, and which corruptions are noticed. */
module Acceptance {
  import opened Bytes
  import opened OnesComplement
  import opened ChecksumLoops

  /** A header with its options, as one block of bytes, passes the check. */
  predicate Accepts(header: seq<Byte>) { Verifies(WordsLE(header)) }

  /** `optionLen` is `ihl * 4 - 20`, negative for an `ihl` below 5: then only the 20 fixed bytes count. */
  method CheckIpChecksum(iphdr: seq<Byte>, option: seq<Byte>, optionLen: int) returns (ok: bool)
    requires |iphdr| == 20 && optionLen <= |option|
    ensures ok <==> Accepts(iphdr + Prefix(option, optionLen))
    ensures ok <==> Sum(WordsLE(iphdr + Prefix(option, optionLen))) % 0xFFFF == 0
  {
    var sum: Word;
    ghost var folds: nat;
    ghost var header := iphdr + Prefix(option, optionLen);
    if optionLen == 0 {
      sum, folds := Checksum(iphdr, 20);
      assert Prefix(iphdr, 20) == iphdr == header;
    } else {
      sum, folds := Checksum2(iphdr, 20, option, optionLen);
      assert iphdr[..20] == iphdr;
      TwoPartsIffConcatenation(iphdr, Prefix(option, optionLen));
    }
    VerifiesIffDivisible(WordsLE(header));
    ok := sum == 0 || sum == 0xFFFF;
  }

  /** A change of one aligned word goes unnoticed exactly when it exchanges the two zeros 0x0000 and 0xFFFF. */
  lemma OneWordChange(ws: seq<Word>, i: nat, w: Word)
    requires i < |ws| && Verifies(ws)
    ensures Verifies(ws[i := w]) <==> w == ws[i] || (w == 0 && ws[i] == 0xFFFF) || (w == 0xFFFF && ws[i] == 0)
  {
    SumUpdate(ws, i, w);
    VerifiesIffDivisible(ws);
    VerifiesIffDivisible(ws[i := w]);
    if Verifies(ws[i := w]) {
      var k := ModDiff(Sum(ws[i := w]), Sum(ws));
      assert w - ws[i] == 0xFFFF * k;
    } else if w == 0 && ws[i] == 0xFFFF {
      ModEq(Sum(ws[i := w]), Sum(ws), -1);
    } else if w == 0xFFFF && ws[i] == 0 {
      ModEq(Sum(ws[i := w]), Sum(ws), 1);
    }
  }

  /** Byte `b` with the bit of weight `p` inverted. */
  function FlipBit(b: Byte, p: nat): Byte
    requires IsBit(p)
  {
    if (b / p) % 2 == 1 then b - p else b + p
  }

  /** Replacing one byte replaces one word. */
  lemma ByteUpdate(data: seq<Byte>, j: nat, b: Byte) returns (w: Word)
    requires j < |data|
    ensures j / 2 < |WordsLE(data)| && WordsLE(data[j := b]) == WordsLE(data)[j / 2 := w]
    ensures w - WordsLE(data)[j / 2] == if j % 2 == 0 then b as int - data[j] else 0x100 * (b as int - data[j])
  {
    var u, v, k := WordsLE(data[j := b]), WordsLE(data), j / 2;
    w := u[k];
    forall i | 0 <= i < |v| && i != k ensures u[i] == v[i] {
      assert 2 * i != j && 2 * i + 1 != j;
    }
  }

  /** Every single-bit error in an accepted header is rejected (the option length being taken as given). */
  lemma SingleBitErrorDetected(header: seq<Byte>, j: nat, p: nat)
    requires j < |header| && IsBit(p) && Accepts(header)
    ensures !Accepts(header[j := FlipBit(header[j], p)])
  {
    var b := FlipBit(header[j], p);
    var w := ByteUpdate(header, j, b);
    OneWordChange(WordsLE(header), j / 2, w);
  }

  /** The weakness of the sum: any rearrangement of aligned words is accepted as well. */
  lemma WordOrderIrrelevant(a: seq<Byte>, b: seq<Byte>)
    requires multiset(WordsLE(a)) == multiset(WordsLE(b))
    ensures Accepts(a) <==> Accepts(b)
    ensures InternetChecksum(WordsLE(a)) == InternetChecksum(WordsLE(b))
  {
    SumPermutation(WordsLE(a), WordsLE(b));
  }

  /** Storing the checksum computed over a zeroed, aligned check field makes the block verify, whatever
      the bytes are. */
  lemma StoredChecksumVerifies(data: seq<Byte>, at: nat)
    requires at + 2 <= |data| && at % 2 == 0
    requires data[at] == 0 && data[at + 1] == 0
    ensures Accepts(Splice(data, at, StoreLE(InternetChecksum(WordsLE(data)))))
    ensures Sum(WordsLE(Splice(data, at, StoreLE(InternetChecksum(WordsLE(data)))))) % 0xFFFF == 0
  {
    var c := InternetChecksum(WordsLE(data));
    SpliceWord(data, at, c);
    SumUpdate(WordsLE(data), at / 2, c);
    var s := Sum(WordsLE(data));
    CanonCharacterised(s, 0);
    var k := ModDiff(s, Canon(s));
    ModEq(s + c, 0xFFFF, k);
    VerifiesIffDivisible(WordsLE(Splice(data, at, StoreLE(c))));
  }

  lemma SpliceWord(data: seq<Byte>, at: nat, w: Word)
    requires at + 2 <= |data| && at % 2 == 0
    ensures WordsLE(Splice(data, at, StoreLE(w))) == WordsLE(data)[at / 2 := w]
    ensures WordsLE(data)[at / 2] == Join(data[at], data[at + 1])
  {
    var u, v := WordsLE(Splice(data, at, StoreLE(w))), WordsLE(data)[at / 2 := w];
    forall i | 0 <= i < |v| ensures u[i] == v[i] {
      if i != at / 2 { assert 2 * i != at && 2 * i + 1 != at; }
    }
  }
}
