/** The pseudo-headers of pcap/checksum.c against the layouts of RFC 793 and RFC 8200. */
module PseudoHeader {
  import opened Bytes
  import opened OnesComplement
  import opened ChecksumLoops

  type Addr6 = a: seq<Byte> | |a| == 16 witness seq(16, _ => 0)

  function Zeros(n: nat): (z: seq<Byte>) { seq(n, _ => 0) }

  /** `struct pseudo_ip6_hdr` after the `memset` and the assignments, for `unsigned long` of `longSize` bytes:
      `plen` is copied unconverted from the header, so its two bytes stay in network order at the low end. */
  function Struct6(src: Addr6, dst: Addr6, plen: Word, nxt: Byte, longSize: nat): seq<Byte>
    requires longSize == 4 || longSize == 8
  {
    src + dst + (StoreBE(plen) + Zeros(longSize - 2)) + [0, 0, 0, nxt] + Zeros(longSize - 4)
  }

  /** The pseudo-header of RFC 8200 section 8.1: a 32-bit length in network order, three zero bytes, next header. */
  function Rfc8200(src: Addr6, dst: Addr6, plen: Word, nxt: Byte): seq<Byte> {
    src + dst + ([0, 0] + StoreBE(plen)) + [0, 0, 0, nxt]
  }

  function Rfc793(src: Addr, dst: Addr, proto: Byte, len: Word): seq<Byte> {
    src + dst + [0, proto] + StoreBE(len)
  }

  /** Byte by byte: addresses, a zero, the protocol, and the length in network order. */
  lemma Rfc793Bytes(src: Addr, dst: Addr, proto: Byte, len: Word)
    ensures var h := Rfc793(src, dst, proto, len);
      && |h| == 12 && h[..4] == src && h[4..8] == dst && h[8] == 0 && h[9] == proto
      && 256 * h[10] as int + h[11] as int == len
  {
  }

  lemma Rfc8200Bytes(src: Addr6, dst: Addr6, plen: Word, nxt: Byte)
    ensures var h := Rfc8200(src, dst, plen, nxt);
      && |h| == 40 && h[..16] == src && h[16..32] == dst && h[32] == 0 && h[33] == 0
      && 256 * h[34] as int + h[35] as int == plen && h[36] == 0 && h[37] == 0 && h[38] == 0 && h[39] == nxt
  {
  }

  /** `checksum2` over the struct and the data, compared with both zeros. */
  method CheckBoth(pip: seq<Byte>, data: seq<Byte>, len: int) returns (ok: bool)
    requires |pip| % 2 == 0 && len <= |data|
    ensures ok <==> Verifies(WordsLE(pip + Prefix(data, len)))
  {
    assert pip[..|pip|] == pip;
    TwoPartsIffConcatenation(pip, Prefix(data, len));
    var sum, _ := Checksum2(pip, |pip|, data, len);
    ok := sum == 0 || sum == 0xFFFF;
  }

  method CheckIp6DataChecksum(src: Addr6, dst: Addr6, plen: Word, nxt: Byte, longSize: nat, data: seq<Byte>, len: int)
    returns (ok: bool)
    requires longSize == 4 || longSize == 8
    requires len <= |data|
    ensures ok <==> Verifies(WordsLE(Rfc8200(src, dst, plen, nxt) + Prefix(data, len)))
  {
    StructSize(src, dst, plen, nxt, longSize);
    ok := CheckBoth(Struct6(src, dst, plen, nxt, longSize), data, len);
    StructAgreesWithRfc8200(src, dst, plen, nxt, longSize, Prefix(data, len));
  }

  /** `htons(len)` keeps only the low 16 bits of the length. */
  method CheckIpDataChecksum(src: Addr, dst: Addr, proto: Byte, data: seq<Byte>, len: int) returns (ok: bool)
    requires len <= |data|
    ensures ok <==> Verifies(WordsLE(Rfc793(src, dst, proto, len % 0x1_0000) + Prefix(data, len)))
  {
    var pip := src + dst + [0, proto] + StoreBE(len % 0x1_0000);
    ok := CheckBoth(pip, data, len);
  }

  lemma StructSize(src: Addr6, dst: Addr6, plen: Word, nxt: Byte, longSize: nat)
    requires longSize == 4 || longSize == 8
    ensures |Struct6(src, dst, plen, nxt, longSize)| == if longSize == 8 then 48 else 40
    ensures |Struct6(src, dst, plen, nxt, longSize)| % 2 == 0 && |Rfc8200(src, dst, plen, nxt)| == 40
  {
  }

  lemma {:induction false} ZerosSum(n: nat)
    requires n % 2 == 0
    ensures Sum(WordsLE(Zeros(n))) == 0
  {
    SumZero(WordsLE(Zeros(n)));
  }

  /** The struct, of 48 or 40 bytes, gives the same checksum, hence the same verdict, as the RFC layout for
      every payload: zero words and the order of words do not matter. */
  lemma StructAgreesWithRfc8200(src: Addr6, dst: Addr6, plen: Word, nxt: Byte, longSize: nat, data: seq<Byte>)
    requires longSize == 4 || longSize == 8
    ensures |Struct6(src, dst, plen, nxt, longSize)| == if longSize == 8 then 48 else 40
    ensures InternetChecksum(WordsLE(Struct6(src, dst, plen, nxt, longSize) + data))
         == InternetChecksum(WordsLE(Rfc8200(src, dst, plen, nxt) + data))
  {
    StructSize(src, dst, plen, nxt, longSize);
    StructSum(src, dst, plen, nxt, longSize);
    Rfc8200Sum(src, dst, plen, nxt);
    SameTail(Struct6(src, dst, plen, nxt, longSize), Rfc8200(src, dst, plen, nxt), data);
  }

  lemma SameTail(a: seq<Byte>, b: seq<Byte>, data: seq<Byte>)
    requires |a| % 2 == 0 && |b| % 2 == 0 && Sum(WordsLE(a)) == Sum(WordsLE(b))
    ensures InternetChecksum(WordsLE(a + data)) == InternetChecksum(WordsLE(b + data))
  {
    assert Sum(WordsLE(a + data)) == Sum(WordsLE(b + data)) by {
      SumOfParts(a, data);
      SumOfParts(b, data);
    }
  }

  lemma StructSum(src: Addr6, dst: Addr6, plen: Word, nxt: Byte, longSize: nat)
    requires longSize == 4 || longSize == 8
    ensures Sum(WordsLE(Struct6(src, dst, plen, nxt, longSize)))
         == Sum(WordsLE(src + dst)) + Sum(WordsLE(StoreBE(plen))) + Sum(WordsLE([0, 0, 0, nxt]))
  {
    var addrs, long, tail := src + dst, StoreBE(plen) + Zeros(longSize - 2), [0, 0, 0, nxt];
    FourParts(addrs, long, tail, Zeros(longSize - 4));
    SumOfParts(StoreBE(plen), Zeros(longSize - 2));
    ZeroPadding(longSize);
  }

  lemma EvenParts(a: seq<Byte>, b: seq<Byte>, c: seq<Byte>)
    requires |a| % 2 == |b| % 2 == |c| % 2 == 0
    ensures |a + b| % 2 == |a + b + c| % 2 == 0
  {
  }

  lemma FourParts(a: seq<Byte>, b: seq<Byte>, c: seq<Byte>, d: seq<Byte>)
    requires |a| % 2 == |b| % 2 == |c| % 2 == 0
    ensures Sum(WordsLE(a + b + c + d))
         == Sum(WordsLE(a)) + Sum(WordsLE(b)) + Sum(WordsLE(c)) + Sum(WordsLE(d))
  {
    EvenParts(a, b, c);
    SumOfParts(a + b + c, d);
    SumOfParts(a + b, c);
    SumOfParts(a, b);
  }

  lemma ZeroPadding(longSize: nat)
    requires longSize == 4 || longSize == 8
    ensures Sum(WordsLE(Zeros(longSize - 2))) == Sum(WordsLE(Zeros(longSize - 4))) == 0
  {
    ZerosSum(if longSize == 4 then 2 else 6);
    ZerosSum(if longSize == 4 then 0 else 4);
  }

  lemma Rfc8200Sum(src: Addr6, dst: Addr6, plen: Word, nxt: Byte)
    ensures Sum(WordsLE(Rfc8200(src, dst, plen, nxt)))
         == Sum(WordsLE(src + dst)) + Sum(WordsLE(StoreBE(plen))) + Sum(WordsLE([0, 0, 0, nxt]))
  {
    SumOfParts(src + dst + ([0, 0] + StoreBE(plen)), [0, 0, 0, nxt]);
    SumOfParts(src + dst, [0, 0] + StoreBE(plen));
    SumOfParts([0, 0], StoreBE(plen));
    assert Zeros(2) == [0, 0];
    ZerosSum(2);
  }
}
