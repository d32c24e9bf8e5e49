/** The ICMP Time Exceeded message the router builds, and the packet monitor as its independent receiver. */
module Icmp {
  import opened Bytes
  import opened OnesComplement
  import opened ChecksumLoops
  import opened Acceptance
  import opened Frames

  const ICMP_STRUCT: int := 28
  const QUOTED: nat := 64
  const IPPROTO_ICMP: Byte := 1

  /** The reply's IP header with a given check field; `tot_len` is `sizeof(struct icmp) + 64`. */
  function ReplyIp(saddr: Addr, daddr: Addr, check: Word): (h: seq<Byte>)
    ensures |h| == IP_LEN
  {
    [0x45, 0] + StoreBE(ICMP_STRUCT + QUOTED) + [0, 0, 0, 0, 64, IPPROTO_ICMP] + StoreLE(check) + saddr + daddr
  }

  function ReplyIcmp(check: Word): (h: seq<Byte>)
    ensures |h| == 8
  {
    [11, 0] + StoreLE(check) + [0, 0, 0, 0]
  }

  /** The reply's IP header with its checksum stored. */
  function CheckedIp(saddr: Addr, daddr: Addr): (h: seq<Byte>)
    ensures |h| == IP_LEN
  {
    ReplyIp(saddr, daddr, InternetChecksum(WordsLE(ReplyIp(saddr, daddr, 0))))
  }

  /** The ICMP header with its checksum stored; the checksum covers the quoted bytes too. */
  function CheckedIcmp(quote: seq<Byte>): (h: seq<Byte>)
    ensures |h| == 8
  {
    ReplyIcmp(InternetChecksum(WordsLE(ReplyIcmp(0) + quote)))
  }

  /** The whole reply to the frame at the start of the receive buffer `buf`. */
  function TimeExceeded(own: Mac, ownAddr: Addr, buf: seq<Byte>): (r: Frame)
    requires |buf| >= ETHER_LEN + QUOTED
    ensures |r| == ETHER_LEN + IP_LEN + 8 + QUOTED
  {
    var quote := buf[ETHER_LEN..ETHER_LEN + QUOTED];
    buf[6..12] + own + [8, 0] + CheckedIp(ownAddr, buf[26..30]) + CheckedIcmp(quote) + quote
  }

  method FillIp(saddr: Addr, daddr: Addr) returns (rih: seq<Byte>)
    ensures rih == CheckedIp(saddr, daddr)
  {
    rih := ReplyIp(saddr, daddr, 0);
    assert Prefix(rih, IP_LEN) == rih;
    var sum, _ := Checksum(rih, IP_LEN);
    rih := ReplyIp(saddr, daddr, sum);
  }

  method FillIcmp(ipptr: seq<Byte>) returns (icmp: seq<Byte>)
    ensures icmp == CheckedIcmp(ipptr)
  {
    icmp := ReplyIcmp(0);
    assert icmp[..8] == icmp && Prefix(ipptr, |ipptr|) == ipptr;
    TwoPartsIffConcatenation(icmp, ipptr);
    var sum, _ := Checksum2(icmp, 8, ipptr, |ipptr|);
    icmp := ReplyIcmp(sum);
  }

  /** `SendIcmpTimeExceeded`: the structs are filled, checksummed and copied one after the other. */
  method SendIcmpTimeExceeded(own: Mac, ownAddr: Addr, data: array<Byte>) returns (out: Frame)
    requires data.Length >= ETHER_LEN + QUOTED
    ensures out == TimeExceeded(own, ownAddr, data[..])
  {
    var reh := data[6..12] + own + [8, 0];
    var rih := FillIp(ownAddr, data[26..30]);
    var ipptr := data[ETHER_LEN..ETHER_LEN + QUOTED];
    var icmp := FillIcmp(ipptr);
    out := Assemble(reh, rih, icmp, ipptr);
  }

  /** The four copies into the 1500-byte output buffer, and the `len` bytes of it that are written. */
  method Assemble(reh: seq<Byte>, rih: seq<Byte>, icmp: seq<Byte>, quote: seq<Byte>) returns (out: Frame)
    requires |reh| + |rih| + |icmp| + |quote| <= 1500
    ensures out == reh + rih + icmp + quote
  {
    var buf := new Byte[1500](_ => 0);
    var len := AppendTo(buf, 0, [], reh);
    len := AppendTo(buf, len, [] + reh, rih);
    len := AppendTo(buf, len, [] + reh + rih, icmp);
    len := AppendTo(buf, len, [] + reh + rih + icmp, quote);
    out := buf[..len];
    assert [] + reh == reh;
  }

  /** `memcpy(ptr, part, |part|); ptr += |part|`. */
  method AppendTo(buf: array<Byte>, ptr: nat, ghost done: seq<Byte>, part: seq<Byte>) returns (next: nat)
    requires ptr + |part| <= buf.Length && buf[..ptr] == done
    modifies buf
    ensures next == ptr + |part| && next <= buf.Length && buf[..next] == done + part
  {
    Memcpy(buf, ptr, part);
    next := ptr + |part|;
  }

  datatype Seen = TooShort | BadHeader | BadIcmp | GoodIcmp | OtherProtocol

  /** Length of the IP payload according to the header: `ntohs(tot_len) - ihl * 4`; it can be negative. */
  function PayloadLen(ip: seq<Byte>): int
    requires |ip| >= IP_LEN
  {
    Join(ip[3], ip[2]) - (ip[0] % 0x10) * 4
  }

  function IpHeaderLen(ip: seq<Byte>): nat
    requires |ip| >= IP_LEN
  {
    var optionLen := (ip[0] % 0x10) * 4 - IP_LEN;
    if optionLen > 0 then IP_LEN + optionLen else IP_LEN
  }

  predicate Readable(ip: seq<Byte>) {
    |ip| >= IP_LEN ==> |ip| >= IpHeaderLen(ip) && IpHeaderLen(ip) + PayloadLen(ip) <= |ip|
  }

  predicate GoodPayload(payload: seq<Byte>, len: int)
    requires len <= |payload|
  {
    Sum(WordsLE(Prefix(payload, len))) % 0xFFFF == 0
  }

  /** What the monitor must conclude, in terms of plain sums modulo 65535. */
  function Judge(ip: seq<Byte>): Seen
    requires Readable(ip)
  {
    if |ip| < IP_LEN then TooShort
    else if Sum(WordsLE(ip[..IpHeaderLen(ip)])) % 0xFFFF != 0 then BadHeader
    else if ip[9] != IPPROTO_ICMP then OtherProtocol
    else if GoodPayload(ip[IpHeaderLen(ip)..], PayloadLen(ip)) then GoodIcmp
    else BadIcmp
  }

  lemma HeaderRead(ip: seq<Byte>, iphdr: seq<Byte>, option: seq<Byte>, optionLen: int)
    requires |ip| >= IP_LEN && |ip| >= IpHeaderLen(ip) && iphdr == ip[..IP_LEN]
    requires optionLen == (ip[0] % 0x10) * 4 - IP_LEN
    requires option == if optionLen > 0 then ip[IP_LEN..IP_LEN + optionLen] else []
    ensures iphdr + Prefix(option, optionLen) == ip[..IpHeaderLen(ip)]
  {
  }

  /** The lengths that the monitor reads, from the bytes: the header's, and how many bytes are to follow it. */
  lemma LengthsByBytes(ip: seq<Byte>, v: nat, n: nat)
    requires |ip| >= 20 && v < 16 && n < 16 && ip[0] == 16 * v + n
    ensures IpHeaderLen(ip) == if n <= 5 then 20 else 4 * n
    ensures PayloadLen(ip) == 256 * ip[2] as int + ip[3] as int - 4 * n
  {
  }

  lemma PrefixIs(ip: seq<Byte>, from: nat, to: nat)
    requires from <= to <= |ip|
    ensures Prefix(ip[from..], to - from) == ip[from..to]
  {
  }

  /** Which packets the monitor lets pass as ICMP, from the bytes. */
  lemma GoodIcmpByBytes(ip: seq<Byte>, v: nat, n: nat, total: nat)
    requires Readable(ip) && |ip| >= 20 && v < 16 && 5 <= n < 16 && ip[0] == 16 * v + n
    requires total == 256 * ip[2] as int + ip[3] as int && 4 * n <= total
    ensures total <= |ip|
    ensures Judge(ip) == GoodIcmp <==>
      ip[9] == 1 && Sum(WordsLE(ip[..4 * n])) % 65535 == 0 && Sum(WordsLE(ip[4 * n..total])) % 65535 == 0
  {
    LengthsByBytes(ip, v, n);
    GoodIcmpUpTo(ip, 4 * n, total);
  }

  lemma GoodIcmpUpTo(ip: seq<Byte>, ptr: nat, total: nat)
    requires Readable(ip) && |ip| >= IP_LEN && ptr == IpHeaderLen(ip) && total == ptr + PayloadLen(ip) && ptr <= total
    ensures total <= |ip|
    ensures Judge(ip) == GoodIcmp <==>
      ip[9] == 1 && Sum(WordsLE(ip[..ptr])) % 65535 == 0 && Sum(WordsLE(ip[ptr..total])) % 65535 == 0
  {
    PrefixIs(ip, ptr, total);
    JudgedBy(ip, ptr, total - ptr, ip[ptr..total]);
  }

  lemma JudgedBy(ip: seq<Byte>, ptr: nat, len: int, payload: seq<Byte>)
    requires Readable(ip) && |ip| >= IP_LEN && ptr == IpHeaderLen(ip) && len == PayloadLen(ip)
    requires payload == Prefix(ip[ptr..], len)
    ensures Judge(ip) == GoodIcmp <==>
      ip[9] == 1 && Sum(WordsLE(ip[..ptr])) % 65535 == 0 && Sum(WordsLE(payload)) % 65535 == 0
  {
  }

  lemma JudgedByPayload(ip: seq<Byte>, ptr: nat, len: int)
    requires Readable(ip) && |ip| >= IP_LEN && ptr == IpHeaderLen(ip) && len == PayloadLen(ip)
    requires Sum(WordsLE(ip[..ptr])) % 0xFFFF == 0 && ip[9] == IPPROTO_ICMP
    ensures Judge(ip) == if GoodPayload(ip[ptr..], len) then GoodIcmp else BadIcmp
  {
  }

  /** `AnalyzeIp` up to and including its ICMP branch. */
  method AnalyzeIp(data: seq<Byte>) returns (seen: Seen)
    requires Readable(data)
    ensures seen == Judge(data)
  {
    var ptr, lest := 0, |data|;
    if lest < IP_LEN {
      return TooShort;
    }
    var iphdr := data[..IP_LEN];
    ptr, lest := ptr + IP_LEN, lest - IP_LEN;
    var optionLen := (iphdr[0] % 0x10) * 4 - IP_LEN;
    var option: seq<Byte> := [];
    if optionLen > 0 {
      option := data[ptr..ptr + optionLen];
      ptr, lest := ptr + optionLen, lest - optionLen;
    }
    HeaderRead(data, iphdr, option, optionLen);
    var ok := CheckIpChecksum(iphdr, option, optionLen);
    if !ok {
      return BadHeader;
    }
    if iphdr[9] != IPPROTO_ICMP {
      return OtherProtocol;
    }
    var len := Join(iphdr[3], iphdr[2]) - (iphdr[0] % 0x10) * 4;
    assert ptr == IpHeaderLen(data) && len == PayloadLen(data);
    seen := AnalyzeIcmp(data[ptr..], len);
    JudgedByPayload(data, ptr, len);
  }

  /** The checksum test of the ICMP branch (pcap/analyze.c:172-177). */
  method AnalyzeIcmp(payload: seq<Byte>, len: int) returns (seen: Seen)
    requires len <= |payload|
    ensures seen == if GoodPayload(payload, len) then GoodIcmp else BadIcmp
  {
    var sum, _ := Checksum(payload, len);
    VerifiesIffDivisible(WordsLE(Prefix(payload, len)));
    seen := if sum != 0 && sum != 0xFFFF then BadIcmp else GoodIcmp;
  }

  /** Whatever was received, the independent receiver accepts both checksums of the reply, and the length the
      reply announces is the number of bytes that follow its Ethernet header. */
  lemma TimeExceededIsAccepted(own: Mac, ownAddr: Addr, buf: seq<Byte>)
    requires |buf| >= ETHER_LEN + QUOTED
    ensures var ip := TimeExceeded(own, ownAddr, buf)[ETHER_LEN..];
      Readable(ip) && Judge(ip) == GoodIcmp && Join(ip[3], ip[2]) == |ip|
  {
    var daddr, quote := buf[26..30], buf[ETHER_LEN..ETHER_LEN + QUOTED];
    AddressesIn(ownAddr, daddr);
    CheckedIpVerifies(ownAddr, daddr);
    CheckedIcmpVerifies(quote);
    TimeExceededLayout(own, ownAddr, buf);
    GoodReply(CheckedIp(ownAddr, daddr), CheckedIcmp(quote) + quote, TimeExceeded(own, ownAddr, buf)[ETHER_LEN..]);
  }

  /** The reply goes back to the sender of the packet, from the receiving device, and quotes the packet. */
  lemma TimeExceededLayout(own: Mac, ownAddr: Addr, buf: seq<Byte>)
    requires |buf| >= ETHER_LEN + QUOTED
    ensures var out, quote := TimeExceeded(own, ownAddr, buf), buf[14..78];
      && |out| == 106
      && out[..6] == buf[6..12] && out[6..12] == own && out[12..14] == [8, 0]
      && out[14..24] == [0x45, 0, 0, 92, 0, 0, 0, 0, 64, 1]
      && out[26..30] == ownAddr && out[30..34] == buf[26..30]
      && out[34] == 11 && out[35] == 0 && out[38..42] == [0, 0, 0, 0]
      && out[42..] == quote
      && out[ETHER_LEN..] == CheckedIp(ownAddr, buf[26..30]) + (CheckedIcmp(quote) + quote)
  {
    var quote := buf[ETHER_LEN..ETHER_LEN + QUOTED];
    var ip := CheckedIp(ownAddr, buf[26..30]);
    AddressesIn(ownAddr, buf[26..30]);
    ReplyPieces(buf[6..12], own, ip, CheckedIcmp(quote), quote);
    ReplyMiddle(buf[6..12] + own, ip, CheckedIcmp(quote), quote);
    FixedFields(ownAddr, buf[26..30], quote);
    assert buf[6..12] + own + [8, 0] + ip + CheckedIcmp(quote) + quote == TimeExceeded(own, ownAddr, buf);
    MiddleIs(TimeExceeded(own, ownAddr, buf), ip, CheckedIcmp(quote));
  }

  /** Time Exceeded in transit: type 11, code 0; and the fixed fields of its IP header. */
  lemma FixedFields(saddr: Addr, daddr: Addr, quote: seq<Byte>)
    ensures CheckedIp(saddr, daddr)[..10] == [0x45, 0, 0, 92, 0, 0, 0, 0, 64, 1]
    ensures var m := CheckedIcmp(quote); m[0] == 11 && m[1] == 0 && m[4..] == [0, 0, 0, 0]
  {
    assert StoreBE(92) == [0, 92];
  }

  lemma ReplyMiddle(macs: seq<Byte>, ip: seq<Byte>, icmp: seq<Byte>, quote: seq<Byte>)
    requires |macs| == 12 && |ip| == IP_LEN && |icmp| == 8
    ensures var out := macs + [8, 0] + ip + icmp + quote;
      out[12..14] == [8, 0] && out[14..34] == ip && out[34..42] == icmp
  {
  }

  lemma MiddleIs(out: seq<Byte>, ip: seq<Byte>, icmp: seq<Byte>)
    requires |out| >= 42 && |ip| == IP_LEN && |icmp| == 8 && out[14..34] == ip && out[34..42] == icmp
    ensures out[14..24] == ip[..10] && out[34] == icmp[0] && out[35] == icmp[1] && out[38..42] == icmp[4..]
  {
  }

  lemma AddressesIn(saddr: Addr, daddr: Addr)
    ensures CheckedIp(saddr, daddr)[12..16] == saddr && CheckedIp(saddr, daddr)[16..] == daddr
    ensures var h := CheckedIp(saddr, daddr); h[0] == 0x45 && Join(h[3], h[2]) == 92 && h[9] == IPPROTO_ICMP
  {
  }

  lemma ReplyPieces(dst: seq<Byte>, src: seq<Byte>, ip: seq<Byte>, icmp: seq<Byte>, quote: seq<Byte>)
    requires |dst| == |src| == 6 && |ip| == IP_LEN && |icmp| == 8
    ensures var out := dst + src + [8, 0] + ip + icmp + quote;
      && out[..6] == dst && out[6..12] == src
      && out[26..30] == ip[12..16] && out[30..34] == ip[16..] && out[42..] == quote
      && out[ETHER_LEN..] == ip + (icmp + quote)
  {
    var ether, ip1, ip2, ip3 := dst + src + [8, 0], ip[..12], ip[12..16], ip[16..];
    var out := dst + src + [8, 0] + ip + icmp + quote;
    assert ip == ip1 + ip2 + ip3;
    assert out == ether + (ip + (icmp + quote));
    assert out == (ether + ip1) + ip2 + (ip3 + icmp + quote);
    assert out == (ether + ip1 + ip2) + ip3 + (icmp + quote);
    assert out == (ether + ip + icmp) + quote;
  }

  lemma CheckedIpVerifies(saddr: Addr, daddr: Addr)
    ensures Sum(WordsLE(CheckedIp(saddr, daddr))) % 0xFFFF == 0
  {
    var h := ReplyIp(saddr, daddr, 0);
    var c := InternetChecksum(WordsLE(h));
    StoredChecksumVerifies(h, 10);
    IpChecked(saddr, daddr, c);
  }

  lemma IpChecked(saddr: Addr, daddr: Addr, c: Word)
    ensures Splice(ReplyIp(saddr, daddr, 0), 10, StoreLE(c)) == ReplyIp(saddr, daddr, c)
  {
  }

  lemma CheckedIcmpVerifies(quote: seq<Byte>)
    ensures Sum(WordsLE(CheckedIcmp(quote) + quote)) % 0xFFFF == 0
  {
    var m := ReplyIcmp(0) + quote;
    var c := InternetChecksum(WordsLE(m));
    StoredChecksumVerifies(m, 2);
    IcmpChecked(quote, c);
  }

  lemma IcmpChecked(quote: seq<Byte>, c: Word)
    ensures Splice(ReplyIcmp(0) + quote, 2, StoreLE(c)) == ReplyIcmp(c) + quote
  {
  }

  lemma GoodReply(h: seq<Byte>, m: seq<Byte>, ip: seq<Byte>)
    requires |h| == IP_LEN && |m| == 72 && ip == h + m
    requires h[0] == 0x45 && Join(h[3], h[2]) == 92 && h[9] == IPPROTO_ICMP
    requires Sum(WordsLE(h)) % 0xFFFF == 0 && Sum(WordsLE(m)) % 0xFFFF == 0
    ensures Readable(ip) && Judge(ip) == GoodIcmp && Join(ip[3], ip[2]) == |ip|
  {
    assert IpHeaderLen(ip) == IP_LEN && PayloadLen(ip) == 72;
    assert ip[..IP_LEN] == h;
    assert Prefix(ip[IP_LEN..], 72) == m;
  }
}
