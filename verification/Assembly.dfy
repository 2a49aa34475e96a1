/** Building one IPv4 datagram with its surplus area, and why old receivers
    still accept it. */
module Assembly {
  import opened Bytes
  import opened Checksums
  import opened OptionChecksum
  import opened WireHeaders

  /** The UDP 4-tuple of a sender. */
  datatype Addrs = Addrs(src: Addr, dst: Addr, srcPort: u16, dstPort: u16)

  /** The alignment pad in front of a non-empty options body. */
  function Pad(dataLen: nat, body: seq<u8>): (p: seq<u8>)
    ensures |p| <= 1
  {
    if body != [] && dataLen % 2 == 1 then [0] else []
  }

  function SurplusLen(dataLen: nat, body: seq<u8>): nat {
    |Pad(dataLen, body)| + |body|
  }

  /** Everything the assembler insists on: an OCS-led body and 16-bit lengths. */
  predicate Sendable(data: seq<u8>, body: seq<u8>) {
    && (body == [] || |body| >= OCS_LEN)
    && 28 + |data| + SurplusLen(|data|, body) <= 0xFFFF
  }

  function SentIp(a: Addrs, data: seq<u8>, body: seq<u8>): IpRepr
    requires Sendable(data, body)
  {
    IpRepr(a.src, a.dst, 5, 28 + |data| + SurplusLen(|data|, body))
  }

  function SentUdp(a: Addrs, data: seq<u8>): (h: UdpHeader)
    requires 8 + |data| <= 0xFFFF
  {
    var h := UdpHeader(a.srcPort, a.dstPort, 8 + |data|, 0);
    h.(checksum := UdpChecksum(a.src, a.dst, h, data))
  }

  /** The bytes behind the UDP payload. */
  function Surplus(data: seq<u8>, body: seq<u8>): (s: seq<u8>)
    requires Sendable(data, body)
    ensures |s| == SurplusLen(|data|, body)
  {
    Pad(|data|, body) + (if body == [] then [] else Patched(body, SurplusLen(|data|, body)))
  }

  function Datagram(a: Addrs, data: seq<u8>, body: seq<u8>): (d: seq<u8>)
    requires Sendable(data, body)
    ensures |d| == SentIp(a, data, body).totalLen
  {
    IpBytes(SentIp(a, data, body)) + (UdpBytes(SentUdp(a, data)) + (data + Surplus(data, body)))
  }

  function Head(a: Addrs, data: seq<u8>, body: seq<u8>): (h: seq<u8>)
    requires Sendable(data, body)
    ensures |h| == 28 + |data|
  {
    IpBytes(SentIp(a, data, body)) + (UdpBytes(SentUdp(a, data)) + data)
  }

  lemma DatagramSplits(a: Addrs, data: seq<u8>, body: seq<u8>)
    requires Sendable(data, body)
    ensures Datagram(a, data, body) == Head(a, data, body) + Surplus(data, body)
  {
  }

  lemma SurplusSplits(head: seq<u8>, data: seq<u8>, body: seq<u8>)
    requires Sendable(data, body) && body != []
    ensures head + Surplus(data, body) == head + Pad(|data|, body) + Patched(body, SurplusLen(|data|, body))
  {
  }

  /** Headers and user data at the front of a zeroed buffer. */
  method WriteHead(buf: array<u8>, ip: IpRepr, udp: UdpHeader, data: seq<u8>)
    requires ip.ihl == 5 && 28 + |data| <= buf.Length
    modifies buf
    ensures buf[..28 + |data|] == IpBytes(ip) + (UdpBytes(udp) + data)
    ensures buf[28 + |data|..] == old(buf[28 + |data|..])
  {
    var tail := old(buf[28 + |data|..]);
    WriteIp(ip, buf);
    assert buf[28 + |data|..] == buf[20..][8 + |data|..] == tail;
    WriteUdp(udp, buf, 20);
    assert buf[28 + |data|..] == buf[28..][|data|..] == tail;
    forall i | 0 <= i < |data| { buf[28 + i] := data[i]; }
    assert buf[..20] == IpBytes(ip);
    assert buf[20..28] == UdpBytes(udp);
    assert buf[28..28 + |data|] == data;
  }

  /** Copies the options body behind the pad and patches its OCS in place. */
  method WriteBody(buf: array<u8>, ocsAt: nat, body: seq<u8>, surplusLen: u16)
    requires |body| >= OCS_LEN && ocsAt + |body| == buf.Length
    modifies buf
    ensures buf[..] == old(buf[..ocsAt]) + Patched(body, surplusLen)
  {
    forall i | 0 <= i < |body| { buf[ocsAt + i] := body[i]; }
    assert buf[ocsAt..] == body;
    Compute(buf, ocsAt, surplusLen);
    assert buf[..] == buf[..ocsAt] + buf[ocsAt..];
  }

  /** Builds the datagram in one zeroed buffer. */
  method AssembleDatagram(a: Addrs, data: seq<u8>, body: seq<u8>) returns (buf: array<u8>)
    requires Sendable(data, body)
    ensures fresh(buf) && buf[..] == Datagram(a, data, body)
  {
    hide IpBytes, UdpBytes, UdpChecksum, Patched, Datagram;
    var udpLen := UDP_HEADER_LEN + |data|;
    var naturalStart := UDP_HEADER_LEN + 20 + |data|;
    var needsPad := body != [] && naturalStart % 2 == 1;
    var surplusLen := if body == [] then 0 else Flag(needsPad) + |body|;
    var totalLen := 20 + udpLen + surplusLen;
    var ip := IpRepr(a.src, a.dst, 5, totalLen);
    buf := new u8[totalLen](_ => 0);
    var udp := UdpHeader(a.srcPort, a.dstPort, udpLen, 0);
    var checksum := ComputeChecksum(udp, ip, data);
    udp := udp.(checksum := checksum);
    ghost var head, pad := Head(a, data, body), Pad(|data|, body);
    WriteHead(buf, ip, udp, data);
    assert buf[..28 + |data|] == head;
    if body != [] {
      var ocsAt := naturalStart + Flag(needsPad);
      assert buf[..ocsAt] == head + pad by {
        assert needsPad ==> buf[28 + |data|..][0] == 0;
      }
      WriteBody(buf, ocsAt, body, surplusLen);
      SurplusSplits(head, data, body);
    } else {
      assert buf[..] == buf[..28 + |data|];
    }
    DatagramSplits(a, data, body);
  }

  /** What a receiver that predates UDP options sums: the pseudo-header with the
      length taken from IP, and the whole IP payload. */
  function LegacySum(d: seq<u8>): nat
    requires |d| >= 20
  {
    PseudoSum(d[12..16], d[16..20], 0) + (|d| - 20) + WordSum(d[20..])
  }

  lemma PaddedSum(data: seq<u8>, p: seq<u8>)
    requires p != []
    ensures WordSum(data + (Pad(|data|, p) + p)) == WordSum(data) + WordSum(p)
  {
    if |data| % 2 == 1 {
      WordSumPad(data);
      assert data + ([0] + p) == (data + [0]) + p;
      WordSumConcat(data + [0], p);
    } else {
      assert [] + p == p;
      WordSumConcat(data, p);
    }
  }

  lemma SurplusSum(data: seq<u8>, body: seq<u8>)
    requires Sendable(data, body)
    ensures WordSum(data + Surplus(data, body))
         == WordSum(data) + (if body == [] then 0 else WordSum(Patched(body, SurplusLen(|data|, body))))
  {
    if body == [] {
      assert data + Surplus(data, body) == data;
    } else {
      PaddedSum(data, Patched(body, SurplusLen(|data|, body)));
    }
  }

  lemma UdpSum(h: UdpHeader, rest: seq<u8>)
    ensures WordSum(UdpBytes(h) + rest) == h.srcPort + h.dstPort + h.length + h.checksum + WordSum(rest)
  {
    var a, b, c, d := U16Bytes(h.srcPort), U16Bytes(h.dstPort), U16Bytes(h.length), U16Bytes(h.checksum);
    WordSumConcat(UdpBytes(h), rest);
    WordSumConcat(a + b + c, d);
    WordSumConcat(a + b, c);
    WordSumConcat(a, b);
    WordSumPair(h.srcPort);
    WordSumPair(h.dstPort);
    WordSumPair(h.length);
    WordSumPair(h.checksum);
  }

  lemma ModSum(x: nat, y: nat)
    requires x % 65535 == 0 && y % 65535 == 0
    ensures (x + y) % 65535 == 0
  {
    ModAdd(x, 0, y);
  }

  lemma DatagramParts(a: Addrs, data: seq<u8>, body: seq<u8>)
    requires Sendable(data, body)
    ensures var d := Datagram(a, data, body);
            && d[12..16] == a.src && d[16..20] == a.dst
            && d[20..] == UdpBytes(SentUdp(a, data)) + (data + Surplus(data, body))
  {
    hide UdpBytes, UdpChecksum, Surplus, WordSum, Rep, U16Bytes;
  }

  /** The purpose of the OCS: every assembled datagram, with or without options
      and for odd and even payloads, also passes the check of a receiver that
      checksums the whole IP payload. */
  lemma LegacyReceiversAccept(a: Addrs, data: seq<u8>, body: seq<u8>)
    requires Sendable(data, body)
    ensures Rep(LegacySum(Datagram(a, data, body))) == 0xFFFF
  {
    hide Datagram, UdpBytes, WordSum, Rep, Patched, UdpChecksum, Surplus;
    var d, h := Datagram(a, data, body), SentUdp(a, data);
    var n := SurplusLen(|data|, body);
    DatagramParts(a, data, body);
    UdpSum(h, data + Surplus(data, body));
    SurplusSum(data, body);
    var bare := h.(checksum := 0);
    var udpPart := UdpCoverage(a.src, a.dst, bare, data) + h.checksum;
    var ocsPart := if body == [] then 0 else WordSum(Patched(body, n)) + n;
    if body != [] {
      PatchedIsValid(body, n, 0);
    }
    assert LegacySum(d) == udpPart + ocsPart;
    ModSum(udpPart, ocsPart);
    RepAllOnes(LegacySum(d));
  }
}
