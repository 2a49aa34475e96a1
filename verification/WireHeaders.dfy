/** The IPv4 and UDP headers and the location of the surplus area behind the
    UDP payload (sections 7 and 8 of RFC 9868). */
module WireHeaders {
  import opened Bytes
  import opened Checksums

  const IPPROTO_UDP: u8 := 17
  const DEFAULT_TTL: u8 := 64
  const IP_HEADER_LEN: nat := 20
  const UDP_HEADER_LEN: nat := 8

  datatype HeaderError =
    | IpTruncated(need: nat, have: nat)
    | UnsupportedVersion(version: nat)
    | BadIhl(ihl: nat)
    | BadIpLength(length: u16)
    | IpChecksumMismatch
    | UnexpectedProtocol(protocol: u8)
    | UdpTruncated(udpHave: nat)
    | UdpLengthInvalid(udpLength: u16)

  datatype IpRepr = IpRepr(src: Addr, dst: Addr, ihl: nat, totalLen: u16) {
    function HeaderLen(): nat {
      ihl * 4
    }

    function TransportLen(): nat {
      if totalLen >= ihl * 4 then totalLen - ihl * 4 else 0
    }
  }

  datatype UdpHeader = UdpHeader(srcPort: u16, dstPort: u16, length: u16, checksum: u16)

  function ParseIp(b: seq<u8>): (r: Result<IpRepr, HeaderError>)
    ensures r.Ok? ==> 20 <= r.value.HeaderLen() <= r.value.totalLen <= |b|
  {
    if |b| == 0 then Err(IpTruncated(1, 0))
    else if b[0] / 16 != 4 then Err(UnsupportedVersion(b[0] / 16))
    else if |b| < IP_HEADER_LEN then Err(IpTruncated(IP_HEADER_LEN, |b|))
    else
      var ihl := b[0] % 16;
      if ihl < 5 then Err(BadIhl(ihl))
      else if |b| < ihl * 4 then Err(IpTruncated(ihl * 4, |b|))
      else
        var totalLen := U16At(b, 2);
        if totalLen < ihl * 4 || totalLen > |b| then Err(BadIpLength(totalLen))
        else if b[9] != IPPROTO_UDP then Err(UnexpectedProtocol(b[9]))
        else if Rep(WordSum(b[..ihl * 4])) != 0xFFFF then Err(IpChecksumMismatch)
        else Ok(IpRepr(b[12..16], b[16..20], ihl, totalLen))
  }

  /** The 20-byte header with a given value in its checksum field. */
  function IpBytesWith(ip: IpRepr, checksum: u16): (b: seq<u8>)
    ensures |b| == IP_HEADER_LEN
  {
    IpLead(ip) + U16Bytes(checksum) + (ip.src + ip.dst)
  }

  function IpLead(ip: IpRepr): (b: seq<u8>)
    ensures |b| == 10
  {
    [0x45, 0] + U16Bytes(ip.totalLen) + [0, 0, 0, 0, DEFAULT_TTL, IPPROTO_UDP]
  }

  function IpBytes(ip: IpRepr): (b: seq<u8>)
    ensures |b| == IP_HEADER_LEN
  {
    IpBytesWith(ip, 0xFFFF - Rep(WordSum(IpBytesWith(ip, 0))))
  }

  /** Writes the header, without IP options, at the front of `out`. */
  method WriteIp(ip: IpRepr, out: array<u8>)
    requires ip.ihl == 5 && out.Length >= IP_HEADER_LEN
    modifies out
    ensures out[..20] == IpBytes(ip) && out[20..] == old(out[20..])
  {
    hide Rep, WordSum;
    WriteIpFields(ip, out);
    var checksum := InternetChecksum(out[..20]);
    ghost var before := out[..20];
    out[10], out[11] := checksum / 256, checksum % 256;
    assert out[..20] == before[..10] + U16Bytes(checksum) + before[12..];
    IpChecksumField(ip, checksum);
  }

  /** All fields but the checksum, which stays zero. */
  method WriteIpFields(ip: IpRepr, out: array<u8>)
    requires ip.ihl == 5 && out.Length >= IP_HEADER_LEN
    modifies out
    ensures out[..20] == IpBytesWith(ip, 0) && out[20..] == old(out[20..])
  {
    forall i | 0 <= i < 20 { out[i] := 0; }
    out[0] := 0x45;
    out[2], out[3] := ip.totalLen / 256, ip.totalLen % 256;
    out[8], out[9] := DEFAULT_TTL, IPPROTO_UDP;
    forall i | 0 <= i < 4 { out[12 + i] := ip.src[i]; }
    forall i | 0 <= i < 4 { out[16 + i] := ip.dst[i]; }
    assert out[..10] == IpLead(ip);
    assert out[12..16] == ip.src && out[16..20] == ip.dst;
    assert out[..20] == out[..10] + out[10..12] + (out[12..16] + out[16..20]);
    assert out[10..12] == U16Bytes(0);
  }

  lemma IpChecksumField(ip: IpRepr, checksum: u16)
    ensures var b := IpBytesWith(ip, 0);
            IpBytesWith(ip, checksum) == b[..10] + U16Bytes(checksum) + b[12..]
  {
  }

  /** A total together with the complement of its sum folds to all ones. */
  lemma ComplementFolds(n: nat)
    ensures Rep(n + (0xFFFF - Rep(n))) == 0xFFFF
  {
    RepAbsorb(n, 0xFFFF - Rep(n));
  }

  lemma IpChecksumFolds(ip: IpRepr)
    ensures Rep(WordSum(IpBytes(ip))) == 0xFFFF
  {
    var zeroed := IpBytesWith(ip, 0);
    var checksum := 0xFFFF - Rep(WordSum(zeroed));
    IpSum(ip, checksum);
    IpSum(ip, 0);
    ComplementFolds(WordSum(zeroed));
  }

  lemma IpSum(ip: IpRepr, checksum: u16)
    ensures WordSum(IpBytesWith(ip, checksum)) == WordSum(IpLead(ip)) + checksum + WordSum(ip.src + ip.dst)
  {
    WordSumConcat(IpLead(ip) + U16Bytes(checksum), ip.src + ip.dst);
    WordSumConcat(IpLead(ip), U16Bytes(checksum));
    WordSumPair(checksum);
  }

  /** Every written header is read back unchanged, whatever follows it, provided
      the buffer holds the announced number of bytes. */
  lemma IpRoundTrip(ip: IpRepr, rest: seq<u8>)
    requires ip.ihl == 5
    requires 20 <= ip.totalLen <= 20 + |rest|
    ensures ParseIp(IpBytes(ip) + rest) == Ok(ip)
  {
    var b := IpBytes(ip) + rest;
    assert b[..20] == IpBytes(ip);
    assert b[0] == 0x45 && b[9] == IPPROTO_UDP;
    assert b[2] == ip.totalLen / 256 && b[3] == ip.totalLen % 256;
    IpChecksumFolds(ip);
    assert b[12..16] == ip.src && b[16..20] == ip.dst;
  }

  function ParseUdp(b: seq<u8>): (r: Result<UdpHeader, HeaderError>)
    ensures r.Ok? ==> r.value.length >= UDP_HEADER_LEN && |b| >= UDP_HEADER_LEN
  {
    if |b| < UDP_HEADER_LEN then Err(UdpTruncated(|b|))
    else
      var length := U16At(b, 4);
      if length < UDP_HEADER_LEN then Err(UdpLengthInvalid(length))
      else Ok(UdpHeader(U16At(b, 0), U16At(b, 2), length, U16At(b, 6)))
  }

  function UdpBytes(h: UdpHeader): (b: seq<u8>)
    ensures |b| == UDP_HEADER_LEN
  {
    U16Bytes(h.srcPort) + U16Bytes(h.dstPort) + U16Bytes(h.length) + U16Bytes(h.checksum)
  }

  /** Writes the eight header bytes at offset `at`. */
  method WriteUdp(h: UdpHeader, out: array<u8>, at: nat)
    requires at + UDP_HEADER_LEN <= out.Length
    modifies out
    ensures out[at..at + 8] == UdpBytes(h)
    ensures out[..at] == old(out[..at]) && out[at + 8..] == old(out[at + 8..])
  {
    out[at], out[at + 1] := h.srcPort / 256, h.srcPort % 256;
    out[at + 2], out[at + 3] := h.dstPort / 256, h.dstPort % 256;
    out[at + 4], out[at + 5] := h.length / 256, h.length % 256;
    out[at + 6], out[at + 7] := h.checksum / 256, h.checksum % 256;
  }

  lemma UdpRoundTrip(h: UdpHeader, rest: seq<u8>)
    requires h.length >= UDP_HEADER_LEN
    ensures ParseUdp(UdpBytes(h) + rest) == Ok(h)
  {
    var b := UdpBytes(h) + rest;
    assert b[0] == h.srcPort / 256 && b[1] == h.srcPort % 256;
    assert b[2] == h.dstPort / 256 && b[3] == h.dstPort % 256;
    assert b[4] == h.length / 256 && b[5] == h.length % 256;
    assert b[6] == h.checksum / 256 && b[7] == h.checksum % 256;
  }

  /** The unfolded RFC 768 pseudo-header sum. */
  function PseudoSum(src: Addr, dst: Addr, udpLen: u16): nat {
    WordSum(src) + WordSum(dst) + IPPROTO_UDP + udpLen
  }

  method PseudoHeaderSum(ip: IpRepr, udpLen: u16) returns (sum: Checksum)
    ensures fresh(sum) && sum.Valid() && sum.total == PseudoSum(ip.src, ip.dst, udpLen)
  {
    sum := new Checksum();
    sum.AddSlice(ip.src);
    sum.AddSlice(ip.dst);
    sum.AddU16(IPPROTO_UDP);
    sum.AddU16(udpLen);
  }

  /** Everything the UDP checksum covers, with its own field taken as zero. */
  function UdpCoverage(src: Addr, dst: Addr, h: UdpHeader, data: seq<u8>): nat {
    PseudoSum(src, dst, h.length) + h.srcPort + h.dstPort + h.length + WordSum(data)
  }

  /** The wire value of the UDP checksum: a computed zero is sent as all ones. */
  function UdpChecksum(src: Addr, dst: Addr, h: UdpHeader, data: seq<u8>): (c: u16)
    ensures c != 0
    ensures (UdpCoverage(src, dst, h, data) + c) % 65535 == 0
  {
    var n := UdpCoverage(src, dst, h, data);
    ComplementFolds(n);
    RepAllOnes(n + (0xFFFF - Rep(n)));
    var c := 0xFFFF - Rep(n);
    if c == 0 then
      ModAdd(n, 0, 0xFFFF);
      0xFFFF
    else c
  }

  method ComputeChecksum(h: UdpHeader, ip: IpRepr, data: seq<u8>) returns (c: u16)
    requires h.length == UDP_HEADER_LEN + |data|
    ensures c == UdpChecksum(ip.src, ip.dst, h, data)
  {
    var sum := PseudoHeaderSum(ip, h.length);
    sum.AddU16(h.srcPort);
    sum.AddU16(h.dstPort);
    sum.AddU16(h.length);
    sum.AddSlice(data);
    c := sum.Finish();
    if c == 0 {
      c := 0xFFFF;
    }
  }

  lemma HeaderIsEven(ip: IpRepr)
    ensures ip.HeaderLen() % 2 == 0
  {
    DoubleIsEven(ip.ihl * 2, ip.HeaderLen());
  }

  /** The surplus area relative to the start of the IP datagram. */
  datatype SurplusLayout = SurplusLayout(startsAt: nat, needsPad: bool, len: nat) {
    function OcsAt(): nat {
      startsAt + Flag(needsPad)
    }
  }

  /** Where the surplus area is: exactly the transport bytes past the UDP Length,
      usable only when an OCS fits at an even offset. */
  function LocateSurplus(ip: IpRepr, udp: UdpHeader): (r: Option<SurplusLayout>)
    ensures r.Some? ==>
              && r.value.OcsAt() % 2 == 0
              && r.value.OcsAt() + 2 <= r.value.startsAt + r.value.len == ip.HeaderLen() + ip.TransportLen()
    ensures r.None? ==> ip.TransportLen() <= udp.length + 2
  {
    if ip.TransportLen() < udp.length then None
    else
      var surplus := ip.TransportLen() - udp.length;
      var start := ip.HeaderLen() + udp.length;
      var needsPad := start % 2 == 1;
      if surplus == 0 || surplus < Flag(needsPad) + 2 then None
      else Some(SurplusLayout(start, needsPad, surplus))
  }
}
