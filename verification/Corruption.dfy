/** One byte of a datagram changed on its way: what the receiver makes of it. */
module Corruption {
  import opened Bytes
  import opened OptionKinds
  import opened Checksums
  import opened OptionChecksum
  import opened WireHeaders
  import opened Assembly
  import opened OptionScan
  import opened Reassembly
  import opened Pipeline
  import opened EndToEnd
  import opened ReceiveFacts

  /** Changing one byte moves a sum that was a multiple of 65535 off the multiples. */
  lemma ByteMovesSum(b: seq<u8>, i: nat, v: u8, base: nat)
    requires i < |b| && v != b[i] && (base + WordSum(b)) % 65535 == 0
    ensures (base + WordSum(b[i := v])) % 65535 != 0
  {
    hide WordSum;
    WordSumUpdate(b, i, v);
    ByteDelta(v - b[i], i);
    ResidueMoves(base + WordSum(b), (v - b[i]) * Weight(i));
  }

  /** The headers of an assembled datagram in front of any bytes of the same length are read
      as they were sent, up to the UDP checksum. */
  lemma AnyRestIsRead(a: Addrs, data: seq<u8>, body: seq<u8>, rest: seq<u8>)
    requires Sendable(data, body) && |rest| == |data| + SurplusLen(|data|, body)
    ensures var d := IpBytes(SentIp(a, data, body)) + (UdpBytes(SentUdp(a, data)) + rest);
            var v := View(SentIp(a, data, body), SentUdp(a, data), d);
            && v.Valid() && ReadHeaders(d) == CheckUdp(v)
            && |d| == 28 + |rest| && d[28..] == rest && v.UserData() == rest[..|data|]
  {
    hide IpBytes, UdpBytes, UdpChecksum, ParseIp, ParseUdp, CheckUdp;
    var ip, udp := SentIp(a, data, body), SentUdp(a, data);
    var d := IpBytes(ip) + (UdpBytes(udp) + rest);
    IpRoundTrip(ip, UdpBytes(udp) + rest);
    UdpRoundTrip(udp, rest);
    TwoHeaders(IpBytes(ip), UdpBytes(udp), rest, |data|);
    assert d[..ip.totalLen] == d;
  }

  lemma TwoHeaders(h: seq<u8>, u: seq<u8>, rest: seq<u8>, n: nat)
    requires |h| == 20 && |u| == 8 && n <= |rest|
    ensures var d := h + (u + rest); d[20..] == u + rest && d[28..] == rest && d[28..28 + n] == rest[..n]
  {
    var d := h + (u + rest);
    assert d[28..] == d[20..][8..];
    assert d[28..28 + n] == d[28..][..n];
  }

  lemma UpdateBehind(head: seq<u8>, rest: seq<u8>, i: nat, v: u8)
    requires |head| <= i < |head| + |rest|
    ensures (head + rest)[i := v] == head + rest[i - |head| := v]
  {
  }

  /** The options of a datagram damaged in its surplus area are ignored altogether: the data
      arrive, nothing else does, and the cache is as before. */
  lemma DamagedOptionsAreIgnored(a: Addrs, data: seq<u8>, body: seq<u8>, i: nat, v: u8, m: CacheState, limits: Limits, now: nat, crc: Crc)
    requires Sendable(data, body) && 28 + |data| <= i < |Datagram(a, data, body)| && v != Datagram(a, data, body)[i]
    ensures var (r, n) := ProcessDatagram(Datagram(a, data, body)[i := v], m, limits, now, crc);
            && n == m
            && (r == Ok(Payload(data, [], true, [], [OcsReport(OcsFailed, FromDatagram)]))
                || r == Ok(Payload(data, [], true, [], [OcsReport(OcsInvalidZero, FromDatagram)])))
  {
    hide ProcessDatagram, ReadHeaders, IpBytes, UdpBytes, UdpChecksum, Surplus, WordSum, Datagram, TrustOf;
    var at := i - 28 - |data|;
    var surplus := Surplus(data, body)[at := v];
    var d := Datagram(a, data, body)[i := v];
    UpdateSurplus(a, data, body, i, v);
    AnyRestIsRead(a, data, body, data + surplus);
    assert (data + surplus)[..|data|] == data;
    var w := View(SentIp(a, data, body), SentUdp(a, data), d);
    assert CheckUdp(w) == Ok(w);
    DamagedSurplusIsDistrusted(a, data, body, at, v, w);
    UntrustedOptionsAreIgnored(d, m, limits, now, crc);
  }

  lemma UpdateSurplus(a: Addrs, data: seq<u8>, body: seq<u8>, i: nat, v: u8)
    requires Sendable(data, body) && 28 + |data| <= i < |Datagram(a, data, body)|
    ensures var surplus := Surplus(data, body)[i - 28 - |data| := v];
            && Datagram(a, data, body)[i := v]
               == IpBytes(SentIp(a, data, body)) + (UdpBytes(SentUdp(a, data)) + (data + surplus))
            && Datagram(a, data, body)[i] == Surplus(data, body)[i - 28 - |data|]
  {
    hide IpBytes, UdpBytes, UdpChecksum, Surplus;
    var h, u, s := IpBytes(SentIp(a, data, body)), UdpBytes(SentUdp(a, data)), Surplus(data, body);
    UpdateBehind(h, u + (data + s), i, v);
    UpdateBehind(u, data + s, i - 20, v);
    UpdateBehind(data, s, i - 28, v);
  }

  lemma DamagedSurplusIsDistrusted(a: Addrs, data: seq<u8>, body: seq<u8>, at: nat, v: u8, w: View)
    requires Sendable(data, body) && at < |Surplus(data, body)| && v != Surplus(data, body)[at]
    requires w.ip == SentIp(a, data, body) && w.udp == SentUdp(a, data) && w.Valid()
    requires |w.bytes| == 28 + |data| + |Surplus(data, body)| && w.bytes[28..] == data + Surplus(data, body)[at := v]
    ensures HasSurplus(w) && (TrustOf(w) == OcsFailed || TrustOf(w) == OcsInvalidZero)
  {
    hide UdpChecksum, Patched, WordSum, Surplus;
    var pad, n := |data| % 2, |Surplus(data, body)|;
    SurplusNeedsBody(data, body);
    OcsPlace(w, |data|);
    if at < pad {
      PadIsFirst(data, body);
      assert w.bytes[28 + |data|] == w.bytes[28..][|data|] == v;
    } else {
      var p := Patched(body, n);
      BehindPad(w.bytes, data, body, at, v);
      PatchedIsValid(body, n, 0);
      ByteMovesSum(p, at - pad, v, n);
    }
  }

  lemma SurplusNeedsBody(data: seq<u8>, body: seq<u8>)
    requires Sendable(data, body) && Surplus(data, body) != []
    ensures body != [] && |Surplus(data, body)| == |data| % 2 + |body|
  {
  }

  lemma OcsPlace(w: View, n: nat)
    requires w.UdpAt() == 20 && w.udp.length == 8 + n
    ensures SurplusAt(w) == 28 + n && SurplusAt(w) % 2 == n % 2 && OcsPos(w) == 28 + n + n % 2
  {
  }

  lemma PadIsFirst(data: seq<u8>, body: seq<u8>)
    requires Sendable(data, body) && body != [] && |data| % 2 == 1
    ensures Surplus(data, body)[0] == 0
  {
  }

  lemma BehindPad(bytes: seq<u8>, data: seq<u8>, body: seq<u8>, at: nat, v: u8)
    requires Sendable(data, body) && body != [] && |data| % 2 <= at < |Surplus(data, body)|
    requires |bytes| == 28 + |data| + |Surplus(data, body)| && bytes[28..] == data + Surplus(data, body)[at := v]
    ensures var pad := |data| % 2;
            && at - pad < |body|
            && bytes[28 + |data| + pad..] == Patched(body, |Surplus(data, body)|)[at - pad := v]
            && Surplus(data, body)[at] == Patched(body, |Surplus(data, body)|)[at - pad]
  {
    hide Patched;
    var pad := |data| % 2;
    assert bytes[28 + |data| + pad..] == bytes[28..][|data| + pad..];
  }

  /** Damaged user data are refused, and the cache is as before. */
  lemma DamagedDataAreRefused(a: Addrs, data: seq<u8>, body: seq<u8>, i: nat, v: u8, m: CacheState, limits: Limits, now: nat, crc: Crc)
    requires Sendable(data, body) && 28 <= i < 28 + |data| && v != Datagram(a, data, body)[i]
    ensures var (r, n) := ProcessDatagram(Datagram(a, data, body)[i := v], m, limits, now, crc);
            n == m && r.Err? && r.error.UdpChecksumMismatch? && r.error.actual == SentUdp(a, data).checksum
  {
    hide ProcessDatagram, ReadHeaders, IpBytes, UdpBytes, UdpChecksum, Surplus, WordSum, Datagram;
    var damaged := data[i - 28 := v];
    var rest := damaged + Surplus(data, body);
    UpdateData(a, data, body, i, v);
    AnyRestIsRead(a, data, body, rest);
    assert rest[..|data|] == damaged;
    DamagedChecksum(a, data, i - 28, v);
    RefusedHeaders(Datagram(a, data, body)[i := v], m, limits, now, crc);
  }

  lemma RefusedHeaders(d: seq<u8>, m: CacheState, limits: Limits, now: nat, crc: Crc)
    requires ReadHeaders(d).Err?
    ensures ProcessDatagram(d, m, limits, now, crc) == (Err(ReadHeaders(d).error), m)
  {
    hide ReadHeaders;
  }

  lemma UpdateData(a: Addrs, data: seq<u8>, body: seq<u8>, i: nat, v: u8)
    requires Sendable(data, body) && 28 <= i < 28 + |data|
    ensures Datagram(a, data, body)[i := v]
         == IpBytes(SentIp(a, data, body)) + (UdpBytes(SentUdp(a, data)) + (data[i - 28 := v] + Surplus(data, body)))
    ensures Datagram(a, data, body)[i] == data[i - 28]
  {
    hide IpBytes, UdpBytes, UdpChecksum, Surplus;
    var h, u, s := IpBytes(SentIp(a, data, body)), UdpBytes(SentUdp(a, data)), Surplus(data, body);
    UpdateBehind(h, u + (data + s), i, v);
    UpdateBehind(u, data + s, i - 20, v);
    assert (data + s)[i - 28 := v] == data[i - 28 := v] + s;
  }

  lemma DamagedChecksum(a: Addrs, data: seq<u8>, j: nat, v: u8)
    requires 8 + |data| <= 0xFFFF && j < |data| && v != data[j]
    ensures var h := SentUdp(a, data);
            UdpChecksum(a.src, a.dst, h.(checksum := 0), data[j := v]) != h.checksum
  {
    hide UdpChecksum, WordSum;
    var h, damaged := SentUdp(a, data), data[j := v];
    var bare := h.(checksum := 0);
    ChecksumIsRightIff(a.src, a.dst, h, damaged);
    var base := UdpCoverage(a.src, a.dst, bare, data) - WordSum(data) + h.checksum;
    assert (UdpCoverage(a.src, a.dst, bare, data) + h.checksum) % 65535 == 0;
    assert base + WordSum(data) == UdpCoverage(a.src, a.dst, bare, data) + h.checksum;
    ByteMovesSum(data, j, v, base);
    assert base + WordSum(damaged) == UdpCoverage(a.src, a.dst, h, damaged) + h.checksum;
  }

  /** A damaged IPv4 header, its first byte aside, is refused, and the cache is as before. */
  lemma DamagedIpHeaderIsRefused(a: Addrs, data: seq<u8>, body: seq<u8>, i: nat, v: u8, m: CacheState, limits: Limits, now: nat, crc: Crc)
    requires Sendable(data, body) && 1 <= i < 20 && v != Datagram(a, data, body)[i]
    ensures var (r, n) := ProcessDatagram(Datagram(a, data, body)[i := v], m, limits, now, crc);
            n == m && r.Err?
  {
    hide ProcessDatagram, ReadHeaders, Surplus, WordSum, UdpBytes, Rep, IpBytes, SentUdp;
    var ip := SentIp(a, data, body);
    var h, d := IpBytes(ip), Datagram(a, data, body);
    assert d[..20] == h && d[i := v][..20] == h[i := v];
    FixedIpFields(ip);
    assert d[0] == h[0];
    IpChecksumFolds(ip);
    RepAllOnes(WordSum(h));
    ByteMovesSum(h, i, v, 0);
    HeadersAcceptedIff(d[i := v]);
    RefusedHeaders(d[i := v], m, limits, now, crc);
  }

  /** The constant fields of every header sent: version 4 without options, no type of
      service, identification or fragmentation, the default time to live, and UDP. */
  lemma FixedIpFields(ip: IpRepr)
    ensures var b := IpBytes(ip);
            && b[0] == 0x45 && b[1] == 0 && b[4..8] == [0, 0, 0, 0] && b[8] == 64 && b[9] == 17
  {
    hide WordSum, Rep, U16Bytes;
  }
}
