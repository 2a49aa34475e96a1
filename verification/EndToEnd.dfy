/** From the sender's call to the receiver's delivery, over the bytes on the wire. */
module EndToEnd {
  import opened Bytes
  import opened OptionKinds
  import opened OptionParser
  import opened OptionSerializer
  import opened OptionChecksum
  import opened WireHeaders
  import opened Assembly
  import opened FragSplit
  import opened OptionScan
  import opened ScanFacts
  import opened Reassembly
  import opened ReassemblyInvariant
  import opened FragmentDelivery
  import opened DeliveryRuns
  import opened Pipeline
  import opened PipelineFacts

  // ---- reading what the assembler wrote ----

  /** The distance of the option area from the UDP header. */
  function AreaOffset(payloadLen: nat): nat {
    8 + payloadLen + payloadLen % 2 + 2
  }

  /** A datagram laid out as headers, payload, pad and body `x`. */
  predicate LaidOut(v: View, payload: seq<u8>, x: seq<u8>) {
    && v.Valid() && v.ip.ihl == 5 && v.ip.totalLen == |v.bytes| && v.udp.length == 8 + |payload|
    && (x == [] || |x| >= 2)
    && |v.bytes| == 28 + |payload| + SurplusLen(|payload|, x)
    && v.bytes[28..] == payload + (Pad(|payload|, x) + x)
  }

  lemma LaidOutPieces(v: View, payload: seq<u8>, x: seq<u8>)
    requires LaidOut(v, payload, x)
    ensures v.UserData() == payload
    ensures LocateSurplus(v.ip, v.udp)
         == if x == [] then None
            else Some(SurplusLayout(28 + |payload|, |payload| % 2 == 1, SurplusLen(|payload|, x)))
    ensures x != [] ==> v.bytes[28 + |payload| + |payload| % 2..] == x
    ensures x != [] && |payload| % 2 == 1 ==> v.bytes[28 + |payload|] == 0
  {
    var rest := v.bytes[28..];
    assert v.bytes[28..28 + |payload|] == rest[..|payload|] == payload;
    if x != [] {
      var at := |payload| + |payload| % 2;
      assert v.bytes[28 + at..] == rest[at..] == x;
      if |payload| % 2 == 1 {
        assert v.bytes[28 + |payload|] == rest[|payload|] == 0;
      }
    }
  }

  /** The options of such a datagram once its OCS was accepted with a given status. */
  function Trusted(payload: seq<u8>, x: seq<u8>, crc: Crc, ocs: OcsStatus): Reading
    requires x == [] || |x| >= 2
  {
    if x == [] then NoOptions(DataOnly(payload, false, OcsAbsent))
    else ReadArea(x[2..], payload, AreaOffset(|payload|), crc(payload), ocs)
  }

  lemma LaidOutReads(v: View, payload: seq<u8>, x: seq<u8>, crc: Crc, ocs: OcsStatus)
    requires LaidOut(v, payload, x)
    requires x != [] ==>
               var verdict := Verdict(x, SurplusLen(|payload|, x), v.udp.checksum);
               (ocs == OcsValid && verdict == OcsCheck.Valid) || (ocs == OcsUnused && verdict == Unused)
    ensures ReadOptions(v, crc) == Trusted(payload, x, crc, ocs)
  {
    hide Verdict, ReadArea, LocateSurplus;
    LaidOutPieces(v, payload, x);
  }

  function SentView(a: Addrs, payload: seq<u8>, body: seq<u8>): View
    requires Sendable(payload, body)
  {
    View(SentIp(a, payload, body), SentUdp(a, payload), Datagram(a, payload, body))
  }

  /** The body as it stands on the wire, with its OCS filled in. */
  function OnWire(payload: seq<u8>, body: seq<u8>): (x: seq<u8>)
    requires Sendable(payload, body)
    ensures |x| == |body| && (body != [] ==> x[2..] == body[2..])
  {
    if body == [] then [] else Patched(body, SurplusLen(|payload|, body))
  }

  lemma SentTail(a: Addrs, payload: seq<u8>, body: seq<u8>)
    requires Sendable(payload, body)
    ensures var d, rest := Datagram(a, payload, body), payload + Surplus(payload, body);
            && d == IpBytes(SentIp(a, payload, body)) + (UdpBytes(SentUdp(a, payload)) + rest)
            && d[20..] == UdpBytes(SentUdp(a, payload)) + rest && d[28..] == rest
  {
    hide IpBytes, UdpBytes, UdpChecksum, Surplus, SentUdp;
    var d, rest := Datagram(a, payload, body), payload + Surplus(payload, body);
    assert d[28..] == d[20..][8..] == rest;
  }

  /** Every assembled datagram passes all header checks of the receiver. */
  lemma SentIsReadable(a: Addrs, payload: seq<u8>, body: seq<u8>)
    requires Sendable(payload, body)
    ensures ReadHeaders(Datagram(a, payload, body)) == Ok(SentView(a, payload, body))
    ensures SentView(a, payload, body).Valid()
  {
    hide IpBytes, UdpBytes, UdpChecksum, Surplus, ParseIp, ParseUdp, Datagram;
    var d, ip, udp := Datagram(a, payload, body), SentIp(a, payload, body), SentUdp(a, payload);
    var rest := payload + Surplus(payload, body);
    SentTail(a, payload, body);
    IpRoundTrip(ip, UdpBytes(udp) + rest);
    UdpRoundTrip(udp, rest);
    assert d[..ip.totalLen] == d;
    assert d[28..28 + |payload|] == rest[..|payload|] == payload;
  }

  lemma SentIsLaidOut(a: Addrs, payload: seq<u8>, body: seq<u8>)
    requires Sendable(payload, body)
    ensures LaidOut(SentView(a, payload, body), payload, OnWire(payload, body))
  {
    hide IpBytes, UdpBytes, UdpChecksum, Patched;
    SentTail(a, payload, body);
  }

  lemma SentReads(a: Addrs, payload: seq<u8>, body: seq<u8>, crc: Crc)
    requires Sendable(payload, body)
    ensures SentView(a, payload, body).Valid()
    ensures SentView(a, payload, body).UserData() == payload
    ensures ReadOptions(SentView(a, payload, body), crc) == Trusted(payload, body, crc, OcsValid)
  {
    hide Verdict, ReadOptions, ReadArea, LocateSurplus, Datagram, SentUdp;
    var v, x := SentView(a, payload, body), OnWire(payload, body);
    SentIsLaidOut(a, payload, body);
    if body != [] {
      PatchedIsValid(body, SurplusLen(|payload|, body), v.udp.checksum);
    }
    LaidOutPieces(v, payload, x);
    LaidOutReads(v, payload, x, crc, OcsValid);
  }

  /** A body as the serializer leaves it: absent, or led by a zero OCS. */
  predicate ZeroLed(body: seq<u8>) {
    body == [] || (|body| >= 2 && body[0] == 0 && body[1] == 0)
  }

  /** The reassembled form of the same datagram is read the same way, with the OCS
      counted as unused. */
  lemma RebuiltReads(ip: IpRepr, udp: UdpHeader, payload: seq<u8>, body: seq<u8>, crc: Crc)
    requires ZeroLed(body) && 28 + |Tail(payload, body)| <= 0xFFFF
    ensures var d := Rebuilt(ip, udp, 8 + |payload|, Tail(payload, body));
            && d.Some? && ReadHeaders(d.value).Ok? && ReadHeaders(d.value).value.Valid()
            && ReadHeaders(d.value).value.UserData() == payload
            && ReadOptions(ReadHeaders(d.value).value, crc) == Trusted(payload, body, crc, OcsUnused)
  {
    hide IpBytes, UdpBytes, ReadHeaders, ReadOptions, ReadArea;
    var tail := Tail(payload, body);
    RebuiltIsReadable(ip, udp, 8 + |payload|, tail);
    var v := ReadHeaders(Rebuilt(ip, udp, 8 + |payload|, tail).value).value;
    assert LaidOut(v, payload, body);
    LaidOutPieces(v, payload, body);
    LaidOutReads(v, payload, body, crc, OcsUnused);
  }

  // ---- one fragment through the pipeline ----

  /** A fragment of a datagram cut by the splitter, as an IPv4 datagram. */
  function Carried(a: Addrs, s: Sent, i: nat, id: u32): (body: seq<u8>)
    requires WellSent(s) && i < |s.ranges|
    ensures |body| >= 12
  {
    FragmentOf(s.tail, s.ranges[i], |s.ranges| == 1, id, s.udpLength).surplusBody
  }

  function KeyOf(a: Addrs, id: u32): FragKey {
    FragKey(a.src, a.dst, a.srcPort, a.dstPort, id)
  }

  /** What the pipeline observes on a fragment without further options and with an OCS. */
  const BARE: Processing := Processing([], [], Some(true))

  lemma SingleFragItem(frag: FragOption, data: seq<u8>)
    ensures var value := EncodeFrag(frag);
            var area := [FRAG, |value| + 2] + value + data;
            && NextItem(area, 0) == Item(Frag, value, 0, |value| + 2)
            && Items(area[..|value| + 2], 0) == [Item(Frag, value, 0, |value| + 2)]
            && |Items(area, 0)| > 0 && Items(area, 0)[0] == Item(Frag, value, 0, |value| + 2)
  {
    hide EncodeFrag;
    var value := EncodeFrag(frag);
    var area := [FRAG, |value| + 2] + value + data;
    var n := |value| + 2;
    assert area[2..n] == value;
    var cut := area[..n];
    assert cut[0] == FRAG && cut[1] == n && cut[2..n] == value;
    assert Items(cut, n) == [];
  }

  /** The option area of such a fragment parses to its FRAG option and nothing else. */
  lemma FragmentAreaParses(frag: FragOption, data: seq<u8>, crc: u32)
    requires frag.fragStart == 10 + |EncodeFrag(frag)| + 2
    ensures ParseOptions([FRAG, |EncodeFrag(frag)| + 2] + EncodeFrag(frag) + data, [], 10, crc)
         == Ok(ParsedOptions([], [], Some(frag), false, false))
  {
    hide NextItem, EncodeFrag, DecodeFrag;
    var value := EncodeFrag(frag);
    var area := [FRAG, |value| + 2] + value + data;
    SingleFragItem(frag, data);
    FragRoundTrip(frag);
    var it := Item(Frag, value, 0, |value| + 2);
    assert Items(area, 0)[0] == it;
    assert FragmentOptionLimit(area, true, 10) == End(|value| + 2);
    assert Scan([it], START, [], true, crc) == Scan([], START.(seen := {FRAG}, frag := Some(frag)), [], true, crc);
  }

  lemma CarriedPieces(a: Addrs, s: Sent, i: nat, id: u32)
    requires WellSent(s) && i < |s.ranges|
    ensures var frag, body := FragHeader(s, i, id), Carried(a, s, i, id);
            && Sendable([], body)
            && frag.fragStart == 10 + |EncodeFrag(frag)| + 2
            && body[2..] == [FRAG, |EncodeFrag(frag)| + 2] + EncodeFrag(frag) + Data(s, i)
            && body[|EncodeFrag(frag)| + 4..] == Data(s, i)
            && |body| == |EncodeFrag(frag)| + 4 + |Data(s, i)|
    requires |Carried(a, s, i, id)| <= 65507
  {
    hide EncodeFrag;
    var frag, body := FragHeader(s, i, id), Carried(a, s, i, id);
    assert s.ranges[i].start <= s.ranges[i].end <= |s.tail|;
    assert body == [0, 0, FRAG, |EncodeFrag(frag)| + 2] + EncodeFrag(frag) + Data(s, i);
  }

  /** The bytes of a payload-free datagram behind its OCS. */
  lemma FragmentBytes(a: Addrs, body: seq<u8>, at: nat)
    requires Sendable([], body) && body != [] && 30 <= at <= 28 + |body|
    ensures |Datagram(a, [], body)| == 28 + |body|
    ensures Datagram(a, [], body)[at..] == body[at - 28..]
  {
    hide IpBytes, UdpBytes, UdpChecksum, Patched, SentUdp, Datagram;
    var d, p := Datagram(a, [], body), OnWire([], body);
    SentTail(a, [], body);
    assert d[28..] == p;
    assert d[at..] == p[2..][at - 30..];
  }

  /** The pipeline turns a fragment datagram into exactly one insertion. */
  lemma FragmentIsInserted(a: Addrs, s: Sent, i: nat, id: u32, crc: Crc)
    requires WellSent(s) && i < |s.ranges| && |Carried(a, s, i, id)| <= 65507
    ensures Sendable([], Carried(a, s, i, id))
    ensures var v := SentView(a, [], Carried(a, s, i, id));
            && v.Valid() && ReadHeaders(Datagram(a, [], Carried(a, s, i, id))) == Ok(v)
            && ReadOptions(v, crc) == Read(OcsValid, ParsedOptions([], [], Some(FragHeader(s, i, id)), false, false))
            && Dispose(v, OcsValid, ParsedOptions([], [], Some(FragHeader(s, i, id)), false, false), true)
               == Reassemble(KeyOf(a, id), FragHeader(s, i, id), Data(s, i), BARE)
  {
    hide ParseOptions, EncodeFrag, Datagram, ReadOptions, ReadHeaders, Carried;
    CarriedPieces(a, s, i, id);
    var body, frag := Carried(a, s, i, id), FragHeader(s, i, id);
    SentIsReadable(a, [], body);
    SentReads(a, [], body, crc);
    FragmentAreaParses(frag, Data(s, i), crc([]));
    FragmentBytes(a, body, 20 + frag.fragStart);
  }
}
