/** The receive path as it runs: one pass over the datagram, the mutable cache, and at
    most one recursive pass over a rebuilt datagram. */
module ReceivePath {
  import opened Bytes
  import opened OptionKinds
  import opened OptionChecksum
  import opened WireHeaders
  import opened Assembly
  import opened OptionScan
  import opened Reassembly
  import opened Pipeline
  import opened Api

  method ParseHeaders(d: seq<u8>) returns (r: Result<View, RecvError>)
    ensures r == ReadHeaders(d)
  {
    hide ParseIp, ParseUdp, CheckUdp, View.Valid;
    var ip := ParseIp(d);
    if ip.Err? {
      return Err(Header(ip.error));
    }
    var bytes := d[..ip.value.HeaderLen() + ip.value.TransportLen()];
    var udp := ParseUdp(bytes[ip.value.HeaderLen()..]);
    if udp.Err? {
      return Err(Header(udp.error));
    }
    if udp.value.length > ip.value.TransportLen() {
      return Err(UdpLengthExceedsIpPayload(udp.value.length, ip.value.TransportLen()));
    }
    CutViewIsValid(d, ip.value, udp.value);
    r := VerifyUdp(View(ip.value, udp.value, bytes));
  }

  lemma CutViewIsValid(d: seq<u8>, ip: IpRepr, udp: UdpHeader)
    requires ip.HeaderLen() <= ip.totalLen <= |d| && 8 <= udp.length <= ip.TransportLen()
    ensures View(ip, udp, d[..ip.HeaderLen() + ip.TransportLen()]).Valid()
  {
    hide IpRepr.HeaderLen;
    HeaderIsEven(ip);
    assert ip.HeaderLen() + ip.TransportLen() == ip.totalLen by { TotalIsSum(ip); }
  }

  lemma TotalIsSum(ip: IpRepr)
    requires ip.HeaderLen() <= ip.totalLen
    ensures ip.HeaderLen() + ip.TransportLen() == ip.totalLen
  {
  }

  method VerifyUdp(v: View) returns (r: Result<View, RecvError>)
    requires v.Valid()
    ensures r == CheckUdp(v)
  {
    hide UdpChecksum;
    if v.udp.checksum != 0 {
      var expected := ComputeChecksum(v.udp.(checksum := 0), v.ip, v.UserData());
      if expected != v.udp.checksum {
        return Err(UdpChecksumMismatch(expected, v.udp.checksum));
      }
    }
    r := Ok(v);
  }

  method ParseSurplus(v: View, crc: Crc) returns (r: Reading)
    requires v.Valid()
    ensures r == ReadOptions(v, crc)
  {
    hide ParseOptions, Verdict;
    var user := v.UserData();
    var layout := LocateSurplus(v.ip, v.udp);
    if layout.None? {
      return NoOptions(DataOnly(user, false, OcsAbsent));
    }
    var l := layout.value;
    if CheckPad(v.bytes[l.startsAt], l.needsPad).Err? {
      return NoOptions(DataOnly(user, true, OcsFailed));
    }
    var body := v.bytes[l.OcsAt()..];
    var verdict := Validate(body, l.len, v.udp.checksum);
    var status;
    match verdict {
      case Valid => status := OcsValid;
      case Unused => status := OcsUnused;
      case IgnoreOptions => return NoOptions(DataOnly(user, true, OcsInvalidZero));
      case Error(_) => return NoOptions(DataOnly(user, true, OcsFailed));
    }
    var parsed := ParseOptionsLoop(body[2..], user, l.OcsAt() + 2 - v.UdpAt(), crc(user));
    match parsed {
      case Ok(po) => r := Read(status, po);
      case Err(_) => r := NoOptions(DataOnly(user, true, status));
    }
  }

  method FragmentOptionFailures(reports: seq<OptionReport>) returns (failures: seq<OptionKind>)
    ensures failures == FailuresOf(reports)
  {
    failures := [];
    for i := 0 to |reports|
      invariant failures == FailuresOf(reports[..i])
    {
      assert reports[..i + 1][..i] == reports[..i];
      if reports[i].status == Failed && reports[i].kind !in failures {
        failures := failures + [reports[i].kind];
      }
    }
    assert reports[..|reports|] == reports;
  }

  method ReassembledDatagram(ip: IpRepr, udp: UdpHeader, udpLength: u16, tail: seq<u8>) returns (r: Option<seq<u8>>)
    ensures r == Rebuilt(ip, udp, udpLength, tail)
  {
    hide IpBytes, UdpBytes;
    if udpLength < 8 || |tail| < udpLength - 8 {
      return None;
    }
    var totalLen := 28 + |tail|;
    if totalLen > 0xFFFF {
      return None;
    }
    var buf := new u8[totalLen](_ => 0);
    WriteHead(buf, IpRepr(ip.src, ip.dst, 5, totalLen), UdpHeader(udp.srcPort, udp.dstPort, udpLength, 0), tail);
    assert buf[..totalLen] == buf[..];
    r := Some(buf[..]);
  }

  method MergeFragmentOptions(fragmentOptions: seq<RawOption>, failures: seq<OptionKind>, options: seq<RawOption>)
    returns (r: seq<RawOption>)
    ensures r == MergeOptions(fragmentOptions, failures, options)
  {
    r := [];
    for i := 0 to |fragmentOptions|
      invariant KeepOthers(fragmentOptions, failures) == r + KeepOthers(fragmentOptions[i..], failures)
    {
      assert fragmentOptions[i..][1..] == fragmentOptions[i + 1..];
      if fragmentOptions[i].kind !in failures {
        Regroup(r, [fragmentOptions[i]], KeepOthers(fragmentOptions[i + 1..], failures));
        r := r + [fragmentOptions[i]];
      } else {
        assert [] + KeepOthers(fragmentOptions[i + 1..], failures) == KeepOthers(fragmentOptions[i + 1..], failures);
      }
    }
    assert r + [] == r;
    r := r + options;
  }

  method MergeFragmentReports(fragmentOptions: seq<RawOption>, failures: seq<OptionKind>, reports: seq<OptionReport>)
    returns (r: seq<OptionReport>)
    ensures r == MergeReports(fragmentOptions, failures, reports)
  {
    r := FailedReports(failures);
    for i := 0 to |fragmentOptions|
      invariant AddSuccesses(FailedReports(failures), fragmentOptions) == AddSuccesses(r, fragmentOptions[i..])
    {
      assert fragmentOptions[i..][1..] == fragmentOptions[i + 1..];
      if !(exists j :: 0 <= j < |r| && r[j].kind == fragmentOptions[i].kind) {
        r := r + [OptionReport(fragmentOptions[i].kind, Success, FromFragmentSet)];
      }
    }
    r := r + reports;
  }

  method MergeDelivery(c: Completion, inner: Result<Delivery, RecvError>) returns (r: Result<Delivery, RecvError>)
    ensures r == Merge(c, inner)
  {
    if inner.Err? || !inner.value.Payload? {
      return inner;
    }
    var p := inner.value;
    var options := MergeFragmentOptions(c.options, c.failures, p.options);
    var reports := MergeFragmentReports(c.options, c.failures, p.reports);
    r := Ok(Payload(p.data, options, p.optionBearing, reports, [FragmentOcs(c.ocsNonzero)] + p.ocsReports));
  }

  /** What becomes of a readable datagram, with its fragment failures collected. */
  method Classify(v: View, ocs: OcsStatus, po: ParsedOptions, reassemblyAllowed: bool) returns (r: Disposition)
    requires v.Valid()
    ensures r == Dispose(v, ocs, po, reassemblyAllowed)
  {
    hide FailuresOf;
    var user := v.UserData();
    if po.frag.Some? && user != [] {
      return Deliver(DataOnly(user, true, ocs));
    }
    var key := if po.frag.Some? then Some(v.Key(po.frag.value)) else None;
    if po.fragmentFailed || (key.Some? && po.unsafeSeen) {
      return DropWith(key);
    }
    if po.unsafeSeen {
      return Deliver(Payload([], [], true, po.reports, [OcsReport(ocs, FromDatagram)]));
    }
    if po.frag.Some? {
      if !reassemblyAllowed {
        return DropWith(None);
      }
      var at := v.UdpAt() + po.frag.value.fragStart;
      if at > |v.bytes| {
        return DropWith(key);
      }
      var failures := FragmentOptionFailures(po.reports);
      return Reassemble(key.value, po.frag.value, v.bytes[at..], Processing(po.options, failures, Some(ocs == OcsValid)));
    }
    r := Deliver(Payload(user, po.options, true, po.reports, [OcsReport(ocs, FromDatagram)]));
  }

  /** The pipeline against the mutable cache. */
  method ProcessInner(d: seq<u8>, cache: ReassemblyCache, now: nat, crc: Crc, reassemblyAllowed: bool)
    returns (r: Result<Delivery, RecvError>)
    requires cache.Valid()
    modifies cache, cache.owner.Keys
    ensures cache.Valid() && fresh(cache.owner.Keys - old(cache.owner.Keys))
    ensures (r, cache.state) == Process(d, old(cache.state), cache.limits, now, crc, reassemblyAllowed)
    decreases reassemblyAllowed
  {
    hide ReadHeaders, ReadOptions, Dispose, InsertFragment, Rebuilt, Merge;
    var headers := ParseHeaders(d);
    if headers.Err? {
      return Err(headers.error);
    }
    var v := headers.value;
    var reading := ParseSurplus(v, crc);
    if reading.NoOptions? {
      return Ok(reading.delivery);
    }
    var disposition := Classify(v, reading.ocs, reading.parsed, reassemblyAllowed);
    match disposition {
      case Deliver(delivery) => r := Ok(delivery);
      case DropWith(discard) =>
        if discard.Some? {
          assert cache.ValidExcept(discard.value);
          cache.Discard(discard.value);
        }
        r := Ok(Dropped);
      case Reassemble(key, frag, data, proc) =>
        var outcome := cache.Insert(key, frag, data, proc, now);
        match outcome {
          case Incomplete => r := Ok(Buffered);
          case Abort(_) => r := Ok(Dropped);
          case Complete(c) =>
            var again := ReassembledDatagram(v.ip, v.udp, c.udpLength, c.tail);
            if again.None? {
              r := Ok(Dropped);
            } else {
              var inner := ProcessInner(again.value, cache, now, crc, false);
              r := MergeDelivery(c, inner);
            }
        }
    }
  }

  method Receive(d: seq<u8>, cache: ReassemblyCache, now: nat, crc: Crc) returns (r: Result<Delivery, RecvError>)
    requires cache.Valid()
    modifies cache, cache.owner.Keys
    ensures cache.Valid() && fresh(cache.owner.Keys - old(cache.owner.Keys))
    ensures (r, cache.state) == ProcessDatagram(d, old(cache.state), cache.limits, now, crc)
  {
    r := ProcessInner(d, cache, now, crc, true);
  }

  /** The receive policy around the pipeline. */
  method Decode(d: seq<u8>, cache: ReassemblyCache, now: nat, policy: ReceivePolicy, crc: Crc)
    returns (r: Result<ApiDelivery, RecvError>)
    requires cache.Valid()
    modifies cache, cache.owner.Keys
    ensures cache.Valid() && fresh(cache.owner.Keys - old(cache.owner.Keys))
    ensures (r, cache.state) == DecodeDatagram(d, old(cache.state), cache.limits, now, policy, crc)
  {
    hide ProcessDatagram, WireOptionBearing, MissingRequired, OcsSatisfied;
    if policy.dropAll {
      var bearing := WireOptionBearing(d);
      if bearing.Err? {
        return Err(bearing.error);
      }
      if bearing.value {
        return Ok(Filtered);
      }
    }
    var inner := Receive(d, cache, now, crc);
    if inner.Err? {
      return Err(inner.error);
    }
    r := Ok(ApplyPolicy(policy, inner.value));
  }
}
