/** The receive pipeline: headers, OCS, options, then delivery, buffering or dropping,
    with one re-feed of a reassembled datagram. */
module Pipeline {
  import opened Bytes
  import opened OptionKinds
  import opened OptionChecksum
  import opened WireHeaders
  import opened OptionScan
  import opened Reassembly

  /** CRC32C is a parameter: nothing here depends on which function it is. */
  type Crc = seq<u8> -> u32

  datatype RecvError =
    | Header(header: HeaderError)
    | UdpLengthExceedsIpPayload(udpLen: nat, transportLen: nat)
    | UdpChecksumMismatch(expected: nat, actual: nat)

  datatype OcsStatus = OcsAbsent | OcsValid | OcsUnused | OcsFailed | OcsInvalidZero | OcsUnobserved

  datatype OcsReport = OcsReport(status: OcsStatus, source: OptionSource)

  datatype Delivery =
    | Payload(data: seq<u8>, options: seq<RawOption>, optionBearing: bool,
              reports: seq<OptionReport>, ocsReports: seq<OcsReport>)
    | Buffered
    | Dropped

  /** A datagram whose headers, lengths and UDP checksum were accepted, cut to its
      IP length. */
  datatype View = View(ip: IpRepr, udp: UdpHeader, bytes: seq<u8>) {
    predicate Valid() {
      && |bytes| == ip.HeaderLen() + ip.TransportLen() <= 0xFFFF
      && ip.HeaderLen() % 2 == 0
      && 8 <= udp.length <= ip.TransportLen()
    }

    function UdpAt(): nat {
      ip.HeaderLen()
    }

    function UserData(): seq<u8>
      requires Valid()
    {
      bytes[UdpAt() + 8..UdpAt() + udp.length]
    }

    function Key(frag: FragOption): FragKey {
      FragKey(ip.src, ip.dst, udp.srcPort, udp.dstPort, frag.identification)
    }
  }

  function ReadHeaders(d: seq<u8>): (r: Result<View, RecvError>)
    ensures r.Ok? ==> r.value.Valid()
  {
    var ip := ParseIp(d);
    if ip.Err? then Err(Header(ip.error))
    else
      var ip := ip.value;
      var bytes := d[..ip.HeaderLen() + ip.TransportLen()];
      var udp := ParseUdp(bytes[ip.HeaderLen()..]);
      if udp.Err? then Err(Header(udp.error))
      else
        var udp := udp.value;
        if udp.length > ip.TransportLen() then Err(UdpLengthExceedsIpPayload(udp.length, ip.TransportLen()))
        else CheckUdp(View(ip, udp, bytes))
  }

  /** A zero checksum field means that the sender computed none. */
  function CheckUdp(v: View): Result<View, RecvError>
    requires v.Valid()
  {
    var expected := UdpChecksum(v.ip.src, v.ip.dst, v.udp.(checksum := 0), v.UserData());
    if v.udp.checksum != 0 && expected != v.udp.checksum then Err(UdpChecksumMismatch(expected, v.udp.checksum))
    else Ok(v)
  }

  /** Delivery of the user data alone. */
  function DataOnly(data: seq<u8>, optionBearing: bool, ocs: OcsStatus): Delivery {
    Payload(data, [], optionBearing, [], [OcsReport(ocs, FromDatagram)])
  }

  /** Either the options are out of the question, or they were read. */
  datatype Reading = NoOptions(delivery: Delivery) | Read(ocs: OcsStatus, parsed: ParsedOptions)

  function ReadOptions(v: View, crc: Crc): Reading
    requires v.Valid()
  {
    var user := v.UserData();
    var layout := LocateSurplus(v.ip, v.udp);
    if layout.None? then NoOptions(DataOnly(user, false, OcsAbsent))
    else
      var l := layout.value;
      if CheckPad(v.bytes[l.startsAt], l.needsPad).Err? then NoOptions(DataOnly(user, true, OcsFailed))
      else
        var body := v.bytes[l.OcsAt()..];
        match Verdict(body, l.len, v.udp.checksum)
        case IgnoreOptions => NoOptions(DataOnly(user, true, OcsInvalidZero))
        case Error(_) => NoOptions(DataOnly(user, true, OcsFailed))
        case Valid => ReadArea(body[2..], user, l.OcsAt() + 2 - v.UdpAt(), crc(user), OcsValid)
        case Unused => ReadArea(body[2..], user, l.OcsAt() + 2 - v.UdpAt(), crc(user), OcsUnused)
  }

  function ReadArea(area: seq<u8>, user: seq<u8>, offset: nat, crc: u32, ocs: OcsStatus): Reading {
    match ParseOptions(area, user, offset, crc)
    case Ok(parsed) => Read(ocs, parsed)
    case Err(_) => NoOptions(DataOnly(user, true, ocs))
  }

  /** What becomes of a datagram whose options were read, before any reassembly. */
  datatype Disposition =
    | Deliver(delivery: Delivery)
    | DropWith(discard: Option<FragKey>)
    | Reassemble(key: FragKey, frag: FragOption, data: seq<u8>, proc: Processing)

  function FailuresOf(reports: seq<OptionReport>): seq<OptionKind> {
    if reports == [] then []
    else
      var earlier := FailuresOf(reports[..|reports| - 1]);
      var last := reports[|reports| - 1];
      if last.status == Failed && last.kind !in earlier then earlier + [last.kind] else earlier
  }

  function Dispose(v: View, ocs: OcsStatus, po: ParsedOptions, reassemblyAllowed: bool): (r: Disposition)
    requires v.Valid()
    ensures r.Reassemble? ==> reassemblyAllowed
  {
    var user := v.UserData();
    if po.frag.Some? && user != [] then Deliver(DataOnly(user, true, ocs))
    else if po.fragmentFailed || (po.frag.Some? && po.unsafeSeen) then
      DropWith(if po.frag.Some? then Some(v.Key(po.frag.value)) else None)
    else if po.unsafeSeen then Deliver(Payload([], [], true, po.reports, [OcsReport(ocs, FromDatagram)]))
    else if po.frag.Some? then
      if !reassemblyAllowed then DropWith(None)
      else
        var frag := po.frag.value;
        var at := v.UdpAt() + frag.fragStart;
        if at > |v.bytes| then DropWith(Some(v.Key(frag)))
        else Reassemble(v.Key(frag), frag, v.bytes[at..],
                        Processing(po.options, FailuresOf(po.reports), Some(ocs == OcsValid)))
    else Deliver(Payload(user, po.options, true, po.reports, [OcsReport(ocs, FromDatagram)]))
  }

  // ---- reassembled datagrams ----

  /** The IPv4 datagram rebuilt around a completed tail, without a UDP checksum. */
  function Rebuilt(ip: IpRepr, udp: UdpHeader, udpLength: u16, tail: seq<u8>): Option<seq<u8>> {
    if udpLength < 8 || |tail| < udpLength - 8 || 28 + |tail| > 0xFFFF then None
    else Some(IpBytes(IpRepr(ip.src, ip.dst, 5, 28 + |tail|))
              + (UdpBytes(UdpHeader(udp.srcPort, udp.dstPort, udpLength, 0)) + tail))
  }

  function KeepOthers(options: seq<RawOption>, failures: seq<OptionKind>): seq<RawOption> {
    if options == [] then []
    else (if options[0].kind in failures then [] else [options[0]]) + KeepOthers(options[1..], failures)
  }

  function MergeOptions(fragmentOptions: seq<RawOption>, failures: seq<OptionKind>, options: seq<RawOption>): seq<RawOption> {
    KeepOthers(fragmentOptions, failures) + options
  }

  predicate Reported(reports: seq<OptionReport>, kind: OptionKind) {
    exists i :: 0 <= i < |reports| && reports[i].kind == kind
  }

  function FailedReports(failures: seq<OptionKind>): (r: seq<OptionReport>)
    ensures |r| == |failures|
  {
    seq(|failures|, i requires 0 <= i < |failures| => OptionReport(failures[i], Failed, FromFragmentSet))
  }

  function AddSuccesses(reports: seq<OptionReport>, options: seq<RawOption>): seq<OptionReport>
    decreases options
  {
    if options == [] then reports
    else
      AddSuccesses(if Reported(reports, options[0].kind) then reports
                   else reports + [OptionReport(options[0].kind, Success, FromFragmentSet)], options[1..])
  }

  function MergeReports(fragmentOptions: seq<RawOption>, failures: seq<OptionKind>, reports: seq<OptionReport>): seq<OptionReport> {
    AddSuccesses(FailedReports(failures), fragmentOptions) + reports
  }

  function FragmentOcs(ocsNonzero: Option<bool>): OcsReport {
    OcsReport(match ocsNonzero
              case None => OcsUnobserved
              case Some(b) => if b then OcsValid else OcsUnused, FromFragmentSet)
  }

  function Merge(c: Completion, inner: Result<Delivery, RecvError>): Result<Delivery, RecvError> {
    if inner.Ok? && inner.value.Payload? then
      var p := inner.value;
      Ok(Payload(p.data, MergeOptions(c.options, c.failures, p.options), p.optionBearing,
                 MergeReports(c.options, c.failures, p.reports), [FragmentOcs(c.ocsNonzero)] + p.ocsReports))
    else inner
  }

  // ---- the pipeline ----

  function Discarded(m: CacheState, key: Option<FragKey>): CacheState {
    if key.Some? then m - {key.value} else m
  }

  function Process(d: seq<u8>, m: CacheState, limits: Limits, now: nat, crc: Crc, reassemblyAllowed: bool)
    : (Result<Delivery, RecvError>, CacheState)
    decreases reassemblyAllowed
  {
    var headers := ReadHeaders(d);
    if headers.Err? then (Err(headers.error), m)
    else
      var v := headers.value;
      match ReadOptions(v, crc)
      case NoOptions(delivery) => (Ok(delivery), m)
      case Read(ocs, po) =>
        match Dispose(v, ocs, po, reassemblyAllowed)
        case Deliver(delivery) => (Ok(delivery), m)
        case DropWith(discard) => (Ok(Dropped), Discarded(m, discard))
        case Reassemble(key, frag, data, proc) =>
          var (n, outcome) := InsertFragment(m, limits, key, frag, data, proc, now);
          match outcome
          case Incomplete => (Ok(Buffered), n)
          case Abort(_) => (Ok(Dropped), n)
          case Complete(c) =>
            var again := Rebuilt(v.ip, v.udp, c.udpLength, c.tail);
            if again.None? then (Ok(Dropped), n)
            else
              var (inner, k) := Process(again.value, n, limits, now, crc, false);
              (Merge(c, inner), k)
  }

  function ProcessDatagram(d: seq<u8>, m: CacheState, limits: Limits, now: nat, crc: Crc)
    : (Result<Delivery, RecvError>, CacheState)
  {
    Process(d, m, limits, now, crc, true)
  }
}
