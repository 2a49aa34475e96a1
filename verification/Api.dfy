/** The public send and receive functions: one logical datagram in, one or several IPv4
    datagrams out, and the receive policy on the way back. */
module Api {
  import opened Bytes
  import opened OptionKinds
  import opened WireHeaders
  import opened Assembly
  import opened OptionSerializer
  import opened FragSplit
  import opened OptionScan
  import opened Reassembly
  import opened Pipeline

  const IPV4_DATAGRAM_LEN_MAX: nat := 0xFFFF

  datatype FragmentationMode = Auto | Disabled

  datatype SendOptions = SendOptions(rawOptions: seq<RawOption>, includeApc: bool)

  datatype SendConfig = SendConfig(maxDatagramLen: nat, peer: PeerLimits, fragmentation: FragmentationMode,
                                   identification: Option<u32>)

  datatype SendError =
    | SerializeFailed(serialize: SerializeError)
    | SplitFailed(split: SplitError)
    | FragmentIdentificationRequired
    | DatagramTooLarge(len: nat, max: nat)
    | InvalidConfig(reason: string)

  // ---- sending ----

  function DatagramLen(payloadLen: nat, bodyLen: nat): nat {
    28 + payloadLen + (if bodyLen == 0 then 0 else payloadLen % 2 + bodyLen)
  }

  function ValidateSendConfig(config: SendConfig): Option<SendError> {
    if config.maxDatagramLen > IPV4_DATAGRAM_LEN_MAX then Some(InvalidConfig("max_datagram_len exceeds IPv4 Total Length"))
    else if config.maxDatagramLen < 28 then Some(InvalidConfig("max_datagram_len cannot fit IPv4 and UDP"))
    else None
  }

  predicate ContainsKind(options: seq<RawOption>, kind: u8) {
    exists i :: 0 <= i < |options| && options[i].kind.ToByte() == kind
  }

  predicate MustBeUnique(kind: u8) {
    kind == APC || kind == MDS || kind == MRDS || kind == REQ || kind == RES
  }

  predicate HasDuplicate(options: seq<RawOption>) {
    exists i, j :: 0 <= i < j < |options| && options[i].kind.ToByte() == options[j].kind.ToByte()
                   && MustBeUnique(options[i].kind.ToByte())
  }

  /** The duplicate check with its table of Kinds already met. */
  method FindDuplicate(options: seq<RawOption>) returns (found: bool)
    ensures found == HasDuplicate(options)
  {
    var seen := new bool[256](_ => false);
    for i := 0 to |options|
      invariant forall k: u8 :: seen[k] ==> exists j :: 0 <= j < i && options[j].kind.ToByte() == k
      invariant forall j :: 0 <= j < i && MustBeUnique(options[j].kind.ToByte()) ==> seen[options[j].kind.ToByte()]
      invariant !HasDuplicate(options[..i])
    {
      var kind := options[i].kind.ToByte();
      if MustBeUnique(kind) {
        if seen[kind] {
          return true;
        }
        seen[kind] := true;
      }
    }
    assert options[..|options|] == options;
    found := false;
  }

  function ValidateSendOptions(options: SendOptions): Option<SendError> {
    if ContainsKind(options.rawOptions, FRAG) then Some(InvalidConfig("high-level send options cannot include FRAG"))
    else if options.includeApc && ContainsKind(options.rawOptions, APC) then
      Some(InvalidConfig("automatic APC cannot be combined with a raw APC option"))
    else if HasDuplicate(options.rawOptions) then
      Some(InvalidConfig("high-level send options cannot include duplicate reportable options"))
    else None
  }

  /** The options handed to the serializer: an automatic APC first. */
  function AllOptions(payload: seq<u8>, options: SendOptions, crc: Crc): seq<RawOption> {
    (if options.includeApc then [RawOption(Apc, U32Bytes(crc(payload)))] else []) + options.rawOptions
  }

  function OptionsBody(payload: seq<u8>, options: SendOptions, crc: Crc): (r: Result<seq<u8>, SendError>)
    ensures r.Ok? ==> r.value == [] || |r.value| >= 2
  {
    if !options.includeApc && options.rawOptions == [] then Ok([])
    else
      match Finish(AllOptions(payload, options, crc))
      case Ok(body) => Ok(body)
      case Err(e) => Err(SerializeFailed(e))
  }

  function AssembleChecked(a: Addrs, payload: seq<u8>, body: seq<u8>, max: nat): Result<seq<u8>, SendError>
    requires body == [] || |body| >= 2
  {
    var len := DatagramLen(|payload|, |body|);
    if len > max then Err(DatagramTooLarge(len, max))
    else if len > IPV4_DATAGRAM_LEN_MAX then Err(DatagramTooLarge(len, IPV4_DATAGRAM_LEN_MAX))
    else Ok(Datagram(a, payload, body))
  }

  function AssembleAll(a: Addrs, fragments: seq<Fragment>, max: nat): Result<seq<seq<u8>>, SendError>
    requires forall i :: 0 <= i < |fragments| ==> |fragments[i].surplusBody| >= 2
  {
    if fragments == [] then Ok([])
    else
      var first := AssembleChecked(a, [], fragments[0].surplusBody, max);
      if first.Err? then Err(first.error)
      else
        var rest := AssembleAll(a, fragments[1..], max);
        if rest.Err? then rest else Ok([first.value] + rest.value)
  }

  lemma FragmentsHaveBodies(payload: seq<u8>, body: seq<u8>, cfg: SplitConfig)
    requires SplitDatagram(payload, body, cfg).Ok?
    ensures var f := SplitDatagram(payload, body, cfg).value;
            forall i :: 0 <= i < |f| ==> |f[i].surplusBody| >= 2
  {
    hide SplitDatagram;
    SplitSucceedsIff(payload, body, cfg);
    SplitShape(payload, body, cfg);
  }

  function BuildOutgoing(a: Addrs, payload: seq<u8>, options: SendOptions, config: SendConfig, crc: Crc)
    : Result<seq<seq<u8>>, SendError>
  {
    var invalid := ValidateSendConfig(config);
    if invalid.Some? then Err(invalid.value)
    else
      var refused := ValidateSendOptions(options);
      if refused.Some? then Err(refused.value)
      else
        match OptionsBody(payload, options, crc)
        case Err(e) => Err(e)
        case Ok(body) =>
          var single := DatagramLen(|payload|, |body|);
          if single <= config.maxDatagramLen then
            match AssembleChecked(a, payload, body, config.maxDatagramLen)
            case Ok(d) => Ok([d])
            case Err(e) => Err(e)
          else if config.fragmentation == Disabled then Err(DatagramTooLarge(single, config.maxDatagramLen))
          else if config.identification.None? then Err(FragmentIdentificationRequired)
          else
            var cfg := SplitConfig(config.maxDatagramLen - 28, config.peer, config.identification.value);
            var fragments := SplitDatagram(payload, body, cfg);
            if fragments.Err? then Err(SplitFailed(fragments.error))
            else
              FragmentsHaveBodies(payload, body, cfg);
              AssembleAll(a, fragments.value, config.maxDatagramLen)
  }

  /** A peer asks its generator for an Identification only when one is needed. */
  function BuildPeerOutgoing(a: Addrs, payload: seq<u8>, options: SendOptions, config: SendConfig, next: Option<u32>, crc: Crc)
    : (Result<seq<seq<u8>>, SendError>, Option<u32>)
  {
    var first := BuildOutgoing(a, payload, options, config, crc);
    if first == Err(FragmentIdentificationRequired) then
      var (id, after) := Issue(next);
      match id
      case Err(e) => (Err(SplitFailed(e)), after)
      case Ok(id) => (BuildOutgoing(a, payload, options, config.(identification := Some(id)), crc), after)
    else (first, next)
  }

  // ---- receiving ----

  datatype ReceivePolicy = ReceivePolicy(required: seq<OptionKind>, dropAll: bool, ocsRequired: bool)

  datatype ApiDelivery =
    | Received(data: seq<u8>, options: seq<RawOption>, reports: seq<OptionReport>, ocsReports: seq<OcsReport>)
    | ApiBuffered
    | ApiDropped
    | Filtered

  function WireOptionBearing(d: seq<u8>): Result<bool, RecvError> {
    match ReadHeaders(d)
    case Err(e) => Err(e)
    case Ok(v) => Ok(LocateSurplus(v.ip, v.udp).Some?)
  }

  predicate Satisfied(kind: OptionKind, reports: seq<OptionReport>) {
    && !(exists i :: 0 <= i < |reports| && reports[i] == OptionReport(kind, Failed, FromFragmentSet))
    && exists i :: 0 <= i < |reports| && reports[i].kind == kind && reports[i].status == Success
  }

  predicate MissingRequired(policy: ReceivePolicy, reports: seq<OptionReport>) {
    exists i :: 0 <= i < |policy.required| && !Satisfied(policy.required[i], reports)
  }

  predicate OcsSatisfied(reports: seq<OcsReport>) {
    && (forall i :: 0 <= i < |reports| ==> reports[i].status !in {OcsFailed, OcsInvalidZero, OcsUnobserved})
    && exists i :: 0 <= i < |reports| && reports[i].status in {OcsValid, OcsUnused}
  }

  function ApplyPolicy(policy: ReceivePolicy, delivery: Delivery): ApiDelivery {
    match delivery
    case Buffered => ApiBuffered
    case Dropped => ApiDropped
    case Payload(data, options, optionBearing, reports, ocsReports) =>
      if policy.dropAll && optionBearing then Filtered
      else if MissingRequired(policy, reports) then Filtered
      else if policy.ocsRequired && !OcsSatisfied(ocsReports) then Filtered
      else Received(data, options, reports, ocsReports)
  }

  function DecodeDatagram(d: seq<u8>, m: CacheState, limits: Limits, now: nat, policy: ReceivePolicy, crc: Crc)
    : (Result<ApiDelivery, RecvError>, CacheState)
  {
    var bearing := if policy.dropAll then WireOptionBearing(d) else Ok(false);
    if bearing.Err? then (Err(bearing.error), m)
    else if bearing.value then (Ok(Filtered), m)
    else
      var (r, n) := ProcessDatagram(d, m, limits, now, crc);
      (match r case Ok(delivery) => Ok(ApplyPolicy(policy, delivery)) case Err(e) => Err(e), n)
  }
}
