/** The send path as it runs: options into a builder, fragments into buffers. */
module SendPath {
  import opened Bytes
  import opened OptionKinds
  import opened WireHeaders
  import opened Assembly
  import opened OptionSerializer
  import opened FragSplit
  import opened Pipeline
  import opened Api

  method SerializeOptions(payload: seq<u8>, options: SendOptions, crc: Crc) returns (r: Result<seq<u8>, SendError>)
    ensures r == OptionsBody(payload, options, crc)
  {
    hide Finish;
    if !options.includeApc && options.rawOptions == [] {
      return Ok([]);
    }
    var builder := new OptionsBuilder();
    if options.includeApc {
      builder.PushRaw(RawOption(Apc, U32Bytes(crc(payload))));
    }
    builder.ExtendRaw(options.rawOptions);
    assert builder.options == AllOptions(payload, options, crc);
    var body := builder.FinishBody();
    match body {
      case Ok(b) => r := Ok(b);
      case Err(e) => r := Err(SerializeFailed(e));
    }
  }

  method AssembleLimited(a: Addrs, payload: seq<u8>, body: seq<u8>, max: nat) returns (r: Result<seq<u8>, SendError>)
    requires body == [] || |body| >= 2
    ensures r == AssembleChecked(a, payload, body, max)
  {
    hide Datagram;
    var len := DatagramLen(|payload|, |body|);
    if len > max {
      return Err(DatagramTooLarge(len, max));
    }
    if len > IPV4_DATAGRAM_LEN_MAX {
      return Err(DatagramTooLarge(len, IPV4_DATAGRAM_LEN_MAX));
    }
    var buf := AssembleDatagram(a, payload, body);
    r := Ok(buf[..]);
  }

  function Followed(done: seq<seq<u8>>, rest: Result<seq<seq<u8>>, SendError>): Result<seq<seq<u8>>, SendError> {
    if rest.Err? then rest else Ok(done + rest.value)
  }

  method AssembleFragments(a: Addrs, fragments: seq<Fragment>, max: nat) returns (r: Result<seq<seq<u8>>, SendError>)
    requires forall i :: 0 <= i < |fragments| ==> |fragments[i].surplusBody| >= 2
    ensures r == AssembleAll(a, fragments, max)
  {
    hide AssembleChecked;
    var out: seq<seq<u8>> := [];
    assert fragments[0..] == fragments;
    ghost var all := AssembleAll(a, fragments, max);
    assert all.Ok? ==> [] + all.value == all.value;
    for i := 0 to |fragments|
      invariant AssembleAll(a, fragments, max) == Followed(out, AssembleAll(a, fragments[i..], max))
    {
      var one := AssembleLimited(a, [], fragments[i].surplusBody, max);
      assert fragments[i..][1..] == fragments[i + 1..];
      if one.Err? {
        return Err(one.error);
      }
      ghost var rest := AssembleAll(a, fragments[i + 1..], max);
      if rest.Ok? {
        Regroup(out, [one.value], rest.value);
      }
      out := out + [one.value];
    }
    assert out + [] == out;
    r := Ok(out);
  }

  method CheckSendOptions(options: SendOptions) returns (r: Option<SendError>)
    ensures r == ValidateSendOptions(options)
  {
    hide HasDuplicate;
    if ContainsKind(options.rawOptions, FRAG) {
      return Some(InvalidConfig("high-level send options cannot include FRAG"));
    }
    if options.includeApc && ContainsKind(options.rawOptions, APC) {
      return Some(InvalidConfig("automatic APC cannot be combined with a raw APC option"));
    }
    var duplicate := FindDuplicate(options.rawOptions);
    r := if duplicate then Some(InvalidConfig("high-level send options cannot include duplicate reportable options")) else None;
  }

  method BuildDatagrams(a: Addrs, payload: seq<u8>, options: SendOptions, config: SendConfig, crc: Crc)
    returns (r: Result<seq<seq<u8>>, SendError>)
    ensures r == BuildOutgoing(a, payload, options, config, crc)
  {
    hide OptionsBody, ValidateSendOptions, AssembleChecked, AssembleAll, SplitDatagram;
    var invalid := ValidateSendConfig(config);
    if invalid.Some? {
      return Err(invalid.value);
    }
    var refused := CheckSendOptions(options);
    if refused.Some? {
      return Err(refused.value);
    }
    var serialized := SerializeOptions(payload, options, crc);
    if serialized.Err? {
      return Err(serialized.error);
    }
    var body := serialized.value;
    var single := DatagramLen(|payload|, |body|);
    if single <= config.maxDatagramLen {
      var d := AssembleLimited(a, payload, body, config.maxDatagramLen);
      return if d.Ok? then Ok([d.value]) else Err(d.error);
    }
    if config.fragmentation == Disabled {
      return Err(DatagramTooLarge(single, config.maxDatagramLen));
    }
    if config.identification.None? {
      return Err(FragmentIdentificationRequired);
    }
    var cfg := SplitConfig(config.maxDatagramLen - 28, config.peer, config.identification.value);
    var fragments := Split(payload, body, cfg);
    if fragments.Err? {
      return Err(SplitFailed(fragments.error));
    }
    FragmentsHaveBodies(payload, body, cfg);
    r := AssembleFragments(a, fragments.value, config.maxDatagramLen);
  }

  /** A peer's send: the generator moves only when fragmentation needs an Identification. */
  method BuildPeerDatagrams(a: Addrs, payload: seq<u8>, options: SendOptions, config: SendConfig,
                            ids: IdentificationGenerator, crc: Crc)
    returns (r: Result<seq<seq<u8>>, SendError>)
    modifies ids
    ensures (r, ids.next) == BuildPeerOutgoing(a, payload, options, config, old(ids.next), crc)
  {
    hide BuildOutgoing;
    r := BuildDatagrams(a, payload, options, config, crc);
    if r == Err(FragmentIdentificationRequired) {
      var id := ids.NextId();
      if id.Err? {
        return Err(SplitFailed(id.error));
      }
      r := BuildDatagrams(a, payload, options, config.(identification := Some(id.value)), crc);
    }
  }
}
