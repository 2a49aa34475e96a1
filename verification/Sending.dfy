/** When the public send functions succeed, and what they then emit. */
module Sending {
  import opened Bytes
  import opened OptionKinds
  import opened OptionSerializer
  import opened Assembly
  import opened FragSplit
  import opened Pipeline
  import opened FragmentDelivery
  import opened Api
  import opened EndToEnd
  import opened Messages

  /** The plan of splitting a message under a given configuration. */
  function SplitPlan(config: SendConfig): SplitConfig
    requires config.identification.Some? && config.maxDatagramLen >= 28
  {
    SplitConfig(config.maxDatagramLen - 28, config.peer, config.identification.value)
  }

  lemma LenIsTail(payload: seq<u8>, body: seq<u8>)
    ensures DatagramLen(|payload|, |body|) == 28 + |payload| + SurplusLen(|payload|, body)
  {
  }

  lemma AssembleOne(a: Addrs, payload: seq<u8>, body: seq<u8>, max: nat)
    requires body == [] || |body| >= 2
    requires DatagramLen(|payload|, |body|) <= max <= IPV4_DATAGRAM_LEN_MAX
    ensures Sendable(payload, body) && AssembleChecked(a, payload, body, max) == Ok(Datagram(a, payload, body))
  {
    hide Datagram;
    LenIsTail(payload, body);
  }

  /** Assembling fragments within the budget never fails. */
  lemma {:induction false} AssembleWithinBudget(a: Addrs, fragments: seq<Fragment>, max: nat)
    requires 28 <= max <= IPV4_DATAGRAM_LEN_MAX
    requires forall i :: 0 <= i < |fragments| ==> 2 <= |fragments[i].surplusBody| <= max - 28
    ensures var r := AssembleAll(a, fragments, max);
            && r.Ok? && |r.value| == |fragments|
            && forall i :: 0 <= i < |fragments| ==>
                 Sendable([], fragments[i].surplusBody) && r.value[i] == Datagram(a, [], fragments[i].surplusBody)
  {
    hide Datagram, AssembleChecked;
    if fragments != [] {
      AssembleOne(a, [], fragments[0].surplusBody, max);
      AssembleWithinBudget(a, fragments[1..], max);
    }
  }

  /** Exactly when sending succeeds. */
  lemma BuildSucceedsIff(a: Addrs, payload: seq<u8>, options: SendOptions, config: SendConfig, crc: Crc)
    ensures BuildOutgoing(a, payload, options, config, crc).Ok? <==>
              && 28 <= config.maxDatagramLen <= IPV4_DATAGRAM_LEN_MAX
              && var msg := Message(payload, options, config.maxDatagramLen - 28);
                 && Permitted(msg, crc)
                 && (28 + |Tail(payload, Body(msg, crc))| <= config.maxDatagramLen
                     || (config.fragmentation == Auto && config.identification.Some?
                         && Splittable(payload, Body(msg, crc), SplitPlan(config))))
  {
    hide ValidateSendOptions, OptionsBody, AssembleChecked, AssembleAll, SplitDatagram, Splittable, MinFragments;
    if ValidateSendConfig(config).None? && ValidateSendOptions(options).None? && OptionsBody(payload, options, crc).Ok? {
      var msg := Message(payload, options, config.maxDatagramLen - 28);
      var body := Body(msg, crc);
      LenIsTail(payload, body);
      if DatagramLen(|payload|, |body|) <= config.maxDatagramLen {
        AssembleOne(a, payload, body, config.maxDatagramLen);
      } else if config.identification.Some? {
        SplitSucceedsIff(payload, body, SplitPlan(config));
        if Splittable(payload, body, SplitPlan(config)) {
          FragmentsAssemble(a, msg, config, crc);
        }
      }
    }
  }

  lemma FragmentsAreCarried(a: Addrs, msg: Message, config: SendConfig, crc: Crc)
    requires 28 <= config.maxDatagramLen <= IPV4_DATAGRAM_LEN_MAX && config.identification.Some?
    requires msg.budget == config.maxDatagramLen - 28 && Permitted(msg, crc)
    requires Splittable(msg.payload, Body(msg, crc), SplitPlan(config))
    ensures Fragmentable(msg, crc) && WellSent(InPieces(msg, crc))
    ensures SplitDatagram(msg.payload, Body(msg, crc), SplitPlan(config)).Ok?
    ensures var f, s := SplitDatagram(msg.payload, Body(msg, crc), SplitPlan(config)).value, InPieces(msg, crc);
            && |f| == |s.ranges| <= config.peer.maxSegments
            && forall i :: 0 <= i < |f| ==>
                 f[i].surplusBody == Carried(a, s, i, config.identification.value) && |f[i].surplusBody| <= msg.budget
  {
    hide OptionsBody, ValidateSendOptions, SplitDatagram, MinFragments, Ranges, FragmentBody;
    SplitShape(msg.payload, Body(msg, crc), SplitPlan(config));
    PiecesAreWell(a, msg, crc, config.identification.value);
  }

  lemma FragmentsAssemble(a: Addrs, msg: Message, config: SendConfig, crc: Crc)
    requires 28 <= config.maxDatagramLen <= IPV4_DATAGRAM_LEN_MAX && config.identification.Some?
    requires msg.budget == config.maxDatagramLen - 28 && Permitted(msg, crc)
    requires Splittable(msg.payload, Body(msg, crc), SplitPlan(config))
    ensures Fragmentable(msg, crc) && WellSent(InPieces(msg, crc))
    ensures SplitDatagram(msg.payload, Body(msg, crc), SplitPlan(config)).Ok?
    ensures var f := SplitDatagram(msg.payload, Body(msg, crc), SplitPlan(config)).value;
            && (forall i :: 0 <= i < |f| ==> |f[i].surplusBody| >= 2)
            && var r, s, id := AssembleAll(a, f, config.maxDatagramLen), InPieces(msg, crc), config.identification.value;
               && r.Ok? && |r.value| == |s.ranges| <= config.peer.maxSegments
               && forall i :: 0 <= i < |s.ranges| ==>
                    && Sendable([], Carried(a, s, i, id)) && r.value[i] == Datagram(a, [], Carried(a, s, i, id))
                    && |r.value[i]| <= config.maxDatagramLen
  {
    hide OptionsBody, ValidateSendOptions, AssembleAll, SplitDatagram, MinFragments, InPieces, Carried, Datagram, WellSent,
         Fragmentable;
    var cfg, body := SplitPlan(config), Body(msg, crc);
    FragmentsAreCarried(a, msg, config, crc);
    var f, s := SplitDatagram(msg.payload, body, cfg).value, InPieces(msg, crc);
    AssembleWithinBudget(a, f, config.maxDatagramLen);
    forall i | 0 <= i < |s.ranges| ensures |Datagram(a, [], f[i].surplusBody)| <= config.maxDatagramLen {
    }
  }

  /** A successful send is the one datagram of the message, or all of its pieces. */
  lemma BuildEmits(a: Addrs, payload: seq<u8>, options: SendOptions, config: SendConfig, crc: Crc)
    requires BuildOutgoing(a, payload, options, config, crc).Ok?
    ensures config.maxDatagramLen >= 28
    ensures var r, msg := BuildOutgoing(a, payload, options, config, crc).value,
                          Message(payload, options, config.maxDatagramLen - 28);
            && Permitted(msg, crc)
            && if 28 + |Tail(payload, Body(msg, crc))| <= config.maxDatagramLen then
                 FitsWhole(msg, crc) && r == [Datagram(a, payload, Body(msg, crc))]
               else
                 && config.identification.Some? && Fragmentable(msg, crc) && WellSent(InPieces(msg, crc))
                 && var s, id := InPieces(msg, crc), config.identification.value;
                    && |r| == |s.ranges| <= config.peer.maxSegments
                    && forall i :: 0 <= i < |s.ranges| ==>
                         && Sendable([], Carried(a, s, i, id)) && r[i] == Datagram(a, [], Carried(a, s, i, id))
                         && |r[i]| <= config.maxDatagramLen
  {
    hide ValidateSendOptions, OptionsBody, AssembleChecked, AssembleAll, SplitDatagram, Splittable, MinFragments,
         InPieces, Carried, Datagram, WellSent;
    BuildSucceedsIff(a, payload, options, config, crc);
    var msg := Message(payload, options, config.maxDatagramLen - 28);
    var body := Body(msg, crc);
    LenIsTail(payload, body);
    if DatagramLen(|payload|, |body|) <= config.maxDatagramLen {
      AssembleOne(a, payload, body, config.maxDatagramLen);
    } else {
      FragmentsAssemble(a, msg, config, crc);
    }
  }
}
