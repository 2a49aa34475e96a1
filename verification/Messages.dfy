/** One message from the sender's call to the receiver's delivery, in one datagram or in
    fragments. */
module Messages {
  import opened Bytes
  import opened OptionKinds
  import opened OptionSerializer
  import opened WireHeaders
  import opened Assembly
  import opened FragSplit
  import opened OptionScan
  import opened Reassembly
  import opened ReassemblyInvariant
  import opened FragmentDelivery
  import opened Pipeline
  import opened PipelineFacts
  import opened Api
  import opened OptionDelivery
  import opened EndToEnd

  /** What an application asks to have sent, and the surplus budget of one datagram. */
  datatype Message = Message(payload: seq<u8>, options: SendOptions, budget: nat)

  predicate Permitted(msg: Message, crc: Crc) {
    ValidateSendOptions(msg.options).None? && OptionsBody(msg.payload, msg.options, crc).Ok?
  }

  function Body(msg: Message, crc: Crc): (b: seq<u8>)
    requires Permitted(msg, crc)
    ensures b == [] || |b| >= 2
  {
    OptionsBody(msg.payload, msg.options, crc).value
  }

  predicate FitsWhole(msg: Message, crc: Crc) {
    Permitted(msg, crc) && Sendable(msg.payload, Body(msg, crc))
  }

  predicate Fragmentable(msg: Message, crc: Crc) {
    && Permitted(msg, crc)
    && TERMINAL_BODY_LEN <= msg.budget <= FRAGMENT_SURPLUS_LEN_MAX
    && 8 + |Tail(msg.payload, Body(msg, crc))| <= 0xFFFF
  }

  /** The same message on its way in fragments. */
  function InPieces(msg: Message, crc: Crc): Sent
    requires Fragmentable(msg, crc)
  {
    var tail := Tail(msg.payload, Body(msg, crc));
    var ranges := Plan(|tail|, msg.budget);
    Sent(tail, ranges, 8 + |msg.payload|, seq(|ranges|, _ => BARE))
  }

  lemma PiecesAreWell(a: Addrs, msg: Message, crc: Crc, id: u32)
    requires Fragmentable(msg, crc)
    ensures var s := InPieces(msg, crc);
            && WellSent(s)
            && forall i :: 0 <= i < |s.ranges| ==> |Carried(a, s, i, id)| <= msg.budget <= FRAGMENT_SURPLUS_LEN_MAX
  {
    hide Ranges, FragmentBody, OptionsBody, ValidateSendOptions;
    var s := InPieces(msg, crc);
    RangesTile(0, |s.tail|, msg.budget - TERMINAL_BODY_LEN, msg.budget - NON_TERMINAL_BODY_LEN);
  }

  // ---- the intended delivery ----

  /** What the receiver should hand up: the payload, the acceptable options in canonical
      order and a report for every option. */
  function Intended(msg: Message, crc: Crc, ocs: seq<OcsReport>): Delivery
    requires Permitted(msg, crc)
  {
    var opts, c := Travelling(msg.payload, msg.options, crc), crc(msg.payload);
    Payload(msg.payload, Kept(opts, c), Body(msg, crc) != [], ReportsOf(opts, c), ocs)
  }

  /** The OCS status of the message's own surplus area. */
  function OwnOcs(msg: Message, crc: Crc, present: OcsStatus): OcsReport
    requires Permitted(msg, crc)
  {
    OcsReport(if Body(msg, crc) == [] then OcsAbsent else present, FromDatagram)
  }

  lemma NoBodyNoOptions(msg: Message, crc: Crc)
    requires Permitted(msg, crc) && Body(msg, crc) == []
    ensures Travelling(msg.payload, msg.options, crc) == []
  {
    hide Finish;
    if msg.options.includeApc || msg.options.rawOptions != [] {
      SerializerRoundTrip(AllOptions(msg.payload, msg.options, crc));
    } else {
      assert AllOptions(msg.payload, msg.options, crc) == [];
    }
  }

  /** However the surplus area was trusted, reading it gives the intended delivery and
      leaves nothing to reassemble. */
  lemma TrustedIsIntended(v: View, msg: Message, crc: Crc, ocs: OcsStatus, again: bool)
    requires Permitted(msg, crc) && v.Valid() && v.UserData() == msg.payload
    requires ReadOptions(v, crc) == Trusted(msg.payload, Body(msg, crc), crc, ocs)
    ensures match ReadOptions(v, crc)
            case NoOptions(delivery) => delivery == Intended(msg, crc, [OwnOcs(msg, crc, ocs)])
            case Read(o, po) => Dispose(v, o, po, again) == Deliver(Intended(msg, crc, [OwnOcs(msg, crc, ocs)]))
  {
    hide ReadOptions, ParseOptions, OptionsBody, ValidateSendOptions, Travelling, Kept, ReportsOf;
    if Body(msg, crc) == [] {
      NoBodyNoOptions(msg, crc);
      NothingKept(crc(msg.payload));
    } else {
      BodyIsRead(msg.payload, msg.options, AreaOffset(|msg.payload|), crc);
    }
  }

  lemma NothingKept(crc: u32)
    ensures Kept([], crc) == [] && ReportsOf([], crc) == []
  {
  }

  lemma BodyIsZeroLed(msg: Message, crc: Crc)
    requires Permitted(msg, crc)
    ensures ZeroLed(Body(msg, crc))
  {
    hide ParseOptions, ValidateSendOptions, OptionsBody;
    if Body(msg, crc) != [] {
      BodyIsRead(msg.payload, msg.options, 0, crc);
    }
  }

  /** An unfragmented message is delivered as intended and leaves the cache alone. */
  lemma WholeIsDelivered(a: Addrs, msg: Message, m: CacheState, limits: Limits, now: nat, crc: Crc, again: bool)
    requires FitsWhole(msg, crc)
    ensures Process(Datagram(a, msg.payload, Body(msg, crc)), m, limits, now, crc, again)
         == (Ok(Intended(msg, crc, [OwnOcs(msg, crc, OcsValid)])), m)
  {
    hide ReadHeaders, ReadOptions, Dispose, Intended, Trusted, Datagram, OptionsBody, ValidateSendOptions;
    SentIsReadable(a, msg.payload, Body(msg, crc));
    SentReads(a, msg.payload, Body(msg, crc), crc);
    TrustedIsIntended(SentView(a, msg.payload, Body(msg, crc)), msg, crc, OcsValid, again);
  }

  /** A completion of this message and of nothing else. */
  predicate Completes(c: Completion, msg: Message, crc: Crc)
    requires Permitted(msg, crc)
  {
    && c.tail == Tail(msg.payload, Body(msg, crc)) && c.udpLength == 8 + |msg.payload|
    && c.options == [] && c.failures == [] && c.ocsNonzero == Some(true)
  }

  /** The OCS reports of a message that came in fragments. */
  function PiecedOcs(msg: Message, crc: Crc): seq<OcsReport>
    requires Permitted(msg, crc)
  {
    [OcsReport(OcsValid, FromFragmentSet), OwnOcs(msg, crc, OcsUnused)]
  }

  /** What the application sees when the last fragment is in. */
  function Completed(msg: Message, crc: Crc): Delivery
    requires Permitted(msg, crc)
  {
    if 28 + |Tail(msg.payload, Body(msg, crc))| <= 0xFFFF then Intended(msg, crc, PiecedOcs(msg, crc)) else Dropped
  }

  /** Re-feeding a completed message delivers it as intended. */
  lemma CompletionIsDelivered(c: Completion, msg: Message, ip: IpRepr, udp: UdpHeader, m: CacheState,
                              limits: Limits, now: nat, crc: Crc)
    requires Permitted(msg, crc) && Completes(c, msg, crc)
    ensures match Rebuilt(ip, udp, c.udpLength, c.tail)
            case None => Completed(msg, crc) == Dropped
            case Some(d) =>
              var (inner, n) := Process(d, m, limits, now, crc, false);
              Merge(c, inner) == Ok(Completed(msg, crc)) && n == m
  {
    hide ReadHeaders, ReadOptions, Dispose, Trusted, OptionsBody, ValidateSendOptions, Rebuilt, Merge, Intended;
    var body := Body(msg, crc);
    RebuiltIffItFits(c, ip, udp);
    if 28 + |c.tail| <= 0xFFFF {
      BodyIsZeroLed(msg, crc);
      RebuiltReads(ip, udp, msg.payload, body, crc);
      var d := Rebuilt(ip, udp, c.udpLength, c.tail).value;
      TrustedIsIntended(ReadHeaders(d).value, msg, crc, OcsUnused, false);
      MergeAddsOcs(c, msg, crc);
    }
  }

  lemma RebuiltIffItFits(c: Completion, ip: IpRepr, udp: UdpHeader)
    requires 8 <= c.udpLength <= 8 + |c.tail|
    ensures Rebuilt(ip, udp, c.udpLength, c.tail).Some? <==> 28 + |c.tail| <= 0xFFFF
  {
    hide IpBytes, UdpBytes;
  }

  lemma MergeAddsOcs(c: Completion, msg: Message, crc: Crc)
    requires Permitted(msg, crc) && Completes(c, msg, crc)
    ensures Merge(c, Ok(Intended(msg, crc, [OwnOcs(msg, crc, OcsUnused)]))) == Ok(Intended(msg, crc, PiecedOcs(msg, crc)))
  {
    hide OptionsBody, ValidateSendOptions, Travelling, Kept, ReportsOf;
    var p := Intended(msg, crc, [OwnOcs(msg, crc, OcsUnused)]);
    assert FailedReports([]) == [];
    assert MergeOptions([], [], p.options) == p.options;
    assert MergeReports([], [], p.reports) == p.reports;
    assert [FragmentOcs(Some(true))] + p.ocsReports == PiecedOcs(msg, crc);
  }

  // ---- one piece ----

  /** A partial that holds slices of this message, from fragments without options. */
  predicate HoldsOnly(p: PartialState, s: Sent) {
    Holding(p, s) && p.fragmentOptions == NO_OPTIONS && p.optionFailures == [] && p.ocsNonzero.Some?
  }

  lemma PieceKeeps(p: PartialState, msg: Message, i: nat, limits: Limits, crc: Crc)
    requires Fragmentable(msg, crc) && WellSent(InPieces(msg, crc))
    requires i < |InPieces(msg, crc).ranges| && HoldsOnly(p, InPieces(msg, crc))
    ensures var s := InPieces(msg, crc);
            var r := InsertPartial(p, Place(s, i), Data(s, i), BARE, limits);
            && (r.Keep? ==> HoldsOnly(r.next, s))
            && (r.Done? ==> Completes(r.completion, msg, crc))
  {
    hide Holding, Place, Data, WellSent, IsExactDuplicate, Overlaps, InsertSegment, Walk, Concat, OptionsBody,
         ValidateSendOptions, Plan, Permitted;
    var s := InPieces(msg, crc);
    InsertIsFaithful(p, s, i, BARE, limits);
    assert ToRawOptions(NO_OPTIONS) == [];
  }

  /** What processing one fragment datagram does, told by the insertion it leads to. */
  lemma PieceIsProcessed(a: Addrs, msg: Message, id: u32, i: nat, m: CacheState, limits: Limits, now: nat, crc: Crc)
    requires Fragmentable(msg, crc) && WellSent(InPieces(msg, crc)) && i < |InPieces(msg, crc).ranges|
    requires |Carried(a, InPieces(msg, crc), i, id)| <= FRAGMENT_SURPLUS_LEN_MAX
    ensures var s := InPieces(msg, crc);
            var (n, out) := InsertFragment(m, limits, KeyOf(a, id), FragHeader(s, i, id), Data(s, i), BARE, now);
            && Sendable([], Carried(a, s, i, id))
            && var r := ProcessDatagram(Datagram(a, [], Carried(a, s, i, id)), m, limits, now, crc);
               match out
               case Incomplete => r == (Ok(Buffered), n)
               case Abort(_) => r == (Ok(Dropped), n)
               case Complete(c) => Completes(c, msg, crc) ==> r == (Ok(Completed(msg, crc)), n)
  {
    hide ReadHeaders, ReadOptions, Dispose, InsertFragment, Datagram, Carried, FragHeader, Data, WellSent, InPieces,
         Rebuilt, Merge, Completed, Completes, Permitted;
    var s := InPieces(msg, crc);
    FragmentIsInserted(a, s, i, id, crc);
    var (n, out) := InsertFragment(m, limits, KeyOf(a, id), FragHeader(s, i, id), Data(s, i), BARE, now);
    if out.Complete? && Completes(out.completion, msg, crc) {
      var v := SentView(a, [], Carried(a, s, i, id));
      CompletionIsDelivered(out.completion, msg, v.ip, v.udp, n, limits, now, crc);
    }
  }
}
