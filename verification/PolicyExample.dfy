/** A concrete run in which the policy tells a fragmented message from the same message
    sent whole. */
module PolicyExample {
  import opened Bytes
  import opened OptionKinds
  import opened Assembly
  import opened FragSplit
  import opened Reassembly
  import opened ReassemblyInvariant
  import opened ReassemblyRuns
  import opened FragmentDelivery
  import opened Pipeline
  import opened Api
  import opened EndToEnd
  import opened Messages
  import opened Sending
  import opened Protocol
  import opened ProtocolRuns
  import opened Policy
  import opened OptionSerializer
  import opened OptionDelivery

  const NO_SEND_OPTIONS: SendOptions := SendOptions([], false)
  const CONFIG: SendConfig := SendConfig(55, PeerLimits(36, 2), Auto, None)
  const LIMITS: Limits := Limits(36, 2, 1, 10)
  const ID: u32 := 5

  /** One byte more than fits whole. */
  function ExamplePayload(): (p: seq<u8>)
    ensures |p| == 28
  {
    seq(28, _ => 7)
  }

  function ExampleMessage(): Message {
    Message(ExamplePayload(), NO_SEND_OPTIONS, 27)
  }

  function ExampleWorld(a: Addrs, crc: Crc): World {
    Submitted(Initial(Some(ID)), ExamplePayload(), NO_SEND_OPTIONS, CONFIG, a, crc)
  }

  lemma ExampleIsPlain(crc: Crc)
    ensures var msg := ExampleMessage();
            && Permitted(msg, crc) && Body(msg, crc) == [] && FitsWhole(msg, crc) && Fragmentable(msg, crc)
            && |Tail(msg.payload, Body(msg, crc))| == 28
            && |InPieces(msg, crc).ranges| == 2
  {
    hide Finish;
    var msg := ExampleMessage();
    assert Tail(msg.payload, []) == msg.payload;
    var rest := Ranges(15, 28, 13, 15);
    assert rest == [Range(15, 28, true)];
    assert Plan(28, 27) == [Range(0, 15, false)] + rest;
  }

  lemma ExampleIsSplit(a: Addrs, crc: Crc)
    ensures BuildOutgoing(a, ExamplePayload(), NO_SEND_OPTIONS, CONFIG, crc).Err?
    ensures BuildPeerOutgoing(a, ExamplePayload(), NO_SEND_OPTIONS, CONFIG, Some(ID), crc).0.Ok?
  {
    hide Permitted, Body, SplitDatagram, AssembleAll, Datagram, Finish;
    var config := CONFIG.(identification := Some(ID));
    ExampleIsPlain(crc);
    assert MinFragments(28, 13, 15) == 2;
    assert Splittable(ExamplePayload(), Body(ExampleMessage(), crc), SplitPlan(config));
    BuildSucceedsIff(a, ExamplePayload(), NO_SEND_OPTIONS, CONFIG, crc);
    BuildSucceedsIff(a, ExamplePayload(), NO_SEND_OPTIONS, config, crc);
    IdentificationIsAsked(a, crc);
  }

  lemma IdentificationIsAsked(a: Addrs, crc: Crc)
    ensures BuildOutgoing(a, ExamplePayload(), NO_SEND_OPTIONS, CONFIG, crc) == Err(FragmentIdentificationRequired)
  {
    hide SplitDatagram, AssembleAll, AssembleChecked, Finish;
  }

  /** The message is on record and both its pieces are on the wire. */
  lemma ExampleIsOnWire(a: Addrs, crc: Crc, i: nat)
    requires i < 2
    ensures var w := ExampleWorld(a, crc);
            && w.cache == map[] && ID in w.pieces && w.pieces[ID] == ExampleMessage()
            && OnRecord(Piece(ID, i), w, crc) && Encoded(Piece(ID, i), w, a, crc) in w.wire
  {
    hide BuildPeerOutgoing, BuildOutgoing, InPieces, Carried, Datagram, WellSent, Fragmentable, FitsWhole, ExamplePayload;
    ExampleIsPlain(crc);
    ExampleIsSplit(a, crc);
    PeerEmits(Initial(Some(ID)), ExamplePayload(), NO_SEND_OPTIONS, CONFIG, a, crc);
    var r := BuildPeerOutgoing(a, ExamplePayload(), NO_SEND_OPTIONS, CONFIG, Some(ID), crc).0.value;
    assert r[i] in r;
  }

  lemma ExampleBegins(a: Addrs, crc: Crc)
    ensures Begins(ExampleWorld(a, crc), ID, 0, 0, a, LIMITS, crc)
    ensures !(All(|InPieces(ExampleMessage(), crc).ranges|) <= {0}) && {0} + {1} == All(|InPieces(ExampleMessage(), crc).ranges|)
  {
    hide BuildPeerOutgoing, BuildOutgoing, Carried, Datagram, Fragmentable, FitsWhole, Permitted, Body, Submitted, OnRecord,
         Encoded, InPieces;
    ExampleIsPlain(crc);
    ExampleIsOnWire(a, crc, 0);
    assert RoomFor(InPieces(ExampleMessage(), crc), LIMITS) by { ExampleFits(crc); }
    assert Inv(Initial(Some(ID)), a, crc);
    SubmitKeeps(Initial(Some(ID)), ExamplePayload(), NO_SEND_OPTIONS, CONFIG, a, crc);
    assert All(2) == {0, 1};
    assert 1 in All(2);
  }

  lemma ExampleFits(crc: Crc)
    ensures Fragmentable(ExampleMessage(), crc) && RoomFor(InPieces(ExampleMessage(), crc), LIMITS)
  {
    hide Permitted, Body, Plan;
    ExampleIsPlain(crc);
  }

  /** The run behind the example: submit the message, let its first piece arrive. */
  function ExampleRun(): seq<Action> {
    [Submit(ExamplePayload(), NO_SEND_OPTIONS, CONFIG), Arrive(Piece(ID, 0), 0)]
  }

  lemma ExampleRuns(a: Addrs, policy: ReceivePolicy, crc: Crc)
    ensures ValidRun(Initial(Some(ID)), ExampleRun(), a, LIMITS, policy, crc)
    ensures WorldAfter(Initial(Some(ID)), ExampleRun(), a, LIMITS, policy, crc)
         == Next(ExampleWorld(a, crc), Arrive(Piece(ID, 0), 0), a, LIMITS, policy, crc)
  {
    hide DecodeDatagram, Submitted, OnRecord, Encoded, ExamplePayload;
    ExampleIsOnWire(a, crc, 0);
    var acts := ExampleRun();
    assert acts[1..] == [Arrive(Piece(ID, 0), 0)] && acts[1..][1..] == [];
  }

  /** "Require OCS" alone filters the whole message but not its pieces; "drop all" alone
      filters the pieces but not the whole message. */
  lemma PoliciesTellPiecesApart(a: Addrs, policy: ReceivePolicy, crc: Crc)
    requires policy.required == [] && policy.dropAll != policy.ocsRequired
    ensures ValidRun(Initial(Some(ID)), ExampleRun(), a, LIMITS, policy, crc)
    ensures FitsWhole(ExampleMessage(), crc)
    ensures var w := WorldAfter(Initial(Some(ID)), ExampleRun(), a, LIMITS, policy, crc);
            && OnRecord(Piece(ID, 1), w, crc)
            && var whole := DecodeDatagram(Datagram(a, ExamplePayload(), Body(ExampleMessage(), crc)), w.cache, LIMITS, 1, policy, crc).0;
               var last := DecodeDatagram(Encoded(Piece(ID, 1), w, a, crc), w.cache, LIMITS, 1, policy, crc).0;
               && !Agree(whole, last) && whole.Ok? && last.Ok?
               && (whole.value == Filtered <==> policy.ocsRequired)
               && (last.value == Filtered <==> policy.dropAll)
  {
    hide DecodeDatagram, Datagram, ExampleWorld, Next, ValidRun, WorldAfter, OnRecord, Encoded, InPieces, All, Begins, ApplyPolicy,
         Intended, Body, Permitted, FitsWhole, WholeAnswer;
    ExampleIsPlain(crc);
    ExampleBegins(a, crc);
    ExampleIsOnWire(a, crc, 0);
    ExampleRuns(a, policy, crc);
    var msg, start := ExampleMessage(), ExampleWorld(a, crc);
    var w := Next(start, Arrive(Piece(ID, 0), 0), a, LIMITS, policy, crc);
    NothingMore(w, a, policy, crc);
    PolicyAgreement(start, 0, 0, [], 1, 1, ID, a, LIMITS, policy, crc);
    WholeIsDecoded(a, msg, w.cache, LIMITS, 1, policy, crc);
    WholeExample(policy, crc);
    assert {0} + {} == {0};
  }

  lemma NothingMore(w: World, a: Addrs, policy: ReceivePolicy, crc: Crc)
    ensures ValidRun(w, [], a, LIMITS, policy, crc) && WorldAfter(w, [], a, LIMITS, policy, crc) == w
    ensures PiecesIn([], ID) == {}
  {
  }

  lemma WholeExample(policy: ReceivePolicy, crc: Crc)
    requires policy.required == [] && policy.dropAll != policy.ocsRequired
    ensures Permitted(ExampleMessage(), crc)
    ensures WholeAnswer(ExampleMessage(), policy, crc) == Filtered <==> policy.ocsRequired
  {
    hide Permitted, Body, OcsSatisfied, MissingRequired, ReportsOf, Kept, Travelling;
    ExampleIsPlain(crc);
    PolicyOnIntended(ExampleMessage(), policy, crc);
    NothingReportedNothingRequired(ExampleMessage(), policy, crc);
  }
}
