/** The receive policy, and when it treats a message in pieces like the message whole. */
module Policy {
  import opened Bytes
  import opened OptionKinds
  import opened WireHeaders
  import opened Assembly
  import opened FragSplit
  import opened OptionScan
  import opened Reassembly
  import opened ReassemblyRuns
  import opened FragmentDelivery
  import opened Pipeline
  import opened Api
  import opened OptionDelivery
  import opened EndToEnd
  import opened Messages
  import opened Sending
  import opened Protocol
  import opened ProtocolRuns

  /** The same answer to the application, OCS reports aside. */
  predicate Agree(x: Result<ApiDelivery, RecvError>, y: Result<ApiDelivery, RecvError>) {
    && x.Ok? && y.Ok?
    && (x.value == y.value
        || (x.value.Received? && y.value.Received? && x.value == y.value.(ocsReports := x.value.ocsReports)))
  }

  /** An assembled datagram is option-bearing exactly when it has a surplus area. */
  lemma SentBearing(a: Addrs, payload: seq<u8>, body: seq<u8>)
    requires Sendable(payload, body)
    ensures WireOptionBearing(Datagram(a, payload, body)) == Ok(body != [])
  {
    hide ReadHeaders, Datagram, LaidOut, SentView, LocateSurplus;
    SentIsReadable(a, payload, body);
    SentIsLaidOut(a, payload, body);
    LaidOutPieces(SentView(a, payload, body), payload, OnWire(payload, body));
  }

  /** What a policy answers to a message sent whole. */
  function WholeAnswer(msg: Message, policy: ReceivePolicy, crc: Crc): ApiDelivery
    requires Permitted(msg, crc)
  {
    if policy.dropAll && Body(msg, crc) != [] then Filtered
    else ApplyPolicy(policy, Intended(msg, crc, [OwnOcs(msg, crc, OcsValid)]))
  }

  lemma WholeIsDecoded(a: Addrs, msg: Message, m: CacheState, limits: Limits, now: nat, policy: ReceivePolicy, crc: Crc)
    requires FitsWhole(msg, crc)
    ensures DecodeDatagram(Datagram(a, msg.payload, Body(msg, crc)), m, limits, now, policy, crc)
         == (Ok(WholeAnswer(msg, policy, crc)), m)
  {
    hide ProcessDatagram, Datagram, WireOptionBearing, ApplyPolicy, Intended, ValidateSendOptions, OptionsBody;
    SentBearing(a, msg.payload, Body(msg, crc));
    WholeDelivered(a, msg, m, limits, now, crc);
  }

  /** A policy that drops all option-bearing datagrams filters every piece and keeps it out
      of the cache. */
  lemma PieceIsFiltered(a: Addrs, s: Sent, i: nat, id: u32, m: CacheState, limits: Limits, now: nat, policy: ReceivePolicy, crc: Crc)
    requires WellSent(s) && i < |s.ranges| && Sendable([], Carried(a, s, i, id)) && policy.dropAll
    ensures DecodeDatagram(Datagram(a, [], Carried(a, s, i, id)), m, limits, now, policy, crc) == (Ok(Filtered), m)
  {
    hide ProcessDatagram, Datagram, WireOptionBearing, Carried;
    SentBearing(a, [], Carried(a, s, i, id));
  }

  /** The policy on the two OCS records of one message. */
  lemma PolicyOnIntended(msg: Message, policy: ReceivePolicy, crc: Crc)
    requires Permitted(msg, crc)
    ensures var whole, pieced := Intended(msg, crc, [OwnOcs(msg, crc, OcsValid)]), Intended(msg, crc, PiecedOcs(msg, crc));
            var bearing, missing := Body(msg, crc) != [], MissingRequired(policy, whole.reports);
            && (ApplyPolicy(policy, whole).Received?
                <==> !(policy.dropAll && bearing) && !missing && (policy.ocsRequired ==> bearing))
            && (ApplyPolicy(policy, pieced).Received? <==> !(policy.dropAll && bearing) && !missing)
  {
    hide ValidateSendOptions, OptionsBody, Travelling, Kept, ReportsOf, MissingRequired;
    var whole, pieced := [OwnOcs(msg, crc, OcsValid)], PiecedOcs(msg, crc);
    assert whole[0].status in {OcsValid, OcsUnused} <==> Body(msg, crc) != [];
    assert pieced[0].status == OcsValid;
  }

  lemma NothingReportedNothingRequired(msg: Message, policy: ReceivePolicy, crc: Crc)
    requires Permitted(msg, crc) && Body(msg, crc) == []
    ensures MissingRequired(policy, ReportsOf(Travelling(msg.payload, msg.options, crc), crc(msg.payload)))
       <==> policy.required != []
  {
    hide ValidateSendOptions, OptionsBody, Travelling;
    NoBodyNoOptions(msg, crc);
    if policy.required != [] {
      assert !Satisfied(policy.required[0], []);
    }
  }

  /** When filtering every piece agrees with the whole message: unless that one carries no
      options and nothing is required of it. */
  lemma FilteredAgrees(msg: Message, policy: ReceivePolicy, crc: Crc)
    requires Permitted(msg, crc) && policy.dropAll
    ensures WholeAnswer(msg, policy, crc) == Filtered <==> Body(msg, crc) != [] || policy.required != [] || policy.ocsRequired
    ensures WholeAnswer(msg, policy, crc) == Filtered || WholeAnswer(msg, policy, crc).Received?
  {
    hide Permitted, MissingRequired, OcsSatisfied, Travelling, Kept, ReportsOf, Body;
    PolicyOnIntended(msg, policy, crc);
    if Body(msg, crc) == [] {
      NothingReportedNothingRequired(msg, policy, crc);
    }
  }

  /** When the completed message gets the answer of the whole one: unless it carries no
      options and an OCS is all that is required of it. */
  lemma CompletedAgrees(msg: Message, policy: ReceivePolicy, crc: Crc)
    requires FitsWhole(msg, crc) && !policy.dropAll
    ensures Agree(Ok(WholeAnswer(msg, policy, crc)), Ok(ApplyPolicy(policy, Completed(msg, crc))))
       <==> Body(msg, crc) != [] || policy.required != [] || !policy.ocsRequired
  {
    hide Permitted, MissingRequired, OcsSatisfied, Travelling, Kept, ReportsOf, Body;
    PolicyOnIntended(msg, policy, crc);
    if Body(msg, crc) == [] {
      NothingReportedNothingRequired(msg, policy, crc);
    }
  }

  /** The right answer to one piece, the last missing one or not. The agreement is with the
      decoding of the same message sent whole. */
  predicate Answered(x: Result<ApiDelivery, RecvError>, last: bool, msg: Message, m: CacheState, now: nat,
                     a: Addrs, limits: Limits, policy: ReceivePolicy, crc: Crc)
    requires Permitted(msg, crc)
  {
    if policy.dropAll then
      && x == Ok(Filtered)
      && (FitsWhole(msg, crc) ==>
            (Agree(DecodeDatagram(Datagram(a, msg.payload, Body(msg, crc)), m, limits, now, policy, crc).0, x)
             <==> Body(msg, crc) != [] || policy.required != [] || policy.ocsRequired))
    else if !last then x == Ok(ApiBuffered)
    else if !FitsWhole(msg, crc) then x == Ok(ApiDropped)
    else
      && x.Ok?
      && (Agree(DecodeDatagram(Datagram(a, msg.payload, Body(msg, crc)), m, limits, now, policy, crc).0, x)
          <==> Body(msg, crc) != [] || policy.required != [] || !policy.ocsRequired)
  }

  lemma FilteredIsAnswered(last: bool, msg: Message, m: CacheState, now: nat, a: Addrs, limits: Limits, policy: ReceivePolicy, crc: Crc)
    requires Permitted(msg, crc) && policy.dropAll
    ensures Answered(Ok(Filtered), last, msg, m, now, a, limits, policy, crc)
  {
    hide Permitted, DecodeDatagram, Datagram, ApplyPolicy, Intended, Body;
    FilteredAgrees(msg, policy, crc);
    if FitsWhole(msg, crc) {
      WholeIsDecoded(a, msg, m, limits, now, policy, crc);
    }
  }

  lemma CompletedIsAnswered(msg: Message, m: CacheState, now: nat, a: Addrs, limits: Limits, policy: ReceivePolicy, crc: Crc)
    requires Permitted(msg, crc) && !policy.dropAll
    ensures Answered(Ok(ApplyPolicy(policy, Completed(msg, crc))), true, msg, m, now, a, limits, policy, crc)
  {
    hide Permitted, DecodeDatagram, Datagram, Intended, Body, Agree, MissingRequired, OcsSatisfied;
    if FitsWhole(msg, crc) {
      WholeIsDecoded(a, msg, m, limits, now, policy, crc);
      CompletedAgrees(msg, policy, crc);
    }
  }

  /** One piece under any policy, from what the pipeline makes of it. */
  lemma PieceIsAnswered(w: World, id: u32, i: nat, last: bool, now: nat, a: Addrs, limits: Limits, policy: ReceivePolicy, crc: Crc)
    requires Inv(w, a, crc) && OnRecord(Piece(id, i), w, crc)
    requires !policy.dropAll ==>
               ProcessDatagram(Encoded(Piece(id, i), w, a, crc), w.cache, limits, now, crc).0
               == Ok(if last then Completed(w.pieces[id], crc) else Buffered)
    ensures var (x, n) := DecodeDatagram(Encoded(Piece(id, i), w, a, crc), w.cache, limits, now, policy, crc);
            && Answered(x, last, w.pieces[id], w.cache, now, a, limits, policy, crc)
            && (policy.dropAll ==> n == w.cache)
  {
    hide ProcessDatagram, DecodeDatagram, Datagram, Inv, Carried, InPieces, Completed, WellSent, Answered, Permitted;
    var msg := w.pieces[id];
    if policy.dropAll {
      PiecesAreWell(a, msg, crc, id);
      PieceIsFiltered(a, InPieces(msg, crc), i, id, w.cache, limits, now, policy, crc);
      FilteredIsAnswered(last, msg, w.cache, now, a, limits, policy, crc);
    } else {
      DecodeOnCache(Encoded(Piece(id, i), w, a, crc), w.cache, limits, now, policy, crc);
      if last {
        CompletedIsAnswered(msg, w.cache, now, a, limits, policy, crc);
      } else {
        BufferedIsAnswered(msg, w.cache, now, a, limits, policy, crc);
      }
    }
  }

  lemma BufferedIsAnswered(msg: Message, m: CacheState, now: nat, a: Addrs, limits: Limits, policy: ReceivePolicy, crc: Crc)
    requires Permitted(msg, crc) && !policy.dropAll
    ensures Answered(Ok(ApplyPolicy(policy, Buffered)), false, msg, m, now, a, limits, policy, crc)
  {
    hide Permitted, DecodeDatagram, Datagram;
  }

  /** Decoding a fragmented message in any order. The receiver decodes everything under one
      fixed policy. Without "drop all", every piece is buffered until the last missing one,
      whose answer agrees with that to the message sent whole exactly when the message
      carries options, or some option is required, or no OCS is. With "drop all", every
      piece is filtered, which agrees exactly when the message carries options, or some
      option is required, or an OCS is. */
  lemma PolicyAgreement(w: World, first: nat, start: nat, acts: seq<Action>, i: nat, now: nat, id: u32,
                        a: Addrs, limits: Limits, policy: ReceivePolicy, crc: Crc)
    requires Begins(w, id, first, start, a, limits, crc)
    requires ValidRun(Next(w, Arrive(Piece(id, first), start), a, limits, policy, crc), acts, a, limits, policy, crc)
    requires forall j :: 0 <= j < |acts| ==> Until(acts[j], start + Window(limits))
    requires i < |InPieces(w.pieces[id], crc).ranges| && now < start + Window(limits)
    ensures var x := DecodeDatagram(Encoded(Piece(id, first), w, a, crc), w.cache, limits, start, policy, crc).0;
            Answered(x, {first} == All(|InPieces(w.pieces[id], crc).ranges|), w.pieces[id], w.cache, start, a, limits, policy, crc)
    ensures policy.dropAll || !(All(|InPieces(w.pieces[id], crc).ranges|) <= {first} + PiecesIn(acts, id)) ==>
              var n := WorldAfter(Next(w, Arrive(Piece(id, first), start), a, limits, policy, crc), acts, a, limits, policy, crc);
              && OnRecord(Piece(id, i), n, crc)
              && var x := DecodeDatagram(Encoded(Piece(id, i), n, a, crc), n.cache, limits, now, policy, crc).0;
                 Answered(x, {first} + PiecesIn(acts, id) + {i} == All(|InPieces(w.pieces[id], crc).ranges|),
                          w.pieces[id], n.cache, now, a, limits, policy, crc)
  {
    hide ProcessDatagram, DecodeDatagram, Encoded, Inv, Next, Until, All, RoomFor, ValidRun, WorldAfter, Permitted, PiecesIn,
         InPieces, Gc, Completed, WellSent, Awaiting, Answered;
    FirstPiece(w, first, start, id, a, limits, crc);
    PieceIsAnswered(w, id, first, {first} == All(|InPieces(w.pieces[id], crc).ranges|), start, a, limits, policy, crc);
    var begun := Next(w, Arrive(Piece(id, first), start), a, limits, policy, crc);
    NextKeepsInv(w, Arrive(Piece(id, first), start), a, limits, policy, crc);
    BegunKeepsRecord(w, id, first, start, a, limits, policy, crc);
    RecordStays(begun, acts, id, a, limits, policy, crc);
    var n := WorldAfter(begun, acts, a, limits, policy, crc);
    var last := {first} + PiecesIn(acts, id) + {i} == All(|InPieces(w.pieces[id], crc).ranges|);
    if policy.dropAll {
      PieceIsAnswered(n, id, i, last, now, a, limits, policy, crc);
    } else if !(All(|InPieces(w.pieces[id], crc).ranges|) <= {first} + PiecesIn(acts, id)) {
      LaterPiece(w, first, start, acts, i, now, id, a, limits, policy, crc);
      PieceIsAnswered(n, id, i, last, now, a, limits, policy, crc);
    }
  }

  lemma BegunKeepsRecord(w: World, id: u32, first: nat, start: nat, a: Addrs, limits: Limits, policy: ReceivePolicy, crc: Crc)
    requires Enabled(Arrive(Piece(id, first), start), w, a, crc)
    ensures var begun := Next(w, Arrive(Piece(id, first), start), a, limits, policy, crc);
            id in begun.pieces && begun.pieces[id] == w.pieces[id]
  {
    hide DecodeDatagram, Encoded;
  }

  /** A message once recorded stays so. */
  lemma {:induction false} RecordStays(w: World, acts: seq<Action>, id: u32, a: Addrs, limits: Limits, policy: ReceivePolicy, crc: Crc)
    requires Inv(w, a, crc) && ValidRun(w, acts, a, limits, policy, crc) && id in w.pieces
    ensures var n := WorldAfter(w, acts, a, limits, policy, crc);
            Inv(n, a, crc) && id in n.pieces && n.pieces[id] == w.pieces[id]
    decreases acts
  {
    hide DecodeDatagram, Submitted, OnRecord, Encoded, WireOk, PartialsOk, ReadHeaders, Fragmentable, FitsWhole, Used;
    if acts != [] {
      NextKeepsInv(w, acts[0], a, limits, policy, crc);
      if acts[0].Submit? {
        SubmitKeepsRecords(w, acts[0].payload, acts[0].options, acts[0].config, a, crc);
      }
      RecordStays(Next(w, acts[0], a, limits, policy, crc), acts[1..], id, a, limits, policy, crc);
    }
  }

  /** Under "drop all" no run ever puts anything into the cache. */
  lemma {:induction false} DropAllNeverBuffers(w: World, acts: seq<Action>, a: Addrs, limits: Limits, policy: ReceivePolicy, crc: Crc)
    requires ValidRun(w, acts, a, limits, policy, crc) && policy.dropAll && w.cache == map[]
    ensures WorldAfter(w, acts, a, limits, policy, crc).cache == map[]
    decreases acts
  {
    hide DecodeDatagram, ProcessDatagram, ApplyPolicy, BuildPeerOutgoing, BuildOutgoing, OnRecord, Encoded, ReadHeaders;
    if acts != [] {
      match acts[0] {
        case Submit(_, _, _) =>
        case Arrive(p, now) => DecodeOnCache(Encoded(p, w, a, crc), w.cache, limits, now, policy, crc);
        case Foreign(d, now) => DecodeOnCache(d, w.cache, limits, now, policy, crc);
        case Sweep(_) =>
      }
      DropAllNeverBuffers(Next(w, acts[0], a, limits, policy, crc), acts[1..], a, limits, policy, crc);
    }
  }
}
