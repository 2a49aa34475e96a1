/** Whole runs of the protocol: nothing but submitted messages is ever delivered, and a
    fragmented message arrives as if it had been sent whole. */
module ProtocolRuns {
  import opened Bytes
  import opened OptionKinds
  import opened Assembly
  import opened FragSplit
  import opened OptionScan
  import opened Reassembly
  import opened ReassemblyInvariant
  import opened ReassemblyRuns
  import opened FragmentDelivery
  import opened DeliveryRuns
  import opened Pipeline
  import opened PipelineFacts
  import opened Api
  import opened EndToEnd
  import opened OptionDelivery
  import opened Messages
  import opened Protocol

  predicate ValidRun(w: World, acts: seq<Action>, a: Addrs, limits: Limits, policy: ReceivePolicy, crc: Crc)
    decreases acts
  {
    acts == [] || (Enabled(acts[0], w, a, crc) && ValidRun(Next(w, acts[0], a, limits, policy, crc), acts[1..], a, limits, policy, crc))
  }

  function WorldAfter(w: World, acts: seq<Action>, a: Addrs, limits: Limits, policy: ReceivePolicy, crc: Crc): World
    requires ValidRun(w, acts, a, limits, policy, crc)
    decreases acts
  {
    if acts == [] then w else WorldAfter(Next(w, acts[0], a, limits, policy, crc), acts[1..], a, limits, policy, crc)
  }

  function Initial(next: Option<u32>): World {
    World(map[], next, {}, {}, map[])
  }

  // ---- safety ----

  /** Some step of the run submitted this message. */
  predicate Asked(acts: seq<Action>, msg: Message) {
    exists j :: 0 <= j < |acts| && acts[j].Submit? && acts[j].payload == msg.payload && acts[j].options == msg.options
  }

  lemma AskedLater(acts: seq<Action>, msg: Message)
    requires acts != [] && Asked(acts[1..], msg)
    ensures Asked(acts, msg)
  {
    var j :| 0 <= j < |acts[1..]| && acts[1..][j].Submit? && acts[1..][j].payload == msg.payload
             && acts[1..][j].options == msg.options;
    assert acts[j + 1] == acts[1..][j];
  }

  /** Records are made by submissions only. */
  lemma RecordsComeFromSubmit(w: World, act: Action, a: Addrs, limits: Limits, policy: ReceivePolicy, crc: Crc, msg: Message)
    requires Enabled(act, w, a, crc)
    requires var n := Next(w, act, a, limits, policy, crc); msg in n.whole || msg in n.pieces.Values
    ensures msg in w.whole || msg in w.pieces.Values || Asked([act], msg)
  {
    hide DecodeDatagram, Encoded, OnRecord, ReadHeaders, BuildPeerOutgoing, BuildOutgoing;
    assert [act][0] == act;
  }

  /** Every run keeps the invariant and records only what was submitted in it. */
  lemma {:induction false} RunsAreSound(w: World, acts: seq<Action>, a: Addrs, limits: Limits, policy: ReceivePolicy, crc: Crc)
    requires Inv(w, a, crc) && ValidRun(w, acts, a, limits, policy, crc)
    ensures var n := WorldAfter(w, acts, a, limits, policy, crc);
            && Inv(n, a, crc)
            && forall msg :: msg in n.whole || msg in n.pieces.Values ==>
                 msg in w.whole || msg in w.pieces.Values || Asked(acts, msg)
    decreases acts
  {
    hide Inv, Enabled, Next, Asked;
    if acts != [] {
      var next := Next(w, acts[0], a, limits, policy, crc);
      NextKeepsInv(w, acts[0], a, limits, policy, crc);
      RunsAreSound(next, acts[1..], a, limits, policy, crc);
      var n := WorldAfter(w, acts, a, limits, policy, crc);
      forall msg | msg in n.whole || msg in n.pieces.Values
        ensures msg in w.whole || msg in w.pieces.Values || Asked(acts, msg)
      {
        if Asked(acts[1..], msg) {
          AskedLater(acts, msg);
        } else {
          RecordsComeFromSubmit(w, acts[0], a, limits, policy, crc, msg);
          AskedFirst(acts, msg);
        }
      }
    }
  }

  lemma AskedFirst(acts: seq<Action>, msg: Message)
    requires acts != []
    ensures Asked([acts[0]], msg) ==> Asked(acts, msg)
  {
  }

  /** A delivery of this message, whole or in pieces, with all it was sent with. */
  predicate Faithful(d: Delivery, msg: Message, crc: Crc) {
    && Permitted(msg, crc)
    && (d == Intended(msg, crc, [OwnOcs(msg, crc, OcsValid)]) || d == Intended(msg, crc, PiecedOcs(msg, crc)))
  }

  /** An answer to the application that is such a delivery. */
  predicate FaithfulAnswer(x: ApiDelivery, msg: Message, crc: Crc) {
    && x.Received? && Permitted(msg, crc)
    && Faithful(Payload(x.data, x.options, Body(msg, crc) != [], x.reports, x.ocsReports), msg, crc)
  }

  lemma PolicyKeepsFaith(d: Delivery, msg: Message, policy: ReceivePolicy, crc: Crc)
    requires d.Payload? ==> Faithful(d, msg, crc)
    ensures var x := ApplyPolicy(policy, d); x.Received? ==> FaithfulAnswer(x, msg, crc)
  {
    hide Permitted, MissingRequired, OcsSatisfied, Travelling, Kept, ReportsOf, Body;
  }

  /** Safety over whole runs: whichever datagram on the wire arrives, whenever and however
      often, it is decoded without error under any policy, and a payload handed up, by the
      pipeline or to the application, is the payload, the options and the reports of one
      submitted message, never a mixture. */
  lemma DeliveriesAreFaithful(next: Option<u32>, acts: seq<Action>, d: seq<u8>, now: nat, a: Addrs, limits: Limits,
                              policy: ReceivePolicy, crc: Crc)
    requires ValidRun(Initial(next), acts, a, limits, policy, crc)
    requires d in WorldAfter(Initial(next), acts, a, limits, policy, crc).wire
    ensures var m := WorldAfter(Initial(next), acts, a, limits, policy, crc).cache;
            var r, x := ProcessDatagram(d, m, limits, now, crc).0, DecodeDatagram(d, m, limits, now, policy, crc).0;
            && r.Ok? && x.Ok?
            && (r.value.Payload? ==> exists msg :: Asked(acts, msg) && Faithful(r.value, msg, crc))
            && (x.value.Received? ==> exists msg :: Asked(acts, msg) && FaithfulAnswer(x.value, msg, crc))
  {
    hide OnRecord, Encoded, ProcessDatagram, DecodeDatagram, ApplyPolicy, Faithful, FaithfulAnswer, Asked, ValidRun, WorldAfter;
    RunsAreSound(Initial(next), acts, a, limits, policy, crc);
    var w := WorldAfter(Initial(next), acts, a, limits, policy, crc);
    var p :| OnRecord(p, w, crc) && d == Encoded(p, w, a, crc);
    var msg := ArrivalIsFaithful(p, w, a, limits, now, crc);
    assert Asked(acts, msg);
    DecodeOnCache(d, w.cache, limits, now, policy, crc);
    PolicyKeepsFaith(ProcessDatagram(d, w.cache, limits, now, crc).0.value, msg, policy, crc);
  }

  lemma ArrivalIsFaithful(p: Packet, w: World, a: Addrs, limits: Limits, now: nat, crc: Crc) returns (msg: Message)
    requires Inv(w, a, crc) && OnRecord(p, w, crc)
    ensures msg in w.whole || msg in w.pieces.Values
    ensures var r := ProcessDatagram(Encoded(p, w, a, crc), w.cache, limits, now, crc).0;
            r.Ok? && (r.value.Payload? ==> Faithful(r.value, msg, crc))
  {
    hide Process, InPieces, InsertFragment, Carried, Datagram, Intended, Permitted;
    match p
    case Whole(m) =>
      msg := m;
      WholeIsDelivered(a, m, w.cache, limits, now, crc, true);
    case Piece(id, i) =>
      msg := w.pieces[id];
      PieceArrives(w, id, i, a, limits, now, crc);
  }

  // ---- liveness ----

  predicate Until(act: Action, deadline: nat) {
    match act
    case Submit(_, _, _) => true
    case Arrive(_, now) => now < deadline
    case Foreign(_, now) => now < deadline
    case Sweep(now) => now < deadline
  }

  /** The piece of message `id` that a step brings. */
  function PieceOf(act: Action, id: u32): set<nat> {
    if act.Arrive? && act.packet.Piece? && act.packet.id == id then {act.packet.i} else {}
  }

  function PiecesIn(acts: seq<Action>, id: u32): set<nat> {
    if acts == [] then {} else PieceOf(acts[0], id) + PiecesIn(acts[1..], id)
  }

  /** Message `id` is recorded as `msg` and exactly the pieces `got` are waiting. */
  ghost predicate Awaiting(w: World, id: u32, msg: Message, got: set<nat>, since: nat, a: Addrs, limits: Limits, crc: Crc)
    requires Fragmentable(msg, crc)
  {
    var key, s := KeyOf(a, id), InPieces(msg, crc);
    && id in w.pieces && w.pieces[id] == msg
    && WellSent(s) && RoomFor(s, limits) && limits.timeout > 0
    && key in w.cache && Got(w.cache[key], s, got, limits) && w.cache[key].receivedAt == since
  }

  lemma PieceStep(w: World, i: nat, now: nat, id: u32, msg: Message, got: set<nat>, since: nat, a: Addrs, limits: Limits, crc: Crc)
    requires Inv(w, a, crc) && OnRecord(Piece(id, i), w, crc) && now < since + Window(limits)
    requires Fragmentable(msg, crc) && Awaiting(w, id, msg, got, since, a, limits, crc)
    ensures var (r, n) := ProcessDatagram(Encoded(Piece(id, i), w, a, crc), w.cache, limits, now, crc);
            if got + {i} == All(|InPieces(msg, crc).ranges|) then r == Ok(Completed(msg, crc)) && KeyOf(a, id) !in n
            else r == Ok(Buffered) && Awaiting(w.(cache := n), id, msg, got + {i}, since, a, limits, crc)
  {
    hide ProcessDatagram, Encoded, Got, InsertFragment, Inv, Completed, WellSent, RoomFor, All, FragHeader, Data, Delivers,
         Fragmentable, Gc;
    PieceArrives(w, id, i, a, limits, now, crc);
    var key, s := KeyOf(a, id), InPieces(msg, crc);
    NotYetExpired(w.cache, key, now, limits);
    assert s.procs[i] == BARE by { ProcsAreBare(msg, i, crc); }
    Arrives(w.cache, limits, key, s, got, i, now);
  }

  lemma ProcsAreBare(msg: Message, i: nat, crc: Crc)
    requires Fragmentable(msg, crc) && i < |InPieces(msg, crc).ranges|
    ensures |InPieces(msg, crc).procs| == |InPieces(msg, crc).ranges| && InPieces(msg, crc).procs[i] == BARE
  {
    hide Fragmentable, Plan;
  }

  lemma NotYetExpired(m: CacheState, key: FragKey, now: nat, limits: Limits)
    requires key in m && now < m[key].receivedAt + Window(limits) && limits.timeout > 0
    ensures !Expired(m[key], now, limits.timeout) && key in Gc(m, now, limits.timeout)
    ensures Gc(m, now, limits.timeout)[key] == m[key] && Current(m, key, now, limits.timeout) == m[key]
  {
  }

  /** Whatever else happens before the deadline, the pieces that came stay. */
  lemma OtherStep(w: World, act: Action, id: u32, msg: Message, got: set<nat>, since: nat, a: Addrs, limits: Limits,
                  policy: ReceivePolicy, crc: Crc)
    requires Inv(w, a, crc) && Enabled(act, w, a, crc) && Until(act, since + Window(limits)) && !policy.dropAll
    requires Fragmentable(msg, crc) && Awaiting(w, id, msg, got, since, a, limits, crc) && PieceOf(act, id) == {}
    ensures Awaiting(Next(w, act, a, limits, policy, crc), id, msg, got, since, a, limits, crc)
  {
    hide ProcessDatagram, DecodeDatagram, ApplyPolicy, Submitted, Got, InsertFragment, WellSent, RoomFor, InPieces, FragHeader,
         Data, Fragmentable, WireOk, PartialsOk, ReadHeaders, Completed, Expired;
    var key := KeyOf(a, id);
    match act
    case Submit(payload, options, config) => SubmitKeepsRecords(w, payload, options, config, a, crc);
    case Foreign(d, now) =>
      DecodeOnCache(d, w.cache, limits, now, policy, crc);
      ForeignOnlyExpires(d, w.cache, a, limits, now, crc, id);
      NotYetExpired(w.cache, key, now, limits);
    case Sweep(now) => NotYetExpired(w.cache, key, now, limits);
    case Arrive(p, now) =>
      DecodeOnCache(Encoded(p, w, a, crc), w.cache, limits, now, policy, crc);
      NotYetExpired(w.cache, key, now, limits);
      OthersArrive(w, p, id, a, limits, now, crc);
  }

  lemma OthersArrive(w: World, p: Packet, id: u32, a: Addrs, limits: Limits, now: nat, crc: Crc)
    requires Inv(w, a, crc) && OnRecord(p, w, crc) && (p.Piece? ==> p.id != id)
    ensures var n, k := ProcessDatagram(Encoded(p, w, a, crc), w.cache, limits, now, crc).1, KeyOf(a, id);
            k in w.cache && !Expired(w.cache[k], now, limits.timeout) ==> k in n && n[k] == w.cache[k]
  {
    hide Process, InPieces, InsertFragment, Carried, Datagram, Intended, Permitted, FragHeader, Data, Completed, Expired,
         WireOk, PartialsOk, WellSent;
    match p
    case Whole(m) =>
      WholeIsDelivered(a, m, w.cache, limits, now, crc, true);
    case Piece(other, i) =>
      PieceArrives(w, other, i, a, limits, now, crc);
      var s := InPieces(w.pieces[other], crc);
      InsertRetention(w.cache, limits, KeyOf(a, other), FragHeader(s, i, other), Data(s, i), BARE, now);
  }

  lemma Steps(w: World, act: Action, id: u32, msg: Message, got: set<nat>, since: nat, a: Addrs, limits: Limits,
              policy: ReceivePolicy, crc: Crc)
    requires Inv(w, a, crc) && Enabled(act, w, a, crc) && Until(act, since + Window(limits)) && !policy.dropAll
    requires Fragmentable(msg, crc) && Awaiting(w, id, msg, got, since, a, limits, crc)
    requires got + PieceOf(act, id) != All(|InPieces(msg, crc).ranges|)
    ensures Awaiting(Next(w, act, a, limits, policy, crc), id, msg, got + PieceOf(act, id), since, a, limits, crc)
  {
    hide ProcessDatagram, DecodeDatagram, ApplyPolicy, Awaiting, Inv, Fragmentable, Submitted, OnRecord, Encoded, ReadHeaders,
         InPieces, All;
    if PieceOf(act, id) == {} {
      OtherStep(w, act, id, msg, got, since, a, limits, policy, crc);
      assert got + {} == got;
    } else {
      DecodeOnCache(Encoded(act.packet, w, a, crc), w.cache, limits, act.now, policy, crc);
      PieceStep(w, act.packet.i, act.now, id, msg, got, since, a, limits, crc);
    }
  }

  lemma {:induction false} Waits(w: World, acts: seq<Action>, id: u32, msg: Message, got: set<nat>, since: nat,
                                 a: Addrs, limits: Limits, policy: ReceivePolicy, crc: Crc)
    requires Inv(w, a, crc) && ValidRun(w, acts, a, limits, policy, crc) && !policy.dropAll
    requires forall j :: 0 <= j < |acts| ==> Until(acts[j], since + Window(limits))
    requires Fragmentable(msg, crc) && Awaiting(w, id, msg, got, since, a, limits, crc)
    requires !(All(|InPieces(msg, crc).ranges|) <= got + PiecesIn(acts, id))
    ensures var n := WorldAfter(w, acts, a, limits, policy, crc);
            Inv(n, a, crc) && Awaiting(n, id, msg, got + PiecesIn(acts, id), since, a, limits, crc)
    decreases acts
  {
    hide Awaiting, Inv, Enabled, Next, Until, Fragmentable, InPieces, All;
    if acts == [] {
      assert got + {} == got;
    } else {
      var act, rest := acts[0], acts[1..];
      var so := got + PieceOf(act, id);
      assert so + PiecesIn(rest, id) == got + PiecesIn(acts, id);
      NextKeepsInv(w, act, a, limits, policy, crc);
      assert so != All(|InPieces(msg, crc).ranges|);
      Steps(w, act, id, msg, got, since, a, limits, policy, crc);
      Waits(Next(w, act, a, limits, policy, crc), rest, id, msg, so, since, a, limits, policy, crc);
    }
  }

  /** Piece `first` of message `id` may arrive, no piece of it is waiting, and there is room
      unless it is the only one. */
  ghost predicate Begins(w: World, id: u32, first: nat, start: nat, a: Addrs, limits: Limits, crc: Crc) {
    && Inv(w, a, crc) && Enabled(Arrive(Piece(id, first), start), w, a, crc)
    && RoomFor(InPieces(w.pieces[id], crc), limits) && limits.timeout > 0
    && var m := Gc(w.cache, start, limits.timeout);
       KeyOf(a, id) !in m && (|m| < limits.maxPending || |InPieces(w.pieces[id], crc).ranges| == 1)
  }

  /** The first piece completes its message if it is the only one; otherwise it waits. */
  lemma FirstPiece(w: World, first: nat, start: nat, id: u32, a: Addrs, limits: Limits, crc: Crc)
    requires Begins(w, id, first, start, a, limits, crc)
    ensures var (r, n) := ProcessDatagram(Encoded(Piece(id, first), w, a, crc), w.cache, limits, start, crc);
            if {first} == All(|InPieces(w.pieces[id], crc).ranges|)
            then r == Ok(Completed(w.pieces[id], crc)) && KeyOf(a, id) !in n
            else r == Ok(Buffered) && Awaiting(w.(cache := n), id, w.pieces[id], {first}, start, a, limits, crc)
  {
    hide ProcessDatagram, Encoded, Got, InsertFragment, Inv, Completed, All, FragHeader, Data, Delivers, Fragmentable,
         WellSent, InPieces, Gc, RoomFor;
    var msg := w.pieces[id];
    PieceArrives(w, id, first, a, limits, start, crc);
    ProcsAreBare(msg, first, crc);
    FirstArrives(w.cache, limits, KeyOf(a, id), InPieces(msg, crc), first, start);
  }

  /** After a first piece and any further steps in time, exactly the pieces that came
      are waiting. */
  lemma Gathered(w: World, first: nat, start: nat, acts: seq<Action>, id: u32, a: Addrs, limits: Limits,
                 policy: ReceivePolicy, crc: Crc)
    requires Begins(w, id, first, start, a, limits, crc) && !policy.dropAll
    requires ValidRun(Next(w, Arrive(Piece(id, first), start), a, limits, policy, crc), acts, a, limits, policy, crc)
    requires forall j :: 0 <= j < |acts| ==> Until(acts[j], start + Window(limits))
    requires !(All(|InPieces(w.pieces[id], crc).ranges|) <= {first} + PiecesIn(acts, id))
    ensures var n := WorldAfter(Next(w, Arrive(Piece(id, first), start), a, limits, policy, crc), acts, a, limits, policy, crc);
            && Inv(n, a, crc)
            && Awaiting(n, id, w.pieces[id], {first} + PiecesIn(acts, id), start, a, limits, crc)
  {
    hide ProcessDatagram, DecodeDatagram, ApplyPolicy, Encoded, Inv, Until, All, RoomFor, Got, ValidRun, WorldAfter,
         Fragmentable, PiecesIn, InPieces, Awaiting, Gc;
    FirstPiece(w, first, start, id, a, limits, crc);
    DecodeOnCache(Encoded(Piece(id, first), w, a, crc), w.cache, limits, start, policy, crc);
    NextKeepsInv(w, Arrive(Piece(id, first), start), a, limits, policy, crc);
    var begun := Next(w, Arrive(Piece(id, first), start), a, limits, policy, crc);
    Waits(begun, acts, id, w.pieces[id], {first}, start, a, limits, policy, crc);
  }

  /** The delivery of a message in pieces is that of the same message sent whole, up to
      the OCS reports, if it fits one datagram, and none otherwise. */
  predicate AsIfWhole(r: Result<Delivery, RecvError>, msg: Message, m: CacheState, now: nat, a: Addrs, limits: Limits, crc: Crc)
    requires Permitted(msg, crc)
  {
    if FitsWhole(msg, crc) then
      && r.Ok? && r.value.Payload? && r.value.ocsReports == PiecedOcs(msg, crc)
      && Ok(r.value.(ocsReports := [OwnOcs(msg, crc, OcsValid)]))
         == ProcessDatagram(Datagram(a, msg.payload, Body(msg, crc)), m, limits, now, crc).0
    else r == Ok(Dropped)
  }

  lemma CompletedIsAsIfWhole(msg: Message, m: CacheState, now: nat, a: Addrs, limits: Limits, crc: Crc)
    requires Permitted(msg, crc)
    ensures AsIfWhole(Ok(Completed(msg, crc)), msg, m, now, a, limits, crc)
  {
    hide ProcessDatagram, Datagram, ValidateSendOptions, OptionsBody, Travelling, Kept, ReportsOf;
    if FitsWhole(msg, crc) {
      WholeDelivered(a, msg, m, limits, now, crc);
    }
  }

  /** Piece `i` arrives when the pieces `got` of its message are waiting: it is buffered
      unless it is the last missing one, which completes the message. */
  lemma LaterPiece(w: World, first: nat, start: nat, acts: seq<Action>, i: nat, now: nat, id: u32,
                   a: Addrs, limits: Limits, policy: ReceivePolicy, crc: Crc)
    requires Begins(w, id, first, start, a, limits, crc) && !policy.dropAll
    requires ValidRun(Next(w, Arrive(Piece(id, first), start), a, limits, policy, crc), acts, a, limits, policy, crc)
    requires forall j :: 0 <= j < |acts| ==> Until(acts[j], start + Window(limits))
    requires i < |InPieces(w.pieces[id], crc).ranges| && now < start + Window(limits)
    requires !(All(|InPieces(w.pieces[id], crc).ranges|) <= {first} + PiecesIn(acts, id))
    ensures var n := WorldAfter(Next(w, Arrive(Piece(id, first), start), a, limits, policy, crc), acts, a, limits, policy, crc);
            && OnRecord(Piece(id, i), n, crc)
            && ProcessDatagram(Encoded(Piece(id, i), n, a, crc), n.cache, limits, now, crc).0
               == Ok(if {first} + PiecesIn(acts, id) + {i} == All(|InPieces(w.pieces[id], crc).ranges|)
                     then Completed(w.pieces[id], crc) else Buffered)
  {
    hide ProcessDatagram, Encoded, Inv, Next, Until, All, RoomFor, Got, ValidRun, WorldAfter, Permitted, PiecesIn, InPieces,
         Gc, Completed, WellSent;
    Gathered(w, first, start, acts, id, a, limits, policy, crc);
    var n := WorldAfter(Next(w, Arrive(Piece(id, first), start), a, limits, policy, crc), acts, a, limits, policy, crc);
    PieceStep(n, i, now, id, w.pieces[id], {first} + PiecesIn(acts, id), start, a, limits, crc);
  }

  /** Transparency. Under any policy that admits option-bearing datagrams and in any run, a
      first piece that is the only one yields the delivery of the message sent whole. Any
      other first piece with room is buffered, and whatever else is sent, swept, repeated
      or arrives out of order within the timeout, so is each further piece until the last
      missing one, which yields that delivery. */
  lemma FragmentationIsTransparent(w: World, first: nat, start: nat, acts: seq<Action>, i: nat, now: nat, id: u32,
                                   a: Addrs, limits: Limits, policy: ReceivePolicy, crc: Crc)
    requires Begins(w, id, first, start, a, limits, crc) && !policy.dropAll
    requires ValidRun(Next(w, Arrive(Piece(id, first), start), a, limits, policy, crc), acts, a, limits, policy, crc)
    requires forall j :: 0 <= j < |acts| ==> Until(acts[j], start + Window(limits))
    requires i < |InPieces(w.pieces[id], crc).ranges| && now < start + Window(limits)
    ensures var r := ProcessDatagram(Encoded(Piece(id, first), w, a, crc), w.cache, limits, start, crc).0;
            if {first} == All(|InPieces(w.pieces[id], crc).ranges|)
            then AsIfWhole(r, w.pieces[id], w.cache, start, a, limits, crc)
            else r == Ok(Buffered)
    ensures !(All(|InPieces(w.pieces[id], crc).ranges|) <= {first} + PiecesIn(acts, id)) ==>
              var n := WorldAfter(Next(w, Arrive(Piece(id, first), start), a, limits, policy, crc), acts, a, limits, policy, crc);
              && OnRecord(Piece(id, i), n, crc)
              && var r := ProcessDatagram(Encoded(Piece(id, i), n, a, crc), n.cache, limits, now, crc).0;
                 if {first} + PiecesIn(acts, id) + {i} == All(|InPieces(w.pieces[id], crc).ranges|)
                 then AsIfWhole(r, w.pieces[id], n.cache, now, a, limits, crc)
                 else r == Ok(Buffered)
  {
    hide ProcessDatagram, Encoded, Inv, Next, Until, All, RoomFor, Got, ValidRun, WorldAfter, Permitted, PiecesIn, InPieces,
         AsIfWhole, Gc, Completed, WellSent, Awaiting;
    var msg := w.pieces[id];
    FirstPiece(w, first, start, id, a, limits, crc);
    CompletedIsAsIfWhole(msg, w.cache, start, a, limits, crc);
    if !(All(|InPieces(msg, crc).ranges|) <= {first} + PiecesIn(acts, id)) {
      LaterPiece(w, first, start, acts, i, now, id, a, limits, policy, crc);
      var n := WorldAfter(Next(w, Arrive(Piece(id, first), start), a, limits, policy, crc), acts, a, limits, policy, crc);
      CompletedIsAsIfWhole(msg, n.cache, now, a, limits, crc);
    }
  }

  lemma WholeDelivered(a: Addrs, msg: Message, m: CacheState, limits: Limits, now: nat, crc: Crc)
    requires FitsWhole(msg, crc)
    ensures ProcessDatagram(Datagram(a, msg.payload, Body(msg, crc)), m, limits, now, crc)
         == (Ok(Intended(msg, crc, [OwnOcs(msg, crc, OcsValid)])), m)
  {
    hide Process, Intended, FitsWhole;
    WholeIsDelivered(a, msg, m, limits, now, crc, true);
  }
}
