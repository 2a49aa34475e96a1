/** A sending peer, a network and a receiving peer as a state machine. The network may
    lose, repeat, reorder and delay datagrams, and mixes in whatever others send. */
module Protocol {
  import opened Bytes
  import opened OptionKinds
  import opened OptionChecksum
  import opened WireHeaders
  import opened Assembly
  import opened FragSplit
  import opened OptionScan
  import opened Reassembly
  import opened ReassemblyInvariant
  import opened ReassemblyRuns
  import opened FragmentDelivery
  import opened DeliveryRuns
  import opened Pipeline
  import opened PipelineFacts
  import opened Api
  import opened EndToEnd
  import opened Messages
  import opened Sending

  /** The receiver's cache, the sender's generator and every datagram ever sent, with a
      record of the messages sent whole and of those sent in pieces. */
  datatype World = World(cache: CacheState, next: Option<u32>, wire: set<seq<u8>>,
                         whole: set<Message>, pieces: map<u32, Message>)

  /** A datagram by its origin. */
  datatype Packet = Whole(msg: Message) | Piece(id: u32, i: nat)

  predicate OnRecord(p: Packet, w: World, crc: Crc) {
    match p
    case Whole(msg) => msg in w.whole && FitsWhole(msg, crc)
    case Piece(id, i) =>
      id in w.pieces && Fragmentable(w.pieces[id], crc) && i < |InPieces(w.pieces[id], crc).ranges|
  }

  function Encoded(p: Packet, w: World, a: Addrs, crc: Crc): seq<u8>
    requires OnRecord(p, w, crc)
  {
    match p
    case Whole(msg) => Datagram(a, msg.payload, Body(msg, crc))
    case Piece(id, i) =>
      PiecesAreWell(a, w.pieces[id], crc, id);
      Datagram(a, [], Carried(a, InPieces(w.pieces[id], crc), i, id))
  }

  datatype Action =
    | Submit(payload: seq<u8>, options: SendOptions, config: SendConfig)
    | Arrive(packet: Packet, now: nat)
    | Foreign(d: seq<u8>, now: nat)
    | Sweep(now: nat)

  /** The peer leaves Identifications to its generator, only datagrams on the wire arrive,
      and foreign bytes are anything the receiver rejects or takes for another 4-tuple. */
  predicate Enabled(act: Action, w: World, a: Addrs, crc: Crc) {
    match act
    case Submit(_, _, config) => config.identification.None?
    case Arrive(p, _) => OnRecord(p, w, crc) && Encoded(p, w, a, crc) in w.wire
    case Foreign(d, _) => ReadHeaders(d).Ok? ==> !OfTuple(KeyOf(a, 0), ReadHeaders(d).value)
    case Sweep(_) => true
  }

  /** The sender's turn: whatever the peer emits goes on the wire. */
  function Submitted(w: World, payload: seq<u8>, options: SendOptions, config: SendConfig, a: Addrs, crc: Crc): World {
    var (r, after) := BuildPeerOutgoing(a, payload, options, config, w.next, crc);
    if r.Err? then w.(next := after)
    else
      var sent := w.(next := after, wire := w.wire + (set d | d in r.value));
      var msg := Message(payload, options, if config.maxDatagramLen >= 28 then config.maxDatagramLen - 28 else 0);
      if BuildOutgoing(a, payload, options, config, crc).Ok? then sent.(whole := w.whole + {msg})
      else if w.next.Some? then sent.(pieces := w.pieces[w.next.value := msg])
      else sent
  }

  /** One step. The receiver decodes every datagram under one fixed policy. */
  function Next(w: World, act: Action, a: Addrs, limits: Limits, policy: ReceivePolicy, crc: Crc): World
    requires Enabled(act, w, a, crc)
  {
    match act
    case Submit(payload, options, config) => Submitted(w, payload, options, config, a, crc)
    case Arrive(p, now) => w.(cache := DecodeDatagram(Encoded(p, w, a, crc), w.cache, limits, now, policy, crc).1)
    case Foreign(d, now) => w.(cache := DecodeDatagram(d, w.cache, limits, now, policy, crc).1)
    case Sweep(now) => w.(cache := Gc(w.cache, now, limits.timeout))
  }

  /** A policy that drops all option-bearing datagrams keeps everything out of the cache;
      any other leaves the cache to the pipeline and only filters its answer. */
  lemma DecodeOnCache(d: seq<u8>, m: CacheState, limits: Limits, now: nat, policy: ReceivePolicy, crc: Crc)
    ensures var (r, n) := DecodeDatagram(d, m, limits, now, policy, crc);
            var (inner, k) := ProcessDatagram(d, m, limits, now, crc);
            var answer := if inner.Ok? then Ok(ApplyPolicy(policy, inner.value)) else Err(inner.error);
            if policy.dropAll then n == m && (r == answer || r == Ok(Filtered)) else n == k && r == answer
  {
    hide ReadHeaders, ApplyPolicy, LocateSurplus, Verdict, ParseOptions, Dispose, InsertFragment;
  }

  // ---- the invariant ----

  /** Every datagram on the wire stems from a recorded message. */
  ghost predicate WireOk(w: World, a: Addrs, crc: Crc) {
    forall d :: d in w.wire ==> exists p :: OnRecord(p, w, crc) && d == Encoded(p, w, a, crc)
  }

  /** Recorded messages can be sent, and an Identification in use is never issued again. */
  predicate RecordsOk(w: World, crc: Crc) {
    && (forall msg :: msg in w.whole ==> FitsWhole(msg, crc))
    && (forall id :: id in w.pieces ==> Fragmentable(w.pieces[id], crc) && Used(id, w.next))
  }

  /** Every partial of the sender holds slices of the one message with its
      Identification. */
  predicate PartialsOk(cache: CacheState, pieces: map<u32, Message>, a: Addrs, crc: Crc)
    requires forall id :: id in pieces ==> Fragmentable(pieces[id], crc)
  {
    forall k :: k in cache && k == KeyOf(a, k.identification) ==>
      k.identification in pieces && HoldsOnly(cache[k], InPieces(pieces[k.identification], crc))
  }

  ghost predicate Inv(w: World, a: Addrs, crc: Crc) {
    RecordsOk(w, crc) && WireOk(w, a, crc) && PartialsOk(w.cache, w.pieces, a, crc)
  }

  // ---- sending ----

  /** A record that only grows keeps every known packet and its bytes. */
  lemma RecordGrows(p: Packet, v: World, w: World, a: Addrs, crc: Crc)
    requires OnRecord(p, v, crc) && v.whole <= w.whole
    requires forall id :: id in v.pieces ==> id in w.pieces && w.pieces[id] == v.pieces[id]
    ensures OnRecord(p, w, crc) && Encoded(p, w, a, crc) == Encoded(p, v, a, crc)
  {
    hide Datagram, Carried, InPieces, Fragmentable, FitsWhole;
  }

  /** What a peer emits, by the path it took. */
  lemma PeerEmits(w: World, payload: seq<u8>, options: SendOptions, config: SendConfig, a: Addrs, crc: Crc)
    requires config.identification.None?
    ensures var (r, after) := BuildPeerOutgoing(a, payload, options, config, w.next, crc);
            var msg := Message(payload, options, if config.maxDatagramLen >= 28 then config.maxDatagramLen - 28 else 0);
            r.Ok? ==>
              if BuildOutgoing(a, payload, options, config, crc).Ok? then
                FitsWhole(msg, crc) && r.value == [Datagram(a, payload, Body(msg, crc))] && after == w.next
              else
                && w.next.Some? && after == Issue(w.next).1 && Fragmentable(msg, crc) && WellSent(InPieces(msg, crc))
                && |r.value| == |InPieces(msg, crc).ranges|
                && forall i :: 0 <= i < |r.value| ==>
                     && Sendable([], Carried(a, InPieces(msg, crc), i, w.next.value))
                     && r.value[i] == Datagram(a, [], Carried(a, InPieces(msg, crc), i, w.next.value))
  {
    hide BuildOutgoing, Permitted, InPieces, Carried, Datagram, WellSent, Sendable, Fragmentable, FitsWhole;
    var first := BuildOutgoing(a, payload, options, config, crc);
    if first.Ok? {
      BuildEmits(a, payload, options, config, crc);
      WholeFits(a, payload, options, config, crc);
    } else if first == Err(FragmentIdentificationRequired) && w.next.Some? {
      var config' := config.(identification := Some(w.next.value));
      if BuildOutgoing(a, payload, options, config', crc).Ok? {
        BuildEmits(a, payload, options, config', crc);
        IdOnlyForPieces(a, payload, options, config, w.next.value, crc);
      }
    }
  }

  lemma WholeFits(a: Addrs, payload: seq<u8>, options: SendOptions, config: SendConfig, crc: Crc)
    requires BuildOutgoing(a, payload, options, config, crc).Ok? && config.identification.None?
    ensures 28 <= config.maxDatagramLen
    ensures var msg := Message(payload, options, config.maxDatagramLen - 28);
            Permitted(msg, crc) && 28 + |Tail(payload, Body(msg, crc))| <= config.maxDatagramLen
  {
    hide BuildOutgoing, ValidateSendOptions, OptionsBody;
    BuildSucceedsIff(a, payload, options, config, crc);
  }

  /** An Identification is asked for only when the message does not fit whole. */
  lemma IdOnlyForPieces(a: Addrs, payload: seq<u8>, options: SendOptions, config: SendConfig, id: u32, crc: Crc)
    requires BuildOutgoing(a, payload, options, config, crc).Err?
    requires BuildOutgoing(a, payload, options, config.(identification := Some(id)), crc).Ok?
    ensures 28 <= config.maxDatagramLen
    ensures var msg := Message(payload, options, config.maxDatagramLen - 28);
            Permitted(msg, crc) && 28 + |Tail(payload, Body(msg, crc))| > config.maxDatagramLen
  {
    hide BuildOutgoing, ValidateSendOptions, OptionsBody;
    BuildSucceedsIff(a, payload, options, config, crc);
    BuildSucceedsIff(a, payload, options, config.(identification := Some(id)), crc);
  }

  lemma NewPackets(d: seq<u8>, w: World, payload: seq<u8>, options: SendOptions, config: SendConfig, a: Addrs, crc: Crc)
    requires config.identification.None?
    requires var (r, after) := BuildPeerOutgoing(a, payload, options, config, w.next, crc);
             r.Ok? && d in r.value
    ensures var n := Submitted(w, payload, options, config, a, crc);
            exists p :: OnRecord(p, n, crc) && d == Encoded(p, n, a, crc)
  {
    hide BuildPeerOutgoing, BuildOutgoing, InPieces, Carried, Datagram, WellSent, Fragmentable, FitsWhole;
    PeerEmits(w, payload, options, config, a, crc);
    var n := Submitted(w, payload, options, config, a, crc);
    var r := BuildPeerOutgoing(a, payload, options, config, w.next, crc).0.value;
    var msg := Message(payload, options, if config.maxDatagramLen >= 28 then config.maxDatagramLen - 28 else 0);
    if BuildOutgoing(a, payload, options, config, crc).Ok? {
      assert OnRecord(Whole(msg), n, crc) && d == Encoded(Whole(msg), n, a, crc);
    } else {
      var i :| 0 <= i < |r| && r[i] == d;
      assert OnRecord(Piece(w.next.value, i), n, crc) && d == Encoded(Piece(w.next.value, i), n, a, crc);
    }
  }

  /** A send reuses no Identification and changes no recorded message. */
  lemma SubmitKeepsRecords(w: World, payload: seq<u8>, options: SendOptions, config: SendConfig, a: Addrs, crc: Crc)
    requires RecordsOk(w, crc) && config.identification.None?
    ensures var n := Submitted(w, payload, options, config, a, crc);
            && RecordsOk(n, crc) && n.cache == w.cache && w.whole <= n.whole
            && forall id :: id in w.pieces ==> id in n.pieces && n.pieces[id] == w.pieces[id]
  {
    hide BuildOutgoing, InPieces, Carried, Datagram, WellSent, Fragmentable, FitsWhole;
    PeerEmits(w, payload, options, config, a, crc);
    forall id ensures Used(id, w.next) ==> Used(id, Issue(w.next).1) {
      IssueIsFresh(w.next, id);
    }
  }

  lemma NewOnWire(d: seq<u8>, w: World, payload: seq<u8>, options: SendOptions, config: SendConfig, a: Addrs, crc: Crc)
    requires d in Submitted(w, payload, options, config, a, crc).wire && d !in w.wire
    ensures var r := BuildPeerOutgoing(a, payload, options, config, w.next, crc).0;
            r.Ok? && d in r.value
  {
    hide BuildPeerOutgoing, BuildOutgoing;
  }

  lemma SubmitKeeps(w: World, payload: seq<u8>, options: SendOptions, config: SendConfig, a: Addrs, crc: Crc)
    requires Inv(w, a, crc) && config.identification.None?
    ensures Inv(Submitted(w, payload, options, config, a, crc), a, crc)
  {
    hide BuildPeerOutgoing, BuildOutgoing, OnRecord, Encoded, HoldsOnly, InPieces, Fragmentable, FitsWhole, Used;
    SubmitKeepsRecords(w, payload, options, config, a, crc);
    var n := Submitted(w, payload, options, config, a, crc);
    forall d | d in n.wire ensures exists p :: OnRecord(p, n, crc) && d == Encoded(p, n, a, crc) {
      if d in w.wire {
        var p :| OnRecord(p, w, crc) && d == Encoded(p, w, a, crc);
        RecordGrows(p, w, n, a, crc);
      } else {
        NewOnWire(d, w, payload, options, config, a, crc);
        NewPackets(d, w, payload, options, config, a, crc);
      }
    }
  }

  // ---- receiving ----

  lemma FreshHoldsNothing(now: nat, s: Sent)
    ensures HoldsOnly(Fresh(now), s)
  {
  }

  /** An arriving piece is buffered, dropped, or completes exactly its own message; the
      partials stay pure. */
  lemma PieceArrives(w: World, id: u32, i: nat, a: Addrs, limits: Limits, now: nat, crc: Crc)
    requires Inv(w, a, crc) && OnRecord(Piece(id, i), w, crc)
    ensures var (r, n) := ProcessDatagram(Encoded(Piece(id, i), w, a, crc), w.cache, limits, now, crc);
            var s, msg := InPieces(w.pieces[id], crc), w.pieces[id];
            && WellSent(s)
            && var (n', out) := InsertFragment(w.cache, limits, KeyOf(a, id), FragHeader(s, i, id), Data(s, i), BARE, now);
               && n == n' && PartialsOk(n, w.pieces, a, crc)
               && r == Ok(match out case Incomplete => Buffered case Abort(_) => Dropped
                          case Complete(_) => Completed(msg, crc))
  {
    hide InsertFragment, InsertPartial, ProcessDatagram, Datagram, Carried, FragHeader, Data, WellSent, InPieces, Place,
         HoldsOnly, Completes, Completed, Fragmentable, Oversized;
    var msg := w.pieces[id];
    var s, key := InPieces(msg, crc), KeyOf(a, id);
    PiecesAreWell(a, msg, crc, id);
    PieceIsProcessed(a, msg, id, i, w.cache, limits, now, crc);
    InsertRetention(w.cache, limits, key, FragHeader(s, i, id), Data(s, i), BARE, now);
    InsertOnKey(w.cache, limits, key, FragHeader(s, i, id), Data(s, i), BARE, now);
    FragmentPlace(s, i, id);
    FreshHoldsNothing(now, s);
    PieceKeeps(Current(w.cache, key, now, limits.timeout), msg, i, limits, crc);
  }

  /** Foreign bytes leave the sender's partials alone until they expire. */
  lemma ForeignOnlyExpires(d: seq<u8>, m: CacheState, a: Addrs, limits: Limits, now: nat, crc: Crc, id: u32)
    requires ReadHeaders(d).Ok? ==> !OfTuple(KeyOf(a, 0), ReadHeaders(d).value)
    ensures var n, k := ProcessDatagram(d, m, limits, now, crc).1, KeyOf(a, id);
            && (k in n ==> k in m && n[k] == m[k])
            && (k in m && k !in n ==> Expired(m[k], now, limits.timeout))
  {
    hide ProcessDatagram, ReadHeaders;
    OnlyHeadersFail(d, m, limits, now, crc);
    if ReadHeaders(d).Ok? {
      OtherTuplesOnlyExpire(d, m, limits, now, crc);
      assert !OfTuple(KeyOf(a, id), ReadHeaders(d).value);
    }
  }

  /** Every step keeps the invariant, whatever the policy. */
  lemma NextKeepsInv(w: World, act: Action, a: Addrs, limits: Limits, policy: ReceivePolicy, crc: Crc)
    requires Inv(w, a, crc) && Enabled(act, w, a, crc)
    ensures Inv(Next(w, act, a, limits, policy, crc), a, crc)
  {
    hide DecodeDatagram, ProcessDatagram, Submitted, OnRecord, Encoded, HoldsOnly, InPieces, Fragmentable, FitsWhole,
         ReadHeaders, ApplyPolicy;
    var n := Next(w, act, a, limits, policy, crc);
    match act {
      case Submit(payload, options, config) => SubmitKeeps(w, payload, options, config, a, crc);
      case Arrive(p, now) =>
        DecodeOnCache(Encoded(p, w, a, crc), w.cache, limits, now, policy, crc);
        ArriveKeepsPartials(w, p, a, limits, now, crc);
        CacheIsNotWire(w, n, a, crc);
      case Foreign(d, now) =>
        DecodeOnCache(d, w.cache, limits, now, policy, crc);
        forall id ensures var k := KeyOf(a, id); k in n.cache ==> k in w.cache && n.cache[k] == w.cache[k] {
          ForeignOnlyExpires(d, w.cache, a, limits, now, crc, id);
        }
        CacheIsNotWire(w, n, a, crc);
      case Sweep(now) => CacheIsNotWire(w, n, a, crc);
    }
  }

  lemma ArriveKeepsPartials(w: World, p: Packet, a: Addrs, limits: Limits, now: nat, crc: Crc)
    requires Inv(w, a, crc) && OnRecord(p, w, crc)
    ensures PartialsOk(ProcessDatagram(Encoded(p, w, a, crc), w.cache, limits, now, crc).1, w.pieces, a, crc)
  {
    hide Process, HoldsOnly, InPieces, InsertFragment, Carried, Datagram;
    match p
    case Whole(msg) => WholeIsDelivered(a, msg, w.cache, limits, now, crc, true);
    case Piece(id, i) => PieceArrives(w, id, i, a, limits, now, crc);
  }

  lemma CacheIsNotWire(w: World, n: World, a: Addrs, crc: Crc)
    requires WireOk(w, a, crc) && n == w.(cache := n.cache)
    ensures WireOk(n, a, crc)
  {
    hide OnRecord, Encoded;
    forall d | d in n.wire ensures exists p :: OnRecord(p, n, crc) && d == Encoded(p, n, a, crc) {
      var p :| OnRecord(p, w, crc) && d == Encoded(p, w, a, crc);
      RecordGrows(p, w, n, a, crc);
    }
  }
}
