/** What a sender may ask for, in which order options travel, and which complaint each
    refused request gets. */
module SenderFacts {
  import opened Bytes
  import opened OptionKinds
  import opened OptionParser
  import opened OptionSerializer
  import opened Assembly
  import opened FragSplit
  import opened Pipeline
  import opened Api
  import opened OptionDelivery
  import opened Messages
  import opened Sending

  // ---- the order of options on the wire ----

  /** FRAG, APC, MDS, MRDS, REQ, RES. */
  const LEADING: seq<u8> := [3, 2, 4, 5, 6, 7]

  /** Kind `a` may stand in front of Kind `b`: the leading Kinds in their order, then all
      others by ascending Kind. */
  predicate MayPrecede(a: u8, b: u8) {
    || (exists p, q :: 0 <= p <= q < |LEADING| && LEADING[p] == a && LEADING[q] == b)
    || (a in LEADING && b !in LEADING)
    || (a !in LEADING && b !in LEADING && a <= b)
  }

  lemma RankIsOrder(a: u8, b: u8)
    ensures Rank(a) <= Rank(b) <==> MayPrecede(a, b)
  {
    assert LEADING[0] == 3 && LEADING[1] == 2 && LEADING[2] == 4 && LEADING[3] == 5 && LEADING[4] == 6 && LEADING[5] == 7;
    if a in LEADING && b in LEADING {
      PlaceOf(a);
      PlaceOf(b);
    } else {
      NotLeading(a);
      NotLeading(b);
    }
  }

  lemma PlaceOf(k: u8)
    requires k in LEADING
    ensures Rank(k) < |LEADING| && LEADING[Rank(k)] == k
    ensures forall p :: 0 <= p < |LEADING| && LEADING[p] == k ==> p == Rank(k)
  {
  }

  lemma NotLeading(k: u8)
    ensures k !in LEADING ==> Rank(k) == 1000 + k
    ensures k in LEADING ==> Rank(k) < 1000
  {
    if k in LEADING { PlaceOf(k); }
  }

  /** The options of every built body stand in the canonical order. */
  lemma BodyIsInOrder(opts: seq<RawOption>)
    requires Finish(opts).Ok?
    ensures |Finish(opts).value| >= 2
    ensures var sent := Parsed(Items(Finish(opts).value[2..], 0));
            && |sent| == |opts|
            && forall i, j :: 0 <= i < j < |sent| ==> MayPrecede(sent[i].kind.ToByte(), sent[j].kind.ToByte())
  {
    hide Finish, Items, Parsed, Canonical, MayPrecede, ValidateOption, Rank, Ranked, SortByRank;
    SerializerRoundTrip(opts);
    FinishShape(opts);
    var sorted, start := SortByRank(opts), 8 + |Finish(opts).value|;
    SortIsStable(opts);
    SameSize(sorted, opts);
    SortKeepsEmittable(opts);
    PatchKeepsShape(sorted, start);
    forall i, j | 0 <= i < j < |sorted| ensures MayPrecede(sorted[i].kind.ToByte(), sorted[j].kind.ToByte()) {
      RanksAscend(sorted, i, j);
      RankIsOrder(sorted[i].kind.ToByte(), sorted[j].kind.ToByte());
    }
  }

  lemma RanksAscend(opts: seq<RawOption>, i: nat, j: nat)
    requires Ranked(opts) && i < j < |opts|
    ensures Rank(opts[i].kind.ToByte()) <= Rank(opts[j].kind.ToByte())
  {
    hide Rank;
    assert RankOf(opts[i]) <= RankOf(opts[j]);
  }

  lemma SameSize<T>(a: seq<T>, b: seq<T>)
    requires multiset(a) == multiset(b)
    ensures |a| == |b|
  {
    assert |multiset(a)| == |a| && |multiset(b)| == |b|;
  }

  // ---- which options may be sent ----

  /** The Kinds with one format, and the lengths of their values. */
  predicate FixedFormat(kind: u8, len: nat) {
    || (kind == 2 && len == 4) || (kind == 3 && (len == 8 || len == 10)) || (kind == 4 && len == 2) || (kind == 5 && len == 3)
    || ((kind == 6 || kind == 7) && len == 4)
  }

  /** An option is accepted exactly in its fixed format, or with an unassigned safe Kind and
      a length that can be encoded; and each refusal has its own reason. */
  lemma AcceptedOptions(o: RawOption)
    ensures var kind, len, e := o.kind.ToByte(), |o.value|, ValidateOption(o);
            && (e.None? <==> FixedFormat(kind, len) || (10 <= kind <= 126 && len <= 65531))
            && (kind <= 1 ==> e == Some(ReservedKind(kind)))
            && (kind >= 192 ==> e == Some(UnsafeKind(kind)))
            && (kind == 8 || kind == 9 || 127 <= kind < 192 ==> e == Some(UnsupportedAssignedKind(kind)))
            && (2 <= kind <= 7 && len <= 65531 && !FixedFormat(kind, len) ==> e == Some(InvalidFixedValueLength(kind, len)))
            && ((2 <= kind <= 7 || 10 <= kind <= 126) && len > 65531 ==> e == Some(ValueTooLong(kind, len)))
  {
  }

  /** The complaint about a list of options is about the first offender: an option that is
      not accepted, or a second FRAG. */
  lemma {:induction false} FirstOffender(opts: seq<RawOption>, seenFrag: bool) returns (k: nat)
    requires FirstError(opts, seenFrag).Some?
    ensures k < |opts|
    ensures forall j :: 0 <= j < k ==> ValidateOption(opts[j]).None?
    ensures if ValidateOption(opts[k]).Some? then FirstError(opts, seenFrag) == ValidateOption(opts[k])
            else FirstError(opts, seenFrag) == Some(DuplicateFragOption)
                 && IsFrag(opts[k]) && (seenFrag || exists j :: 0 <= j < k && IsFrag(opts[j]))
  {
    hide ValidateOption;
    if ValidateOption(opts[0]).Some? || (IsFrag(opts[0]) && seenFrag) {
      k := 0;
    } else {
      var rest := FirstOffender(opts[1..], seenFrag || IsFrag(opts[0]));
      k := rest + 1;
      assert opts[1..][rest] == opts[k];
      forall j | 0 <= j < k ensures ValidateOption(opts[j]).None? {
        if j > 0 { assert opts[j] == opts[1..][j - 1]; }
      }
      if ValidateOption(opts[k]).None? && !seenFrag && !IsFrag(opts[0]) {
        var j :| 0 <= j < rest && IsFrag(opts[1..][j]);
        assert IsFrag(opts[j + 1]);
      }
    }
  }

  /** A builder fails with that complaint, or because the body is too long. */
  lemma BuilderErrors(opts: seq<RawOption>)
    requires Finish(opts).Err?
    ensures if FirstError(opts, false).Some? then Finish(opts).error == FirstError(opts, false).value
            else Finish(opts).error.BodyTooLong? || Finish(opts).error.FragmentStartTooLarge?
  {
    hide FirstError;
    if FirstError(opts, false).None? {
      LengthErrors(SortByRank(opts), 2);
    }
  }

  lemma {:induction false} LengthErrors(opts: seq<RawOption>, len: nat)
    ensures BodyLen(opts, len).Err? ==> BodyLen(opts, len).error.BodyTooLong? && BodyLen(opts, len).error.len > BODY_LEN_MAX
  {
    if opts != [] {
      var aligned := if len % 2 == 1 then len + 1 else len;
      LengthErrors(opts[1..], aligned + EncodedLen(|opts[0].value|));
    }
  }

  /** Reportable Kinds, of which a send may carry one each. */
  predicate Single(kind: u8) {
    kind == 2 || kind == 4 || kind == 5 || kind == 6 || kind == 7
  }

  /** What a send may ask for: no FRAG, accepted options, none of the reportable Kinds twice,
      no APC beside the automatic one, and a body that fits. */
  lemma PermittedIff(msg: Message, crc: Crc)
    ensures var raw, all := msg.options.rawOptions, AllOptions(msg.payload, msg.options, crc);
            Permitted(msg, crc) <==>
              && (forall i :: 0 <= i < |raw| ==> raw[i].kind.ToByte() != 3 && ValidateOption(raw[i]).None?)
              && (msg.options.includeApc ==> forall i :: 0 <= i < |raw| ==> raw[i].kind.ToByte() != 2)
              && (forall i, j :: 0 <= i < j < |raw| && Single(raw[i].kind.ToByte()) ==> raw[i].kind.ToByte() != raw[j].kind.ToByte())
              && (all == [] || (Emittable(all) && (SortKeepsEmittable(all); 2 + |Emit(SortByRank(all))| <= 65526)))
  {
    hide ValidateOption, Emit, SortByRank, U32Bytes, Finish, AtMostOneFrag;
    var raw, all := msg.options.rawOptions, AllOptions(msg.payload, msg.options, crc);
    FinishSucceedsIff(all);
    OwnApcIsAccepted(crc(msg.payload));
    EmittableAll(msg, crc);
    if forall i :: 0 <= i < |raw| ==> raw[i].kind.ToByte() != 3 {
      NoFragAtAll(msg, crc);
    }
    assert MustBeUniqueIsSingle() by { SingleKinds(); }
  }

  ghost predicate MustBeUniqueIsSingle() {
    forall k: u8 :: MustBeUnique(k) <==> Single(k)
  }

  lemma SingleKinds()
    ensures MustBeUniqueIsSingle()
  {
  }

  lemma OwnApcIsAccepted(c: u32)
    ensures ValidateOption(RawOption(Apc, U32Bytes(c))).None?
  {
  }

  lemma EmittableAll(msg: Message, crc: Crc)
    ensures Emittable(AllOptions(msg.payload, msg.options, crc))
       <==> forall i :: 0 <= i < |msg.options.rawOptions| ==> ValidateOption(msg.options.rawOptions[i]).None?
    ensures AllOptions(msg.payload, msg.options, crc) == [] <==> !msg.options.includeApc && msg.options.rawOptions == []
  {
    hide ValidateOption, U32Bytes, Framable;
    var raw, all := msg.options.rawOptions, AllOptions(msg.payload, msg.options, crc);
    OwnApcIsAccepted(crc(msg.payload));
    var n := |all| - |raw|;
    assert forall i :: 0 <= i < |raw| ==> all[n + i] == raw[i];
    assert n > 0 ==> all[0] == RawOption(Apc, U32Bytes(crc(msg.payload)));
    forall i | 0 <= i < |all| && ValidateOption(all[i]).None? ensures Framable(all[i]) {
      AcceptedIsFramable(all[i]);
    }
    if forall i :: 0 <= i < |raw| ==> ValidateOption(raw[i]).None? {
      forall i | 0 <= i < |all| ensures ValidateOption(all[i]).None? {
        if i >= n { assert all[i] == raw[i - n]; }
      }
    }
    if Emittable(all) {
      forall i | 0 <= i < |raw| ensures ValidateOption(raw[i]).None? {
        assert all[n + i] == raw[i];
      }
    }
  }

  lemma AcceptedIsFramable(o: RawOption)
    requires ValidateOption(o).None?
    ensures Framable(o)
  {
  }

  lemma NoFragAtAll(msg: Message, crc: Crc)
    requires forall i :: 0 <= i < |msg.options.rawOptions| ==> msg.options.rawOptions[i].kind.ToByte() != 3
    ensures AtMostOneFrag(AllOptions(msg.payload, msg.options, crc))
  {
    hide U32Bytes;
    var raw, all := msg.options.rawOptions, AllOptions(msg.payload, msg.options, crc);
    var n := |all| - |raw|;
    forall i | 0 <= i < |all| ensures !IsFrag(all[i]) {
      if i >= n { assert all[i] == raw[i - n]; }
    }
  }

  // ---- complaints ----

  /** Which complaint the splitter makes: the first of these that applies. */
  lemma SplitComplaints(payload: seq<u8>, body: seq<u8>, cfg: SplitConfig)
    requires SplitDatagram(payload, body, cfg).Err?
    ensures var e, whole := SplitDatagram(payload, body, cfg).error, 8 + |Tail(payload, body)|;
            if |body| == 1 then e == OptionsBodyTooShort(1)
            else if cfg.budget > 65507 then e == FragmentSurplusTooLarge(cfg.budget, 65507)
            else if |payload| > 65527 then e == RdosTooLarge(8 + |payload|)
            else if whole > cfg.peer.maxReassembled then e == ReassembledDatagramTooLarge(whole, cfg.peer.maxReassembled)
            else if cfg.budget < 14 then e == FragmentCapacityTooSmall(14, cfg.budget)
            else e == SegmentLimitExceeded(MinFragments(|Tail(payload, body)|, cfg.budget - 14, cfg.budget - 12), cfg.peer.maxSegments)
  {
    hide MinFragments, BuildFragments, Tiles, FitCapacities;
    SplitSucceedsIff(payload, body, cfg);
    if cfg.budget >= 14 {
      RangesCount(0, |Tail(payload, body)|, cfg.budget - 14, cfg.budget - 12);
    }
  }

  /** Which complaint a send gets: the first of these that applies. */
  lemma SendComplaints(a: Addrs, payload: seq<u8>, options: SendOptions, config: SendConfig, crc: Crc)
    requires BuildOutgoing(a, payload, options, config, crc).Err?
    ensures var e := BuildOutgoing(a, payload, options, config, crc).error;
            if config.maxDatagramLen > 65535 || config.maxDatagramLen < 28 then e.InvalidConfig?
            else if ValidateSendOptions(options).Some? then e.InvalidConfig?
            else if OptionsBody(payload, options, crc).Err? then
              Finish(AllOptions(payload, options, crc)).Err? && e == SerializeFailed(Finish(AllOptions(payload, options, crc)).error)
            else
              var body := OptionsBody(payload, options, crc).value;
              var whole := 28 + |Tail(payload, body)|;
              && whole > config.maxDatagramLen
              && if config.fragmentation == Disabled then e == DatagramTooLarge(whole, config.maxDatagramLen)
                 else if config.identification.None? then e == FragmentIdentificationRequired
                 else SplitDatagram(payload, body, SplitPlan(config)).Err?
                      && e == SplitFailed(SplitDatagram(payload, body, SplitPlan(config)).error)
  {
    hide Finish, AssembleAll, AssembleChecked, SplitDatagram, Splittable, AllOptions;
    BuildSucceedsIff(a, payload, options, config, crc);
    if ValidateSendConfig(config).None? && ValidateSendOptions(options).None? && OptionsBody(payload, options, crc).Ok? {
      var body := OptionsBody(payload, options, crc).value;
      LenIsTail(payload, body);
      if config.identification.Some? && config.maxDatagramLen >= 28 {
        SplitSucceedsIff(payload, body, SplitPlan(config));
      }
    }
  }


  /** One datagram is assembled exactly when it fits both limits. */
  lemma AssembleComplaints(a: Addrs, payload: seq<u8>, body: seq<u8>, max: nat)
    requires body == [] || |body| >= 2
    ensures var r, whole := AssembleChecked(a, payload, body, max), 28 + |Tail(payload, body)|;
            if whole > max then r == Err(DatagramTooLarge(whole, max))
            else if whole > 65535 then r == Err(DatagramTooLarge(whole, 65535))
            else r.Ok? && |r.value| == whole
  {
    hide Datagram;
    LenIsTail(payload, body);
  }

  /** A peer's generator moves exactly when an Identification is needed, and a peer that has
      none left says so. */
  lemma PeerComplaints(a: Addrs, payload: seq<u8>, options: SendOptions, config: SendConfig, next: Option<u32>, crc: Crc)
    ensures var first, (r, after) := BuildOutgoing(a, payload, options, config, crc),
                                     BuildPeerOutgoing(a, payload, options, config, next, crc);
            if first != Err(FragmentIdentificationRequired) then r == first && after == next
            else if next.None? then r == Err(SplitFailed(IdentificationExhausted)) && after == None
            else && r == BuildOutgoing(a, payload, options, config.(identification := next), crc)
                 && after == (if next.value < 0xFFFF_FFFF then Some(next.value + 1) else None)
  {
    hide BuildOutgoing;
  }
}
