/** The receive policy on any datagram, honest or not. */
module PolicyFacts {
  import opened Bytes
  import opened OptionKinds
  import opened WireHeaders
  import opened OptionScan
  import opened Reassembly
  import opened Pipeline
  import opened PipelineFacts
  import opened Api
  import opened ReceiveFacts

  /** A required Kind succeeded and did not fail on any fragment. */
  predicate Fulfilled(kind: OptionKind, reports: seq<OptionReport>) {
    && (exists r :: r in reports && r.kind == kind && r.status == Success)
    && OptionReport(kind, Failed, FromFragmentSet) !in reports
  }

  /** Some OCS was good, or not in use at all, and none was bad or went unobserved. */
  predicate OcsIsGood(reports: seq<OcsReport>) {
    && (exists r :: r in reports && Trusts(r.status))
    && (forall r :: r in reports ==> Trusts(r.status) || r.status == OcsAbsent)
  }

  lemma FulfilledIsSatisfied(kind: OptionKind, reports: seq<OptionReport>)
    ensures Satisfied(kind, reports) <==> Fulfilled(kind, reports)
  {
    if Fulfilled(kind, reports) {
      var r :| r in reports && r.kind == kind && r.status == Success;
      var i :| 0 <= i < |reports| && reports[i] == r;
    }
  }

  lemma RequiredIsFulfilled(policy: ReceivePolicy, reports: seq<OptionReport>)
    ensures !MissingRequired(policy, reports) <==> forall kind :: kind in policy.required ==> Fulfilled(kind, reports)
  {
    hide Satisfied, Fulfilled;
    forall kind ensures Satisfied(kind, reports) <==> Fulfilled(kind, reports) {
      FulfilledIsSatisfied(kind, reports);
    }
  }

  lemma GoodOcsIsSatisfied(reports: seq<OcsReport>)
    ensures OcsSatisfied(reports) <==> OcsIsGood(reports)
  {
    if OcsIsGood(reports) {
      var r :| r in reports && Trusts(r.status);
      var i :| 0 <= i < |reports| && reports[i] == r;
    }
  }

  lemma BearingIsLocated(d: seq<u8>)
    ensures WireOptionBearing(d)
         == if ReadHeaders(d).Ok? then Ok(HasSurplus(ReadHeaders(d).value)) else Err(ReadHeaders(d).error)
  {
    hide ReadHeaders, LocateSurplus, HasSurplus;
    if ReadHeaders(d).Ok? {
      SurplusIsLocated(ReadHeaders(d).value);
    }
  }

  /** Without a surplus area the data are delivered as a plain UDP datagram. */
  lemma NoSurplusIsPlain(d: seq<u8>, m: CacheState, limits: Limits, now: nat, crc: Crc)
    requires ReadHeaders(d).Ok? && !HasSurplus(ReadHeaders(d).value)
    ensures ProcessDatagram(d, m, limits, now, crc)
         == (Ok(Payload(ReadHeaders(d).value.UserData(), [], false, [], [OcsReport(OcsAbsent, FromDatagram)])), m)
  {
    hide ReadHeaders, ProcessDatagram;
    UntrustedOptionsAreIgnored(d, m, limits, now, crc);
  }

  /** Exactly when a payload reaches the application. It is filtered in every other case. */
  lemma ReceivedIff(d: seq<u8>, m: CacheState, limits: Limits, now: nat, policy: ReceivePolicy, crc: Crc)
    requires ReadHeaders(d).Ok? && ProcessDatagram(d, m, limits, now, crc).0.Ok?
    requires ProcessDatagram(d, m, limits, now, crc).0.value.Payload?
    ensures var p, x := ProcessDatagram(d, m, limits, now, crc).0.value, DecodeDatagram(d, m, limits, now, policy, crc).0;
            var passes := && (policy.dropAll ==> !HasSurplus(ReadHeaders(d).value))
                          && (forall kind :: kind in policy.required ==> Fulfilled(kind, p.reports))
                          && (policy.ocsRequired ==> OcsIsGood(p.ocsReports));
            x == Ok(if passes then Received(p.data, p.options, p.reports, p.ocsReports) else Filtered)
  {
    hide ReadHeaders, ProcessDatagram, WireOptionBearing, HasSurplus, MissingRequired, OcsSatisfied, Fulfilled, OcsIsGood;
    BearingIsLocated(d);
    var p := ProcessDatagram(d, m, limits, now, crc).0.value;
    RequiredIsFulfilled(policy, p.reports);
    GoodOcsIsSatisfied(p.ocsReports);
    if !HasSurplus(ReadHeaders(d).value) {
      NoSurplusIsPlain(d, m, limits, now, crc);
    }
  }

  /** With "require OCS", a datagram without a surplus area, or whose options cannot be
      trusted, never reaches the application. */
  lemma OcsRequiredFilters(d: seq<u8>, m: CacheState, limits: Limits, now: nat, policy: ReceivePolicy, crc: Crc)
    requires policy.ocsRequired && ReadHeaders(d).Ok? && !Trusts(TrustOf(ReadHeaders(d).value))
    ensures DecodeDatagram(d, m, limits, now, policy, crc) == (Ok(Filtered), m)
  {
    hide ReadHeaders, ProcessDatagram, DecodeDatagram, TrustOf, WireOptionBearing;
    UntrustedOptionsAreIgnored(d, m, limits, now, crc);
    ReceivedIff(d, m, limits, now, policy, crc);
    var p := ProcessDatagram(d, m, limits, now, crc).0.value;
    assert p.ocsReports == [OcsReport(TrustOf(ReadHeaders(d).value), FromDatagram)];
    CacheAfterDecoding(d, m, limits, now, policy, crc);
  }

  /** Filtering aside, the cache is left to the pipeline. */
  lemma CacheAfterDecoding(d: seq<u8>, m: CacheState, limits: Limits, now: nat, policy: ReceivePolicy, crc: Crc)
    ensures var n := DecodeDatagram(d, m, limits, now, policy, crc).1;
            n == m || n == ProcessDatagram(d, m, limits, now, crc).1
  {
    hide ProcessDatagram, WireOptionBearing, ApplyPolicy;
  }

  /** Whatever reaches the application met the whole policy. */
  lemma ReceivedMeetsPolicy(d: seq<u8>, m: CacheState, limits: Limits, now: nat, policy: ReceivePolicy, crc: Crc)
    requires DecodeDatagram(d, m, limits, now, policy, crc).0.Ok?
    requires DecodeDatagram(d, m, limits, now, policy, crc).0.value.Received?
    ensures var x := DecodeDatagram(d, m, limits, now, policy, crc).0.value;
            && ReadHeaders(d).Ok?
            && (policy.dropAll ==> !HasSurplus(ReadHeaders(d).value))
            && (forall kind :: kind in policy.required ==> Fulfilled(kind, x.reports))
            && (policy.ocsRequired ==> OcsIsGood(x.ocsReports) && Trusts(TrustOf(ReadHeaders(d).value)))
  {
    hide ReadHeaders, ProcessDatagram, WireOptionBearing, HasSurplus, MissingRequired, OcsSatisfied, Fulfilled, OcsIsGood, TrustOf;
    OnlyHeadersFail(d, m, limits, now, crc);
    if policy.dropAll {
      BearingIsLocated(d);
    }
    ReceivedIff(d, m, limits, now, policy, crc);
    if policy.ocsRequired && !Trusts(TrustOf(ReadHeaders(d).value)) {
      OcsRequiredFilters(d, m, limits, now, policy, crc);
    }
  }

  /** Bad headers are an error under every policy; buffering and dropping pass through any
      policy that lets the datagram in. */
  lemma OtherAnswersPassThrough(d: seq<u8>, m: CacheState, limits: Limits, now: nat, policy: ReceivePolicy, crc: Crc)
    ensures var r, x := ProcessDatagram(d, m, limits, now, crc).0, DecodeDatagram(d, m, limits, now, policy, crc).0;
            && (ReadHeaders(d).Err? ==> x == Err(ReadHeaders(d).error))
            && (ReadHeaders(d).Ok? && policy.dropAll && HasSurplus(ReadHeaders(d).value) ==> x == Ok(Filtered))
            && (!policy.dropAll && r == Ok(Buffered) ==> x == Ok(ApiBuffered))
            && (!policy.dropAll && r == Ok(Dropped) ==> x == Ok(ApiDropped))
  {
    hide ReadHeaders, ProcessDatagram, WireOptionBearing, HasSurplus;
    BearingIsLocated(d);
    OnlyHeadersFail(d, m, limits, now, crc);
  }
}
