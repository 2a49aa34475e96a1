/** Split meets reassembly: a partial fed with fragments of one datagram holds only
    slices of its tail, and completes exactly when the last one is in. */
module FragmentDelivery {
  import opened Bytes
  import opened OptionKinds
  import opened FragSplit
  import opened Reassembly
  import opened ReassemblyInvariant
  import opened ReassemblyRuns
  import opened Coalescing

  /** One datagram on its way in fragments: the tail, its ranges, its UDP Length, and what
      each fragment carries besides data. */
  datatype Sent = Sent(tail: seq<u8>, ranges: seq<Range>, udpLength: u16, procs: seq<Processing>)

  predicate WellSent(s: Sent) {
    && Tiles(s.ranges, 0, |s.tail|)
    && 8 + |s.tail| <= 0xFFFF
    && 8 <= s.udpLength <= 8 + |s.tail|
    && |s.procs| == |s.ranges|
  }

  /** The place of fragment `i` in the datagram. */
  function Place(s: Sent, i: nat): Normalized
    requires i < |s.ranges|
  {
    var r := s.ranges[i];
    Normalized(r.start, r.end, if r.terminal then Some(s.udpLength) else None)
  }

  function Data(s: Sent, i: nat): seq<u8>
    requires WellSent(s) && i < |s.ranges|
  {
    s.tail[s.ranges[i].start..s.ranges[i].end]
  }

  /** The FRAG option of fragment `i`. */
  function FragHeader(s: Sent, i: nat, id: u32): FragOption
    requires WellSent(s) && i < |s.ranges|
  {
    FragOf(Offset(s.ranges[i], |s.ranges| == 1), id, Rdos(s.ranges[i], s.udpLength))
  }

  lemma FragmentPlace(s: Sent, i: nat, id: u32)
    requires WellSent(s) && i < |s.ranges|
    ensures Normalize(FragHeader(s, i, id), |Data(s, i)|) == Some(Place(s, i))
  {
    var r := s.ranges[i];
    assert r.start <= r.end <= |s.tail|;
    assert r.terminal <==> i == |s.ranges| - 1;
  }

  // ---- safety: nothing but the sent bytes ----

  /** A partial that holds only slices of the sent tail. */
  predicate Holding(p: PartialState, s: Sent) {
    && (forall i :: 0 <= i < |p.segments| ==>
          p.segments[i].start <= p.segments[i].end <= |s.tail|
          && p.segments[i].data == s.tail[p.segments[i].start..p.segments[i].end])
    && (p.terminalEnd.Some? ==> p.terminalEnd.value == |s.tail|)
    && (p.udpLength.Some? ==> p.udpLength.value == s.udpLength)
  }

  lemma {:induction false} JoinedSlices(segs: seq<Segment>, tail: seq<u8>, lo: nat, hi: nat)
    requires forall i :: 0 <= i < |segs| ==>
               segs[i].start <= segs[i].end <= |tail| && segs[i].data == tail[segs[i].start..segs[i].end]
    requires Walk(segs, lo) == Reached(hi) && lo <= |tail|
    ensures lo <= hi <= |tail| && Concat(segs) == tail[lo..hi]
  {
    if segs != [] {
      assert segs[0].data == tail[lo..segs[0].end];
      JoinedSlices(segs[1..], tail, segs[0].end, hi);
      assert tail[lo..hi] == tail[lo..segs[0].end] + tail[segs[0].end..hi];
    }
  }

  lemma StoreHolding(p: PartialState, f: Normalized, data: seq<u8>, proc: Processing, s: Sent)
    requires Holding(p, s) && f.start <= f.end <= |s.tail| && data == s.tail[f.start..f.end]
    ensures Holding(Store(p, f, data, proc), s)
  {
    hide Observe, ObserveFailures, ObserveOcs, InsertSegment;
    if data != [] {
      var g := Segment(f.start, f.end, data, proc.options, proc.failures);
      InsertSegmentContents(p.segments, g);
      var r := InsertSegment(p.segments, g);
      forall i | 0 <= i < |r|
        ensures r[i].start <= r[i].end <= |s.tail| && r[i].data == s.tail[r[i].start..r[i].end]
      {
        assert r[i] in r;
      }
    }
  }

  /** Any insertion of one of its fragments, whatever options or OCS it came with,
      keeps only sent bytes; and a completion is exactly the sent datagram. */
  lemma InsertIsFaithful(p: PartialState, s: Sent, i: nat, proc: Processing, limits: Limits)
    requires WellSent(s) && i < |s.ranges| && Holding(p, s)
    ensures var r := InsertPartial(p, Place(s, i), Data(s, i), proc, limits);
            && (r.Keep? ==> Holding(r.next, s))
            && (r.Done? ==> r.completion.tail == s.tail && r.completion.udpLength == s.udpLength)
  {
    hide IsExactDuplicate, Store, ObserveOcs, Overlaps, Walk, Concat, ToRawOptions, AnyBeyond;
    var f, data := Place(s, i), Data(s, i);
    assert f.start <= f.end <= |s.tail|;
    assert s.ranges[i].terminal ==> f.end == |s.tail|;
    var q := NoteTerminal(p, f, data, proc);
    if q.Some? {
      assert Holding(q.value, s);
      StoreHolding(q.value, f, data, proc, s);
      var t := Store(q.value, f, data, proc);
      if Finished(t).Done? {
        JoinedSlices(t.segments, s.tail, 0, t.terminalEnd.value);
        assert s.tail[0..|s.tail|] == s.tail;
      }
    }
  }

  // ---- liveness: complete exactly with the last missing fragment ----

  function SegmentOf(s: Sent, i: nat): Segment
    requires WellSent(s) && i < |s.ranges|
  {
    Segment(s.ranges[i].start, s.ranges[i].end, Data(s, i), s.procs[i].options, s.procs[i].failures)
  }

  /** The bytes of the ranges in `got` among the first `n`. */
  function LenSum(rs: seq<Range>, got: set<nat>, n: nat): nat
    requires n <= |rs| && forall i :: 0 <= i < |rs| ==> rs[i].start <= rs[i].end
  {
    if n == 0 then 0
    else LenSum(rs, got, n - 1) + (if n - 1 in got then rs[n - 1].end - rs[n - 1].start else 0)
  }

  lemma {:induction false} LenSumAdd(rs: seq<Range>, got: set<nat>, i: nat, n: nat)
    requires n <= |rs| && (forall j :: 0 <= j < |rs| ==> rs[j].start <= rs[j].end)
    requires i !in got && i < |rs|
    ensures LenSum(rs, got + {i}, n) == LenSum(rs, got, n) + (if i < n then rs[i].end - rs[i].start else 0)
  {
    if n > 0 {
      LenSumAdd(rs, got, i, n - 1);
    }
  }

  lemma {:induction false} LenSumAll(s: Sent, got: set<nat>, n: nat)
    requires WellSent(s) && 0 < n <= |s.ranges| && forall i :: 0 <= i < n ==> i in got
    ensures LenSum(s.ranges, got, n) == s.ranges[n - 1].end
  {
    if n > 1 {
      LenSumAll(s, got, n - 1);
      var a, b := n - 2, n - 1;
      assert s.ranges[a].end == s.ranges[b].start;
    }
  }

  lemma {:induction false} LenSumMonotone(rs: seq<Range>, a: set<nat>, b: set<nat>, n: nat)
    requires n <= |rs| && (forall j :: 0 <= j < |rs| ==> rs[j].start <= rs[j].end)
    requires a <= b
    ensures LenSum(rs, a, n) <= LenSum(rs, b, n)
  {
    if n > 0 {
      LenSumMonotone(rs, a, b, n - 1);
    }
  }

  function All(n: nat): (r: set<nat>)
    ensures forall i :: i in r <==> 0 <= i < n
    ensures |r| == n
  {
    if n == 0 then {} else All(n - 1) + {n - 1}
  }

  /** The bytes that are in add up to the whole tail exactly when nothing with bytes
      is missing. */
  lemma LenSumComplete(s: Sent, got: set<nat>)
    requires WellSent(s) && got <= All(|s.ranges|)
    ensures LenSum(s.ranges, got, |s.ranges|) <= |s.tail|
    ensures got == All(|s.ranges|) ==> LenSum(s.ranges, got, |s.ranges|) == |s.tail|
    ensures got != All(|s.ranges|) && |s.ranges| - 1 in got ==> LenSum(s.ranges, got, |s.ranges|) < |s.tail|
  {
    var n := |s.ranges|;
    LenSumAll(s, All(n), n);
    LenSumMonotone(s.ranges, got, All(n), n);
    if got != All(n) && n - 1 in got {
      var i :| i in All(n) && i !in got;
      LenSumAdd(s.ranges, got, i, n);
      LenSumMonotone(s.ranges, got + {i}, All(n), n);
      assert s.ranges[i].start < s.ranges[i].end;
    }
  }

  /** The segments are those of the fragments in `got` that carry data. */
  predicate SegmentsAre(segs: seq<Segment>, s: Sent, got: set<nat>)
    requires WellSent(s)
  {
    && (forall g :: g in segs ==> exists i :: i in got && i < |s.ranges| && g == SegmentOf(s, i))
    && (forall i :: i in got && i < |s.ranges| && Data(s, i) != [] ==> SegmentOf(s, i) in segs)
  }

  /** The accumulators hold the minima, the failures and the OCS use of the fragments in
      `got`, however they came in. */
  ghost predicate Minimum(known: Option<nat>, s: Sent, got: set<nat>, field: Field) {
    && (known.None? <==> forall i, v: nat :: i in got && i < |s.procs| ==> !Announces(s.procs[i].options, field, v))
    && (known.Some? ==>
          && (exists i :: i in got && i < |s.procs| && Announces(s.procs[i].options, field, known.value))
          && forall i, v: nat :: i in got && i < |s.procs| && Announces(s.procs[i].options, field, v) ==> known.value <= v)
  }

  /** A token is known exactly when some fragment in `got` carried one, and it is one of
      those carried. */
  ghost predicate OneCarried(known: Option<seq<u8>>, s: Sent, got: set<nat>, t: Token) {
    && (known.None? <==> forall i, v :: i in got && i < |s.procs| ==> !Carries(s.procs[i].options, t, v))
    && (known.Some? ==> exists i :: i in got && i < |s.procs| && Carries(s.procs[i].options, t, known.value))
  }

  ghost predicate Coalesced(fo: FragmentOptions, s: Sent, got: set<nat>) {
    && (forall field :: Minimum(KnownLimit(fo, field), s, got, field))
    && (forall t :: OneCarried(KnownToken(fo, t), s, got, t))
  }

  ghost predicate FailedOn(kinds: seq<OptionKind>, s: Sent, got: set<nat>) {
    forall k :: k in kinds <==> exists i :: i in got && i < |s.procs| && k in s.procs[i].failures
  }

  predicate OcsOver(ocs: Option<bool>, s: Sent, got: set<nat>) {
    && (ocs.None? <==> exists i :: i in got && i < |s.procs| && s.procs[i].ocsNonzero == None)
    && (ocs.Some? ==> (ocs.value <==> exists i :: i in got && i < |s.procs| && s.procs[i].ocsNonzero == Some(true)))
  }

  ghost predicate Accumulates(p: PartialState, s: Sent, got: set<nat>) {
    && Coalesced(p.fragmentOptions, s, got)
    && FailedOn(p.optionFailures, s, got)
    && OcsOver(p.ocsNonzero, s, got)
  }

  lemma MinimumAdd(known: Option<nat>, next: Option<nat>, s: Sent, got: set<nat>, i: nat, field: Field)
    requires i < |s.procs| && Minimum(known, s, got, field)
    requires LeastOf(next, known, s.procs[i].options, field)
    ensures Minimum(next, s, got + {i}, field)
  {
    hide Announces;
  }

  lemma CoalescedAdd(fo: FragmentOptions, s: Sent, got: set<nat>, i: nat)
    requires i < |s.procs| && Coalesced(fo, s, got)
    ensures Coalesced(Observe(fo, s.procs[i].options), s, got + {i})
  {
    hide Minimum, LeastOf, KnownLimit, OneCarried, KnownToken;
    forall field ensures Minimum(KnownLimit(Observe(fo, s.procs[i].options), field), s, got + {i}, field) {
      ObserveIsLeast(fo, s.procs[i].options, field);
      MinimumAdd(KnownLimit(fo, field), KnownLimit(Observe(fo, s.procs[i].options), field), s, got, i, field);
    }
    forall t ensures OneCarried(KnownToken(Observe(fo, s.procs[i].options), t), s, got + {i}, t) {
      ObserveTakesLast(fo, s.procs[i].options, t);
      CarriedAdd(KnownToken(fo, t), s, got, i, t);
    }
  }

  lemma CarriedAdd(known: Option<seq<u8>>, s: Sent, got: set<nat>, i: nat, t: Token)
    requires i < |s.procs| && OneCarried(known, s, got, t)
    ensures OneCarried(LastToken(s.procs[i].options, t, known), s, got + {i}, t)
  {
    hide Carries, LastToken;
    LastTokenIsCarried(s.procs[i].options, t, known);
  }

  lemma FailuresAdd(kinds: seq<OptionKind>, s: Sent, got: set<nat>, i: nat)
    requires i < |s.procs| && FailedOn(kinds, s, got)
    ensures FailedOn(ObserveFailures(kinds, s.procs[i].failures), s, got + {i})
  {
    hide ObserveFailures;
    ObservedFailures(kinds, s.procs[i].failures);
  }

  lemma OcsAdd(ocs: Option<bool>, s: Sent, got: set<nat>, i: nat)
    requires i < |s.procs| && OcsOver(ocs, s, got)
    ensures OcsOver(ObserveOcs(ocs, s.procs[i].ocsNonzero), s, got + {i})
  {
    assert forall j :: j in got ==> j in got + {i};
    assert i in got + {i};
  }

  /** The fields of the partial after the fragments in `got`, and nothing else. */
  ghost predicate Recorded(p: PartialState, s: Sent, got: set<nat>)
    requires WellSent(s)
  {
    var last := |s.ranges| - 1;
    && got <= All(|s.ranges|)
    && SegmentsAre(p.segments, s, got)
    && p.terminalEnd == (if last in got then Some(|s.tail|) else None)
    && p.udpLength == (if last in got then Some(s.udpLength) else None)
    && (last in got && Data(s, last) == [] ==>
          p.emptyTerminalOptions == Some(s.procs[last].options) && p.emptyTerminalFailures == Some(s.procs[last].failures))
    && p.fragmentCount == |got| && p.byteTotal == LenSum(s.ranges, got, |s.ranges|)
    && Accumulates(p, s, got)
  }

  ghost predicate Got(p: PartialState, s: Sent, got: set<nat>, limits: Limits)
    requires WellSent(s)
  {
    PartialInv(p, limits) && Recorded(p, s, got)
  }

  lemma NothingGot(now: nat, s: Sent, limits: Limits)
    requires WellSent(s) && 8 <= limits.maxSize
    ensures Got(Fresh(now), s, {}, limits)
  {
    FreshIsConsistent(now, limits);
    NoLen(s.ranges, |s.ranges|);
    forall field ensures Minimum(KnownLimit(NO_OPTIONS, field), s, {}, field) {
    }
    forall t ensures OneCarried(KnownToken(NO_OPTIONS, t), s, {}, t) {
    }
  }

  lemma {:induction false} NoLen(rs: seq<Range>, n: nat)
    requires n <= |rs| && forall i :: 0 <= i < |rs| ==> rs[i].start <= rs[i].end
    ensures LenSum(rs, {}, n) == 0
  {
    if n > 0 { NoLen(rs, n - 1); }
  }

  lemma DuplicateIsSeen(p: PartialState, s: Sent, got: set<nat>, i: nat)
    requires WellSent(s) && i in got && Recorded(p, s, got)
    ensures i < |s.ranges| && IsExactDuplicate(p, Place(s, i), Data(s, i), s.procs[i])
  {
    hide LenSum, Accumulates;
    assert i < |s.ranges|;
    assert s.ranges[i].terminal <==> i == |s.ranges| - 1;
    if Data(s, i) != [] {
      var g := SegmentOf(s, i);
      assert g in p.segments;
      var j :| 0 <= j < |p.segments| && p.segments[j] == g;
      assert SameSegment(p.segments[j], Place(s, i), Data(s, i), s.procs[i]);
    }
  }

  /** Two fragments of one datagram lie apart. */
  lemma NewLiesApart(s: Sent, i: nat, j: nat)
    requires WellSent(s) && i < |s.ranges| && j < |s.ranges| && i != j
    ensures s.ranges[i].end <= s.ranges[j].start || s.ranges[j].end <= s.ranges[i].start
    ensures s.ranges[i].start != s.ranges[j].start
  {
    if i < j {
      TilesOrdered(s.ranges, 0, |s.tail|, i, j);
    } else {
      TilesOrdered(s.ranges, 0, |s.tail|, j, i);
    }
  }

  lemma NewIsAdmissible(p: PartialState, s: Sent, got: set<nat>, i: nat)
    requires WellSent(s) && i < |s.ranges| && i !in got && Recorded(p, s, got)
    ensures !IsExactDuplicate(p, Place(s, i), Data(s, i), s.procs[i])
    ensures !Overlaps(p.segments, s.ranges[i].start, s.ranges[i].end)
    ensures !AnyBeyond(p.segments, |s.tail|)
  {
    hide LenSum, Accumulates;
    forall k | 0 <= k < |p.segments|
      ensures p.segments[k].end <= s.ranges[i].start || s.ranges[i].end <= p.segments[k].start
      ensures p.segments[k].start != s.ranges[i].start && p.segments[k].end <= |s.tail|
    {
      assert p.segments[k] in p.segments;
      var j :| j in got && j < |s.ranges| && p.segments[k] == SegmentOf(s, j);
      NewLiesApart(s, i, j);
    }
  }

  /** The metadata a new fragment adds: nothing unless it is the last one. */
  lemma NoteNew(p: PartialState, s: Sent, got: set<nat>, i: nat)
    requires WellSent(s) && i < |s.ranges| && i !in got && Recorded(p, s, got)
    ensures var q := NoteTerminal(p, Place(s, i), Data(s, i), s.procs[i]);
            && q.Some?
            && q.value == if i < |s.ranges| - 1 then p
                          else if Data(s, i) != [] then p.(terminalEnd := Some(|s.tail|), udpLength := Some(s.udpLength))
                          else p.(terminalEnd := Some(|s.tail|), udpLength := Some(s.udpLength),
                                  emptyTerminalOptions := Some(s.procs[i].options),
                                  emptyTerminalFailures := Some(s.procs[i].failures))
  {
    hide LenSum, IsExactDuplicate, Overlaps, SegmentsAre, AnyBeyond, Accumulates;
    NewIsAdmissible(p, s, got, i);
    assert s.ranges[i].terminal <==> i == |s.ranges| - 1;
  }

  lemma StoreRecords(p: PartialState, s: Sent, got: set<nat>, i: nat)
    requires WellSent(s) && i < |s.ranges| && i !in got && Recorded(p, s, got)
    ensures var q := NoteTerminal(p, Place(s, i), Data(s, i), s.procs[i]);
            && q.Some? && Recorded(Store(q.value, Place(s, i), Data(s, i), s.procs[i]), s, got + {i})
  {
    hide InsertSegment, LenSum, NoteTerminal, SegmentsAre, WellSent, Coalesced, FailedOn, OcsOver, Observe, ObserveFailures,
         ObserveOcs;
    NoteNew(p, s, got, i);
    RangesOrdered(s);
    LenSumAdd(s.ranges, got, i, |s.ranges|);
    StoreSegmentsAre(p.segments, s, got, i);
    CoalescedAdd(p.fragmentOptions, s, got, i);
    FailuresAdd(p.optionFailures, s, got, i);
    OcsAdd(p.ocsNonzero, s, got, i);
  }

  lemma RangesOrdered(s: Sent)
    requires WellSent(s)
    ensures |s.ranges| == |s.procs| > 0
    ensures forall j :: 0 <= j < |s.ranges| ==> s.ranges[j].start <= s.ranges[j].end <= |s.tail|
  {
  }

  lemma StoreSegmentsAre(segs: seq<Segment>, s: Sent, got: set<nat>, i: nat)
    requires WellSent(s) && i < |s.ranges| && SegmentsAre(segs, s, got)
    ensures SegmentsAre(if Data(s, i) == [] then segs else InsertSegment(segs, SegmentOf(s, i)), s, got + {i})
  {
    hide InsertSegment;
    InsertSegmentContents(segs, SegmentOf(s, i));
  }

  lemma JoinedWhole(p: PartialState, s: Sent, got: set<nat>)
    requires WellSent(s) && Recorded(p, s, got) && Finished(p).Done?
    ensures Finished(p).completion.tail == s.tail
  {
    hide LenSum, Accumulates;
    forall k | 0 <= k < |p.segments|
      ensures p.segments[k].start <= p.segments[k].end <= |s.tail|
      ensures p.segments[k].data == s.tail[p.segments[k].start..p.segments[k].end]
    {
      assert p.segments[k] in p.segments;
    }
    JoinedSlices(p.segments, s.tail, 0, p.terminalEnd.value);
    assert s.tail[0..|s.tail|] == s.tail;
  }

  predicate RoomFor(s: Sent, limits: Limits) {
    8 + |s.tail| <= limits.maxSize && |s.ranges| <= limits.maxSegments
  }

  /** A completion of exactly this datagram: its tail and UDP Length, the minima of the
      size limits its fragments announced, a REQ and a RES token that one of them carried
      if any did, and every Kind that failed on any of them. */
  ghost predicate Delivers(c: Completion, s: Sent) {
    && c.tail == s.tail && c.udpLength == s.udpLength
    && (exists fo :: Coalesced(fo, s, All(|s.ranges|)) && c.options == ToRawOptions(fo))
    && FailedOn(c.failures, s, All(|s.ranges|))
    && OcsOver(c.ocsNonzero, s, All(|s.ranges|))
  }

  /** One arriving fragment of the datagram: a duplicate or a non-final one is kept
      waiting, the last missing one completes with exactly the datagram. */
  lemma NextFragment(p: PartialState, s: Sent, got: set<nat>, i: nat, limits: Limits)
    requires WellSent(s) && RoomFor(s, limits) && i < |s.ranges|
    requires Got(p, s, got, limits)
    ensures var r := InsertPartial(p, Place(s, i), Data(s, i), s.procs[i], limits);
            if got + {i} == All(|s.ranges|) then r.Done? && Delivers(r.completion, s)
            else r.Keep? && Got(r.next, s, got + {i}, limits) && r.next.receivedAt == p.receivedAt
  {
    hide Recorded, NoteTerminal, Store, IsExactDuplicate, Overlaps, LenSum, Finished, Consistent, Delivers;
    assert Admitted(Place(s, i), Data(s, i), limits) by {
      assert s.ranges[i].start <= s.ranges[i].end <= |s.tail|;
    }
    InsertKeepsInvariant(p, Place(s, i), Data(s, i), s.procs[i], limits);
    NotAllYet(p, s, got, limits);
    if i in got {
      DuplicateIsSeen(p, s, got, i);
      assert got + {i} == got;
      DuplicateKeeps(p, s, got, i);
    } else {
      AcceptNew(p, s, got, i, limits);
    }
  }

  lemma DuplicateKeeps(p: PartialState, s: Sent, got: set<nat>, i: nat)
    requires WellSent(s) && Recorded(p, s, got) && i in got && i < |s.ranges|
    ensures Recorded(p.(ocsNonzero := ObserveOcs(p.ocsNonzero, s.procs[i].ocsNonzero)), s, got)
  {
    hide LenSum, Coalesced, FailedOn;
    OcsAdd(p.ocsNonzero, s, got, i);
    assert got + {i} == got;
  }

  /** A retained partial misses something. */
  lemma NotAllYet(p: PartialState, s: Sent, got: set<nat>, limits: Limits)
    requires WellSent(s) && Got(p, s, got, limits)
    ensures got != All(|s.ranges|)
  {
    hide LenSum, Finished, SegmentsAre, Accumulates;
    CompletionNeverClashes(p, limits);
    LenSumComplete(s, got);
  }

  lemma AcceptNew(p: PartialState, s: Sent, got: set<nat>, i: nat, limits: Limits)
    requires WellSent(s) && RoomFor(s, limits) && i < |s.ranges| && i !in got
    requires Got(p, s, got, limits)
    ensures var q := NoteTerminal(p, Place(s, i), Data(s, i), s.procs[i]);
            && q.Some?
            && var t := Store(q.value, Place(s, i), Data(s, i), s.procs[i]);
               && InsertPartial(p, Place(s, i), Data(s, i), s.procs[i], limits) == Finished(t)
               && Recorded(t, s, got + {i})
               && (if got + {i} == All(|s.ranges|) then Finished(t).Done? && Delivers(Finished(t).completion, s)
                   else Finished(t) == Keep(t))
               && t.receivedAt == p.receivedAt
  {
    hide NoteTerminal, Store, IsExactDuplicate, Overlaps, LenSum, Finished, SegmentsAre, SegmentsOk, Within, Coalesced,
         FailedOn, OcsOver;
    var f, data, n := Place(s, i), Data(s, i), |s.ranges|;
    NewIsAdmissible(p, s, got, i);
    StoreRecords(p, s, got, i);
    CountBelow(got, i, n);
    assert f.start <= f.end <= |s.tail| by { assert s.ranges[i].start <= s.ranges[i].end <= |s.tail|; }
    PackingArgument(p.segments, f.start, f.end, limits.maxSize - 8);
    NoteTerminalKeeps(p, f, data, s.procs[i], limits);
    var q := NoteTerminal(p, f, data, s.procs[i]).value;
    StoreKeeps(q, f, data, s.procs[i], limits);
    StoreKeepsArrival(q, f, data, s.procs[i]);
    var t := Store(q, f, data, s.procs[i]);
    CompletionNeverClashes(t, limits);
    LenSumComplete(s, got + {i});
    if Finished(t).Done? {
      JoinedWhole(t, s, got + {i});
      CompletionFields(t);
    }
  }

  lemma CompletionFields(t: PartialState)
    requires Finished(t).Done? && t.udpLength.Some?
    ensures var c := Finished(t).completion;
            && c.udpLength == t.udpLength.value && c.options == ToRawOptions(t.fragmentOptions)
            && c.failures == t.optionFailures && c.ocsNonzero == t.ocsNonzero
  {
  }

  lemma CountBelow(got: set<nat>, i: nat, n: nat)
    requires got <= All(n) && i < n && i !in got
    ensures |got| + 1 <= n && |got + {i}| == |got| + 1
  {
    SubsetIsSmaller(got + {i}, All(n));
  }

  /** Whatever the order of arrival, the announced limits come out the same. */
  lemma MinimumIsUnique(a: FragmentOptions, b: FragmentOptions, s: Sent, got: set<nat>)
    requires Coalesced(a, s, got) && Coalesced(b, s, got)
    ensures a.mds == b.mds && a.mrdsSize == b.mrdsSize && a.mrdsSegments == b.mrdsSegments
  {
    OneMinimum(KnownLimit(a, MdsSize), KnownLimit(b, MdsSize), s, got, MdsSize);
    OneMinimum(KnownLimit(a, MrdsSize), KnownLimit(b, MrdsSize), s, got, MrdsSize);
    OneMinimum(KnownLimit(a, MrdsSegments), KnownLimit(b, MrdsSegments), s, got, MrdsSegments);
  }

  lemma OneMinimum(x: Option<nat>, y: Option<nat>, s: Sent, got: set<nat>, field: Field)
    requires Minimum(x, s, got, field) && Minimum(y, s, got, field)
    ensures x == y
  {
    hide Announces;
  }
}
