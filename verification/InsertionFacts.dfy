/** What every fragment gets from every sound partial, told by byte positions: repeats,
    refusals and acceptance. */
module InsertionFacts {
  import opened Bytes
  import opened OptionKinds
  import opened Reassembly
  import opened ReassemblyInvariant

  predicate Covers(s: Segment, j: nat) {
    s.start <= j < s.end
  }

  /** A stored segment and the fragment have a byte position in common. */
  predicate Shares(segs: seq<Segment>, f: Normalized) {
    exists i, j: nat :: 0 <= i < |segs| && f.start <= j < f.end && Covers(segs[i], j)
  }

  predicate Covered(segs: seq<Segment>, j: nat) {
    exists i :: 0 <= i < |segs| && Covers(segs[i], j)
  }

  function AsSegment(f: Normalized, data: seq<u8>, proc: Processing): Segment {
    Segment(f.start, f.end, data, proc.options, proc.failures)
  }

  /** The fragment came before, with the same bytes, options and failures. */
  predicate Repeats(p: PartialState, f: Normalized, data: seq<u8>, proc: Processing) {
    && (f.udpLength.Some? ==> p.udpLength == f.udpLength && p.terminalEnd == Some(f.end))
    && (if f.udpLength.Some? && data == []
        then p.emptyTerminalOptions == Some(proc.options) && p.emptyTerminalFailures == Some(proc.failures)
        else AsSegment(f, data, proc) in p.segments)
  }

  /** The fragment says something about the end of the datagram that cannot be, or that
      contradicts what is stored. */
  predicate EndClashes(p: PartialState, f: Normalized, data: seq<u8>, proc: Processing) {
    || (p.terminalEnd.Some? && f.end > p.terminalEnd.value)
    || (f.udpLength.Some? && (f.udpLength.value < 8 || f.udpLength.value > 8 + f.end))
    || (f.udpLength.Some? && p.terminalEnd.Some? && (p.terminalEnd != Some(f.end) || p.udpLength != f.udpLength))
    || (f.udpLength.Some? && p.terminalEnd.Some? && data == []
        && (p.emptyTerminalOptions != Some(proc.options) || p.emptyTerminalFailures != Some(proc.failures)))
    || (f.udpLength.Some? && p.terminalEnd.None? && exists i :: 0 <= i < |p.segments| && p.segments[i].end > f.end)
  }

  lemma OverlapIsSharing(segs: seq<Segment>, f: Normalized)
    requires SegmentsOk(segs)
    ensures Overlaps(segs, f.start, f.end) <==> Shares(segs, f)
  {
    if Overlaps(segs, f.start, f.end) {
      var i :| 0 <= i < |segs| && f.start < segs[i].end && segs[i].start < f.end;
      var j := if f.start > segs[i].start then f.start else segs[i].start;
      assert Covers(segs[i], j);
    }
  }

  lemma RepeatIsDuplicate(p: PartialState, f: Normalized, data: seq<u8>, proc: Processing)
    ensures IsExactDuplicate(p, f, data, proc) <==> Repeats(p, f, data, proc)
  {
    if Repeats(p, f, data, proc) && !(f.udpLength.Some? && data == []) {
      var i :| 0 <= i < |p.segments| && p.segments[i] == AsSegment(f, data, proc);
      assert SameSegment(p.segments[i], f, data, proc);
    }
  }

  lemma ClashIsRefused(p: PartialState, f: Normalized, data: seq<u8>, proc: Processing, limits: Limits)
    requires TerminalOk(p, limits)
    ensures EndClashes(p, f, data, proc)
       <==> (p.terminalEnd.Some? && f.end > p.terminalEnd.value) || NoteTerminal(p, f, data, proc).None?
  {
  }

  /** A repeat changes nothing but the record of OCS use. */
  lemma RepeatsAreKept(p: PartialState, f: Normalized, data: seq<u8>, proc: Processing, limits: Limits)
    requires Repeats(p, f, data, proc)
    ensures var r := InsertPartial(p, f, data, proc, limits);
            && r.Keep? && r.next == p.(ocsNonzero := r.next.ocsNonzero)
            && (r.next.ocsNonzero.None? <==> p.ocsNonzero.None? || proc.ocsNonzero.None?)
            && (r.next.ocsNonzero.Some? ==> (r.next.ocsNonzero.value <==> p.ocsNonzero.value || proc.ocsNonzero.value))
  {
    hide IsExactDuplicate, Repeats;
    RepeatIsDuplicate(p, f, data, proc);
  }

  /** Exactly which other fragments end the datagram, and why: too many fragments, a byte
      position that is taken, or a contradiction about the end. */
  lemma RefusedIff(p: PartialState, f: Normalized, data: seq<u8>, proc: Processing, limits: Limits)
    requires PartialInv(p, limits) && Admitted(f, data, limits) && !Repeats(p, f, data, proc)
    ensures var r := InsertPartial(p, f, data, proc, limits);
            && (r.Drop? <==> p.fragmentCount >= limits.maxSegments || Shares(p.segments, f) || EndClashes(p, f, data, proc))
            && (r == Drop(LimitExceeded)
                <==> p.fragmentCount >= limits.maxSegments || 8 + p.byteTotal + |data| > limits.maxSize)
            && (8 + p.byteTotal + |data| > limits.maxSize ==> Shares(p.segments, f))
  {
    hide IsExactDuplicate, NoteTerminal, Store, Finished, Overlaps, Shares, EndClashes, Repeats;
    RepeatIsDuplicate(p, f, data, proc);
    OverlapIsSharing(p.segments, f);
    ClashIsRefused(p, f, data, proc, limits);
    if !Overlaps(p.segments, f.start, f.end) {
      PackingArgument(p.segments, f.start, f.end, limits.maxSize - 8);
      if p.fragmentCount < limits.maxSegments && !EndClashes(p, f, data, proc) {
        NoteTerminalKeeps(p, f, data, proc, limits);
        var q := NoteTerminal(p, f, data, proc).value;
        StoreKeeps(q, f, data, proc, limits);
        CompletionNeverClashes(Store(q, f, data, proc), limits);
      }
    }
  }

  /** The fields of a partial once an accepted fragment is in. */
  ghost predicate TakenIn(t: PartialState, p: PartialState, f: Normalized, data: seq<u8>, proc: Processing) {
    && (forall g :: g in t.segments <==> g in p.segments || (data != [] && g == AsSegment(f, data, proc)))
    && t.terminalEnd == (if f.udpLength.Some? then Some(f.end) else p.terminalEnd)
    && t.udpLength == (if f.udpLength.Some? then f.udpLength else p.udpLength)
    && t.emptyTerminalOptions == (if f.udpLength.Some? && data == [] then Some(proc.options) else p.emptyTerminalOptions)
    && t.emptyTerminalFailures == (if f.udpLength.Some? && data == [] then Some(proc.failures) else p.emptyTerminalFailures)
    && t.fragmentCount == p.fragmentCount + 1 && t.byteTotal == p.byteTotal + |data| && t.receivedAt == p.receivedAt
    && t.fragmentOptions == Observe(p.fragmentOptions, proc.options)
    && t.optionFailures == ObserveFailures(p.optionFailures, proc.failures)
    && (t.ocsNonzero.None? <==> p.ocsNonzero.None? || proc.ocsNonzero.None?)
    && (t.ocsNonzero.Some? ==> (t.ocsNonzero.value <==> p.ocsNonzero.value || proc.ocsNonzero.value))
  }

  /** On sorted disjoint segments inside an interval, the byte count is the length of the
      interval exactly when every position is covered. */
  lemma {:induction false} FullIffCovered(segs: seq<Segment>, lo: nat, hi: nat)
    requires SegmentsOk(segs) && Within(segs, lo, hi) && lo <= hi
    ensures ByteSum(segs) == hi - lo <==> forall j :: lo <= j < hi ==> Covered(segs, j)
  {
    if segs == [] {
      if lo < hi { assert !Covered(segs, lo); }
    } else {
      var s, rest := segs[0], segs[1..];
      assert Within(rest, s.end, hi);
      FullIffCovered(rest, s.end, hi);
      DisjointBytesFit(rest, s.end, hi);
      if s.start > lo {
        assert !Covered(segs, lo);
      } else {
        forall j | lo <= j < hi ensures Covered(segs, j) <==> Covers(s, j) || Covered(rest, j) {
          CoveredCons(segs, j);
        }
        forall j | lo <= j < s.end ensures Covers(s, j) {
        }
      }
    }
  }

  lemma CoveredCons(segs: seq<Segment>, j: nat)
    requires segs != []
    ensures Covered(segs, j) <==> Covers(segs[0], j) || Covered(segs[1..], j)
  {
    if Covered(segs[1..], j) {
      var i :| 0 <= i < |segs[1..]| && Covers(segs[1..][i], j);
      assert segs[i + 1] == segs[1..][i];
    }
  }

  lemma {:induction false} CoveredByMember(segs: seq<Segment>, j: nat)
    ensures Covered(segs, j) <==> exists g :: g in segs && Covers(g, j)
  {
    if exists g :: g in segs && Covers(g, j) {
      var g :| g in segs && Covers(g, j);
      var i :| 0 <= i < |segs| && segs[i] == g;
      assert Covers(segs[i], j);
    }
  }

  /** What is neither repeated nor refused is stored, and the datagram completes exactly
      when its end is known and every position before the end is now covered. */
  lemma AcceptedIsStored(p: PartialState, f: Normalized, data: seq<u8>, proc: Processing, limits: Limits)
    requires PartialInv(p, limits) && Admitted(f, data, limits) && !Repeats(p, f, data, proc)
    requires !InsertPartial(p, f, data, proc, limits).Drop?
    ensures var r := InsertPartial(p, f, data, proc, limits);
            var end := if f.udpLength.Some? then Some(f.end) else p.terminalEnd;
            && (r.Keep? ==> TakenIn(r.next, p, f, data, proc))
            && (r.Done? <==> end.Some? && forall j :: 0 <= j < end.value ==> Covered(p.segments, j) || f.start <= j < f.end)
            && (r.Done? ==> |r.completion.tail| == end.value
                            && Some(r.completion.udpLength) == (if f.udpLength.Some? then f.udpLength else p.udpLength))
  {
    hide IsExactDuplicate, NoteTerminal, Store, Finished, Overlaps, Shares, EndClashes, Repeats, TakenIn, Covered, SegmentsOk;
    RefusedIff(p, f, data, proc, limits);
    RepeatIsDuplicate(p, f, data, proc);
    OverlapIsSharing(p.segments, f);
    ClashIsRefused(p, f, data, proc, limits);
    NoteTerminalKeeps(p, f, data, proc, limits);
    var q := NoteTerminal(p, f, data, proc).value;
    StoreKeeps(q, f, data, proc, limits);
    var t := Store(q, f, data, proc);
    CompletionNeverClashes(t, limits);
    StoreHolds(p, f, data, proc, limits);
    TakenEnd(t, p, f, data, proc);
    CompletesWhenCovered(p, t, f, data, proc, limits);
    if Finished(t).Done? {
      CompletedLength(t, limits);
    }
  }

  lemma TakenEnd(t: PartialState, p: PartialState, f: Normalized, data: seq<u8>, proc: Processing)
    requires TakenIn(t, p, f, data, proc)
    ensures t.terminalEnd == (if f.udpLength.Some? then Some(f.end) else p.terminalEnd)
    ensures t.udpLength == (if f.udpLength.Some? then f.udpLength else p.udpLength)
  {
  }

  lemma StoreHolds(p: PartialState, f: Normalized, data: seq<u8>, proc: Processing, limits: Limits)
    requires TerminalOk(p, limits) && !EndClashes(p, f, data, proc) && NoteTerminal(p, f, data, proc).Some?
    ensures TakenIn(Store(NoteTerminal(p, f, data, proc).value, f, data, proc), p, f, data, proc)
  {
    hide InsertSegment, Observe, ObserveFailures;
    InsertSegmentContents(p.segments, AsSegment(f, data, proc));
  }

  lemma CompletesWhenCovered(p: PartialState, t: PartialState, f: Normalized, data: seq<u8>, proc: Processing, limits: Limits)
    requires Consistent(t, limits) && TakenIn(t, p, f, data, proc) && |data| == f.end - f.start && f.start <= f.end
    ensures Finished(t).Done? <==>
              t.terminalEnd.Some? && forall j :: 0 <= j < t.terminalEnd.value ==> Covered(p.segments, j) || f.start <= j < f.end
  {
    hide Finished, SegmentsOk, Covers, Covered;
    CompletionNeverClashes(t, limits);
    if t.terminalEnd.Some? {
      FullIffCovered(t.segments, 0, t.terminalEnd.value);
      forall j | 0 <= j < t.terminalEnd.value ensures Covered(t.segments, j) <==> Covered(p.segments, j) || f.start <= j < f.end {
        CoveredAfter(p, t, f, data, proc, j);
      }
    }
  }

  lemma CoveredAfter(p: PartialState, t: PartialState, f: Normalized, data: seq<u8>, proc: Processing, j: nat)
    requires TakenIn(t, p, f, data, proc) && |data| == f.end - f.start && f.start <= f.end
    ensures Covered(t.segments, j) <==> Covered(p.segments, j) || f.start <= j < f.end
  {
    hide Covered;
    CoveredByMember(t.segments, j);
    CoveredByMember(p.segments, j);
    if f.start <= j < f.end {
      assert data != [];
      assert AsSegment(f, data, proc) in t.segments && Covers(AsSegment(f, data, proc), j);
    }
  }

  lemma CompletedLength(t: PartialState, limits: Limits)
    requires Consistent(t, limits) && Finished(t).Done?
    ensures |Finished(t).completion.tail| == t.terminalEnd.value && Some(Finished(t).completion.udpLength) == t.udpLength
  {
    hide SegmentsOk;
    JoinedBytes(t.segments);
    CompletionNeverClashes(t, limits);
  }

  lemma {:induction false} JoinedBytes(segs: seq<Segment>)
    ensures |Concat(segs)| == ByteSum(segs)
  {
    if segs != [] {
      JoinedBytes(segs[1..]);
    }
  }

  /** Some stored segment has byte `b` at position `j`. */
  predicate Has(segs: seq<Segment>, j: nat, b: u8) {
    exists i :: 0 <= i < |segs| && Covers(segs[i], j) && j - segs[i].start < |segs[i].data| && segs[i].data[j - segs[i].start] == b
  }

  /** No byte of a fragment that was taken is lost: a retained partial has all of them, at
      their positions. */
  lemma KeptBytesAreHeld(p: PartialState, f: Normalized, data: seq<u8>, proc: Processing, limits: Limits, j: nat)
    requires PartialInv(p, limits) && Admitted(f, data, limits) && f.start <= j < f.end
    requires InsertPartial(p, f, data, proc, limits).Keep?
    ensures Has(InsertPartial(p, f, data, proc, limits).next.segments, j, data[j - f.start])
  {
    hide InsertPartial, PartialInv, Observe, ObserveFailures;
    var n, s := InsertPartial(p, f, data, proc, limits).next, AsSegment(f, data, proc);
    if Repeats(p, f, data, proc) {
      RepeatsAreKept(p, f, data, proc, limits);
    } else {
      AcceptedIsStored(p, f, data, proc, limits);
    }
    var i :| 0 <= i < |n.segments| && n.segments[i] == s;
  }

  // ---- the cache ----

  /** A fragment with a byte position that is taken, and that does not repeat what is
      stored, aborts the datagram and frees the key. */
  lemma ConflictAborts(m: CacheState, limits: Limits, key: FragKey, frag: FragOption, data: seq<u8>, proc: Processing, now: nat)
    requires CacheInv(m, limits) && key in m && !Expired(m[key], now, limits.timeout)
    requires Normalize(frag, |data|).Some? && Shares(m[key].segments, Normalize(frag, |data|).value)
    requires !(exists i :: 0 <= i < |m[key].segments| && m[key].segments[i].start == Normalize(frag, |data|).value.start
                           && m[key].segments[i].data == data)
    ensures var (n, r) := InsertFragment(m, limits, key, frag, data, proc, now);
            r.Abort? && key !in n
  {
    hide InsertPartial, PartialInv, Shares;
    var f := Normalize(frag, |data|).value;
    InsertRetention(m, limits, key, frag, data, proc, now);
    InsertOnKey(m, limits, key, frag, data, proc, now);
    if Oversized(Some(f), limits).None? {
      NotRepeated(m[key], f, data, proc);
      RefusedIff(m[key], f, data, proc, limits);
    }
  }

  lemma NotRepeated(p: PartialState, f: Normalized, data: seq<u8>, proc: Processing)
    requires Shares(p.segments, f)
    requires f.end == f.start + |data|
    requires !(exists i :: 0 <= i < |p.segments| && p.segments[i].start == f.start && p.segments[i].data == data)
    ensures !Repeats(p, f, data, proc)
  {
  }

  /** What the cache refuses before it looks at stored data, and that it then frees the key:
      an offset inside the UDP header, or an end beyond the size limit. */
  lemma MisplacedAborts(m: CacheState, limits: Limits, key: FragKey, frag: FragOption, data: seq<u8>, proc: Processing, now: nat)
    ensures var (n, r) := InsertFragment(m, limits, key, frag, data, proc, now);
            var atomic := frag.fragOffset == 0 && frag.rdos.Some?;
            var end := if atomic then 8 + |data| else frag.fragOffset + |data|;
            && (!atomic && frag.fragOffset < 8 ==> r == Abort(Overlap) && key !in n)
            && (atomic || frag.fragOffset >= 8 ==>
                  (end > limits.maxSize || (frag.rdos.Some? && frag.rdos.value > limits.maxSize) ==>
                     r == Abort(LimitExceeded) && key !in n))
  {
    hide InsertPartial;
  }

  /** A full cache takes no new datagram: a fragment of one completes alone or is refused,
      and nothing is stored. */
  lemma FullCacheStoresNothing(m: CacheState, limits: Limits, key: FragKey, frag: FragOption, data: seq<u8>, proc: Processing, now: nat)
    requires key !in Gc(m, now, limits.timeout) && |Gc(m, now, limits.timeout)| >= limits.maxPending
    ensures var (n, r) := InsertFragment(m, limits, key, frag, data, proc, now);
            && n == Gc(m, now, limits.timeout) && !r.Incomplete?
            && (r.Complete? ==> r.completion.tail == data && frag.rdos == Some(r.completion.udpLength)
                                && (frag.fragOffset == 0 || frag.fragOffset == 8 || data == []))
            && var f := Normalize(frag, |data|);
               (r == Abort(Overlap) <==>
                  f.None? || (Oversized(f, limits).None? && limits.maxSegments > 0 && frag.rdos.Some?
                              && (frag.rdos.value < 8 || frag.rdos.value > 8 + f.value.end)))
  {
    hide InsertPartial, Gc;
    var g := Gc(m, now, limits.timeout);
    assert g - {key} == g;
    var f := Normalize(frag, |data|);
    if Oversized(f, limits).None? {
      AloneInFresh(f.value, data, proc, now, limits);
    }
  }

  lemma AloneInFresh(f: Normalized, data: seq<u8>, proc: Processing, now: nat, limits: Limits)
    requires f.end == f.start + |data|
    ensures var r := InsertPartial(Fresh(now), f, data, proc, limits);
            && (r.Done? ==> r.completion.tail == data && f.udpLength == Some(r.completion.udpLength) && (f.start == 0 || data == []))
            && (8 + f.end <= limits.maxSize ==>
                  (r == Drop(Overlap) <==>
                     limits.maxSegments > 0 && f.udpLength.Some? && (f.udpLength.value < 8 || f.udpLength.value > 8 + f.end)))
  {
    hide Observe, ObserveFailures, ToRawOptions;
    var s := AsSegment(f, data, proc);
    assert InsertSegment([], s) == [s];
    assert Concat([s]) == data + [] == data;
    assert [s][1..] == [] && Walk([s], 0) != Clash;
    assert !IsExactDuplicate(Fresh(now), f, data, proc);
  }
}
