/** What every reachable cache keeps: sorted disjoint segments, exact byte counts,
    consistent terminal metadata, and the resource bounds. */
module ReassemblyInvariant {
  import opened Bytes
  import opened OptionKinds
  import opened Reassembly

  // ---- segments ----

  predicate SegmentsOk(segs: seq<Segment>) {
    && (forall i :: 0 <= i < |segs| ==> segs[i].start < segs[i].end && |segs[i].data| == segs[i].end - segs[i].start)
    && (forall i, j :: 0 <= i < j < |segs| ==> segs[i].end <= segs[j].start)
  }

  predicate Within(segs: seq<Segment>, lo: nat, hi: nat) {
    forall i :: 0 <= i < |segs| ==> lo <= segs[i].start && segs[i].end <= hi
  }

  function ByteSum(segs: seq<Segment>): nat {
    if segs == [] then 0 else |segs[0].data| + ByteSum(segs[1..])
  }

  lemma {:induction false} ByteSumConcat(a: seq<Segment>, b: seq<Segment>)
    ensures ByteSum(a + b) == ByteSum(a) + ByteSum(b)
  {
    if a == [] {
      assert a + b == b;
    } else {
      ByteSumConcat(a[1..], b);
      assert (a + b)[1..] == a[1..] + b;
    }
  }

  /** Disjoint segments inside an interval hold at most its length. */
  lemma {:induction false} DisjointBytesFit(segs: seq<Segment>, lo: nat, hi: nat)
    requires SegmentsOk(segs) && Within(segs, lo, hi) && lo <= hi
    ensures ByteSum(segs) <= hi - lo
  {
    if segs != [] {
      var rest := segs[1..];
      assert Within(rest, segs[0].end, hi);
      DisjointBytesFit(rest, segs[0].end, hi);
    }
  }

  /** On sorted disjoint segments the cursor walk never finds a clash, and it gets
      to the end exactly when no byte is missing. */
  lemma {:induction false} WalkCountsBytes(segs: seq<Segment>, lo: nat, hi: nat)
    requires SegmentsOk(segs) && Within(segs, lo, hi) && lo <= hi
    ensures Walk(segs, lo) != Clash
    ensures Walk(segs, lo) == Reached(hi) <==> ByteSum(segs) == hi - lo
  {
    if segs != [] {
      var rest := segs[1..];
      assert Within(rest, segs[0].end, hi);
      DisjointBytesFit(rest, segs[0].end, hi);
      WalkCountsBytes(rest, segs[0].end, hi);
    }
  }

  lemma {:induction false} InsertionIndexSplits(segs: seq<Segment>, start: nat)
    requires SegmentsOk(segs)
    ensures var i := InsertionIndex(segs, start);
            && (forall j :: 0 <= j < i ==> segs[j].start < start)
            && (forall j :: i <= j < |segs| ==> segs[j].start >= start)
  {
    if segs != [] && segs[0].start < start {
      var rest := segs[1..];
      InsertionIndexSplits(rest, start);
      forall j | 0 <= j < |segs|
        ensures j < InsertionIndex(segs, start) ==> segs[j].start < start
        ensures j >= InsertionIndex(segs, start) ==> segs[j].start >= start
      {
        if j > 0 { assert segs[j] == rest[j - 1]; }
      }
    }
  }

  lemma InsertSegmentKeepsOrder(segs: seq<Segment>, s: Segment)
    requires SegmentsOk(segs) && s.start < s.end && |s.data| == s.end - s.start
    requires !Overlaps(segs, s.start, s.end)
    ensures SegmentsOk(InsertSegment(segs, s))
  {
    InsertionIndexSplits(segs, s.start);
    var i := InsertionIndex(segs, s.start);
    var r := InsertSegment(segs, s);
    forall j | 0 <= j < i ensures segs[j].end <= s.start {
    }
    forall j | i <= j < |segs| ensures s.end <= segs[j].start {
    }
    assert forall j :: 0 <= j < |r| ==> r[j] == if j < i then segs[j] else if j == i then s else segs[j - 1];
  }

  lemma InsertSegmentContents(segs: seq<Segment>, s: Segment)
    ensures ByteSum(InsertSegment(segs, s)) == ByteSum(segs) + |s.data|
    ensures forall x :: x in InsertSegment(segs, s) <==> x in segs || x == s
  {
    var i := InsertionIndex(segs, s.start);
    ByteSumConcat(segs[..i] + [s], segs[i..]);
    ByteSumConcat(segs[..i], [s]);
    ByteSumConcat(segs[..i], segs[i..]);
    assert segs[..i] + segs[i..] == segs;
    assert ByteSum([s]) == |s.data|;
    forall x | x in segs ensures x in InsertSegment(segs, s) {
      assert x in segs[..i] || x in segs[i..];
    }
  }

  /** Any index a binary search can report for an absent start is the insertion index. */
  lemma {:induction false} SearchIndexIsUnique(segs: seq<Segment>, start: nat, i: nat)
    requires i <= |segs|
    requires forall j :: 0 <= j < i ==> segs[j].start < start
    requires forall j :: i <= j < |segs| ==> segs[j].start > start
    ensures InsertionIndex(segs, start) == i
  {
    if i > 0 {
      SearchIndexIsUnique(segs[1..], start, i - 1);
    }
  }

  /** And the start of an admitted fragment is always absent. */
  lemma AdmittedStartIsAbsent(segs: seq<Segment>, start: nat, end: nat)
    requires SegmentsOk(segs) && start < end && !Overlaps(segs, start, end)
    ensures forall j :: 0 <= j < |segs| ==> segs[j].start != start
  {
  }

  /** The byte limit of a partial can only stop a fragment that overlaps stored
      data: what does not overlap always fits below the admitted end. */
  lemma PackingArgument(segs: seq<Segment>, start: nat, end: nat, bound: nat)
    requires SegmentsOk(segs) && Within(segs, 0, bound) && start <= end <= bound
    requires !Overlaps(segs, start, end)
    ensures ByteSum(segs) + (end - start) <= bound
  {
    if start < end {
      var s := Segment(start, end, Zeros(end - start), [], []);
      InsertSegmentKeepsOrder(segs, s);
      InsertSegmentContents(segs, s);
      var r := InsertSegment(segs, s);
      forall i | 0 <= i < |r| ensures r[i].end <= bound {
        assert r[i] in r;
      }
      DisjointBytesFit(r, 0, bound);
    } else {
      DisjointBytesFit(segs, 0, bound);
    }
  }

  // ---- one partial ----

  /** Terminal end and UDP Length come together and agree with every segment. */
  predicate TerminalOk(p: PartialState, limits: Limits) {
    && (p.terminalEnd.Some? <==> p.udpLength.Some?)
    && (p.emptyTerminalOptions.Some? <==> p.emptyTerminalFailures.Some?)
    && (p.emptyTerminalOptions.Some? ==> p.terminalEnd.Some?)
    && (p.terminalEnd.Some? ==>
          && 8 <= p.udpLength.value <= 8 + p.terminalEnd.value <= limits.maxSize
          && Within(p.segments, 0, p.terminalEnd.value))
  }

  /** Every count and limit of a partial, complete or not. */
  predicate Consistent(p: PartialState, limits: Limits) {
    && SegmentsOk(p.segments)
    && 8 <= limits.maxSize && Within(p.segments, 0, limits.maxSize - 8)
    && p.byteTotal == ByteSum(p.segments) && 8 + p.byteTotal <= limits.maxSize
    && |p.segments| <= p.fragmentCount <= limits.maxSegments
    && TerminalOk(p, limits)
  }

  /** A retained partial is consistent and still misses some byte. */
  predicate PartialInv(p: PartialState, limits: Limits) {
    Consistent(p, limits) && !Finished(p).Done?
  }

  predicate Admitted(f: Normalized, data: seq<u8>, limits: Limits) {
    && f.start <= f.end && |data| == f.end - f.start && 8 + f.end <= limits.maxSize
    && (f.udpLength.Some? ==> f.udpLength.value <= limits.maxSize)
  }

  lemma FreshIsConsistent(now: nat, limits: Limits)
    requires 8 <= limits.maxSize
    ensures PartialInv(Fresh(now), limits)
  {
  }

  lemma NoteTerminalKeeps(p: PartialState, f: Normalized, data: seq<u8>, proc: Processing, limits: Limits)
    requires Consistent(p, limits) && Admitted(f, data, limits)
    requires p.terminalEnd.Some? ==> f.end <= p.terminalEnd.value
    requires NoteTerminal(p, f, data, proc).Some?
    ensures var q := NoteTerminal(p, f, data, proc).value;
            && Consistent(q, limits) && q.segments == p.segments && q.receivedAt == p.receivedAt
            && q.fragmentCount == p.fragmentCount && q.byteTotal == p.byteTotal
            && (q.terminalEnd.Some? ==> f.end <= q.terminalEnd.value)
  {
    var q := NoteTerminal(p, f, data, proc).value;
    if f.udpLength.Some? && p.terminalEnd.None? {
      forall i | 0 <= i < |p.segments| ensures p.segments[i].end <= f.end {
      }
      assert Within(q.segments, 0, f.end);
    }
  }

  lemma StoreKeeps(p: PartialState, f: Normalized, data: seq<u8>, proc: Processing, limits: Limits)
    requires Consistent(p, limits) && Admitted(f, data, limits)
    requires p.fragmentCount + 1 <= limits.maxSegments
    requires p.byteTotal + |data| + 8 <= limits.maxSize
    requires !Overlaps(p.segments, f.start, f.end)
    requires p.terminalEnd.Some? ==> f.end <= p.terminalEnd.value
    ensures Consistent(Store(p, f, data, proc), limits)
  {
    hide Observe, ObserveFailures, ObserveOcs, InsertSegment;
    if data != [] {
      var s := Segment(f.start, f.end, data, proc.options, proc.failures);
      InsertSegmentKeepsOrder(p.segments, s);
      InsertSegmentContents(p.segments, s);
      var r := InsertSegment(p.segments, s);
      forall hi | Within(p.segments, 0, hi) && f.end <= hi ensures Within(r, 0, hi) {
        forall i | 0 <= i < |r| ensures r[i].end <= hi {
          assert r[i] in r;
        }
      }
    }
  }

  /** With consistent counts the overlap abort inside the completion walk is dead. */
  lemma CompletionNeverClashes(p: PartialState, limits: Limits)
    requires Consistent(p, limits)
    ensures !Finished(p).Drop?
    ensures Finished(p).Keep? ==> Finished(p).next == p
    ensures Finished(p).Done? <==> p.terminalEnd.Some? && p.byteTotal == p.terminalEnd.value
  {
    if p.terminalEnd.Some? {
      WalkCountsBytes(p.segments, 0, p.terminalEnd.value);
    }
  }

  /** One insertion keeps the invariant of the partial it retains. */
  lemma InsertKeepsInvariant(p: PartialState, f: Normalized, data: seq<u8>, proc: Processing, limits: Limits)
    requires PartialInv(p, limits) && Admitted(f, data, limits)
    ensures var r := InsertPartial(p, f, data, proc, limits);
            && (r.Keep? ==> PartialInv(r.next, limits) && r.next.receivedAt == p.receivedAt)
            && (r == Drop(LimitExceeded) && p.fragmentCount < limits.maxSegments ==> Overlaps(p.segments, f.start, f.end))
  {
    hide IsExactDuplicate, NoteTerminal, Store, ObserveOcs, Overlaps, Walk, Concat, ToRawOptions, SegmentsOk, Within;
    if IsExactDuplicate(p, f, data, proc) {
      CompletionNeverClashes(p, limits);
      var q := p.(ocsNonzero := ObserveOcs(p.ocsNonzero, proc.ocsNonzero));
      assert Consistent(q, limits);
      CompletionNeverClashes(q, limits);
    } else if !Overlaps(p.segments, f.start, f.end) {
      PackingArgument(p.segments, f.start, f.end, limits.maxSize - 8);
      if p.fragmentCount < limits.maxSegments && (p.terminalEnd.Some? ==> f.end <= p.terminalEnd.value) {
        var q := NoteTerminal(p, f, data, proc);
        if q.Some? {
          NoteTerminalKeeps(p, f, data, proc, limits);
          StoreKeeps(q.value, f, data, proc, limits);
          CompletionNeverClashes(Store(q.value, f, data, proc), limits);
          assert Store(q.value, f, data, proc).receivedAt == q.value.receivedAt by { StoreKeepsArrival(q.value, f, data, proc); }
        }
      }
    }
  }

  lemma StoreKeepsArrival(p: PartialState, f: Normalized, data: seq<u8>, proc: Processing)
    ensures Store(p, f, data, proc).receivedAt == p.receivedAt
  {
  }

  // ---- the cache ----

  predicate CacheInv(m: CacheState, limits: Limits) {
    && |m| <= limits.maxPending
    && forall k :: k in m ==> PartialInv(m[k], limits)
  }

  /** After an insertion the key is retained exactly when the outcome is `Incomplete`,
      and any other key changes only by expiry. */
  lemma InsertRetention(m: CacheState, limits: Limits, key: FragKey, frag: FragOption, data: seq<u8>,
                        proc: Processing, now: nat)
    ensures var (n, r) := InsertFragment(m, limits, key, frag, data, proc, now);
            && (key in n <==> r == Incomplete)
            && forall k :: k != key ==>
                 && (k in n <==> k in m && !Expired(m[k], now, limits.timeout))
                 && (k in n ==> n[k] == m[k])
  {
    hide InsertPartial;
  }

  /** The partial an insertion meets: the stored one unless it has expired. */
  function Current(m: CacheState, key: FragKey, now: nat, timeout: nat): PartialState {
    if key in m && !Expired(m[key], now, timeout) then m[key] else Fresh(now)
  }

  /** What an insertion does for its own key, told by that partial alone. */
  lemma InsertOnKey(m: CacheState, limits: Limits, key: FragKey, frag: FragOption, data: seq<u8>,
                    proc: Processing, now: nat)
    ensures var (n, r) := InsertFragment(m, limits, key, frag, data, proc, now);
            var f := Normalize(frag, |data|);
            && (Oversized(f, limits).Some? ==> r == Abort(Oversized(f, limits).value))
            && (Oversized(f, limits).None? ==>
                  var i := InsertPartial(Current(m, key, now, limits.timeout), f.value, data, proc, limits);
                  && (r == Incomplete ==> key in n && i == Keep(n[key]))
                  && (r.Complete? ==> i == Done(r.completion)))
  {
    hide InsertPartial;
  }

  lemma GcShrinks(m: CacheState, now: nat, timeout: nat)
    ensures |Gc(m, now, timeout)| <= |m|
    ensures forall k :: k in Gc(m, now, timeout) ==> k in m && Gc(m, now, timeout)[k] == m[k]
  {
    SubmapIsSmaller(Gc(m, now, timeout), m);
  }

  lemma SubmapIsSmaller(a: CacheState, b: CacheState)
    requires a.Keys <= b.Keys
    ensures |a| <= |b|
  {
    SubsetIsSmaller(a.Keys, b.Keys);
  }

  lemma {:induction false} SubsetIsSmaller<T>(a: set<T>, b: set<T>)
    requires a <= b
    ensures |a| <= |b|
  {
    if a != {} {
      var x :| x in a;
      SubsetIsSmaller(a - {x}, b - {x});
    }
  }

  lemma InsertKnownKeepsCache(g: CacheState, limits: Limits, key: FragKey, p: PartialState, f: Normalized,
                              data: seq<u8>, proc: Processing)
    requires CacheInv(g, limits) && (key in g || |g| < limits.maxPending)
    requires PartialInv(p, limits) && Admitted(f, data, limits)
    ensures CacheInv(InsertKnown(g, key, p, f, data, proc, limits).0, limits)
  {
    hide InsertPartial, PartialInv, Admitted;
    InsertKeepsInvariant(p, f, data, proc, limits);
    SubmapIsSmaller(g - {key}, g);
    match InsertPartial(p, f, data, proc, limits)
    case Keep(q) =>
      assert g[key := q].Keys == g.Keys + {key};
    case Done(_) =>
    case Drop(_) =>
  }

  lemma InsertKeepsCache(m: CacheState, limits: Limits, key: FragKey, frag: FragOption, data: seq<u8>,
                         proc: Processing, now: nat)
    requires CacheInv(m, limits)
    ensures CacheInv(InsertFragment(m, limits, key, frag, data, proc, now).0, limits)
  {
    hide InsertPartial, PartialInv, InsertUnretained, Gc, InsertKnown;
    var g := Gc(m, now, limits.timeout);
    GcShrinks(m, now, limits.timeout);
    SubmapIsSmaller(g - {key}, g);
    var f := Normalize(frag, |data|);
    if Oversized(f, limits).None? {
      FreshIsConsistent(now, limits);
      if key in g || |g| < limits.maxPending {
        InsertKnownKeepsCache(g, limits, key, if key in g then g[key] else Fresh(now), f.value, data, proc);
      }
    }
  }

  datatype Op =
    | Insert(key: FragKey, frag: FragOption, data: seq<u8>, proc: Processing, now: nat)
    | Collect(now: nat)
    | Discard(key: FragKey)

  function Apply(m: CacheState, limits: Limits, op: Op): CacheState {
    match op
    case Insert(key, frag, data, proc, now) => InsertFragment(m, limits, key, frag, data, proc, now).0
    case Collect(now) => Gc(m, now, limits.timeout)
    case Discard(key) => m - {key}
  }

  function Run(m: CacheState, limits: Limits, ops: seq<Op>): CacheState {
    if ops == [] then m else Apply(Run(m, limits, ops[..|ops| - 1]), limits, ops[|ops| - 1])
  }

  /** Every cache reachable from the empty one, by any operations with any arguments
      and clocks, satisfies the invariant. */
  lemma {:induction false} ReachableCachesAreSound(limits: Limits, ops: seq<Op>)
    ensures CacheInv(Run(map[], limits, ops), limits)
  {
    if ops != [] {
      var prefix, op := ops[..|ops| - 1], ops[|ops| - 1];
      ReachableCachesAreSound(limits, prefix);
      var m := Run(map[], limits, prefix);
      match op
      case Insert(key, frag, data, proc, now) => InsertKeepsCache(m, limits, key, frag, data, proc, now);
      case Collect(now) => GcShrinks(m, now, limits.timeout);
      case Discard(key) => SubmapIsSmaller(m - {key}, m);
    }
  }

  // ---- buffered bytes ----

  /** The fragment bytes held by the cache. */
  ghost function Buffered(m: CacheState): nat
    decreases |m|
  {
    if m == map[] then 0
    else
      var k :| k in m;
      ByteSum(m[k].segments) + Buffered(m - {k})
  }

  lemma {:induction false} BufferedBound(m: CacheState, bound: nat)
    requires forall k :: k in m ==> ByteSum(m[k].segments) <= bound
    ensures Buffered(m) <= |m| * bound
    decreases |m|
  {
    hide ByteSum;
    if m != map[] {
      var k :| k in m && Buffered(m) == ByteSum(m[k].segments) + Buffered(m - {k});
      OneLess(m, k, bound);
      BufferedBound(m - {k}, bound);
    }
  }

  lemma OneLess(m: CacheState, k: FragKey, bound: nat)
    requires k in m
    ensures |m - {k}| == |m| - 1 && |m| * bound == |m - {k}| * bound + bound
  {
    var rest := m - {k};
    assert m.Keys == rest.Keys + {k};
    assert |m| == |rest| + 1;
  }

  /** The denial-of-service bound of every reachable cache. */
  lemma ResourceBound(limits: Limits, ops: seq<Op>)
    ensures var m := Run(map[], limits, ops);
            && |m| <= limits.maxPending
            && Buffered(m) <= limits.maxPending * (if limits.maxSize >= 8 then limits.maxSize - 8 else 0)
  {
    ReachableCachesAreSound(limits, ops);
    var m := Run(map[], limits, ops);
    var bound := if limits.maxSize >= 8 then limits.maxSize - 8 else 0;
    forall k | k in m ensures ByteSum(m[k].segments) <= bound {
      assert PartialInv(m[k], limits);
    }
    BufferedBound(m, bound);
    MulMonotone(|m|, limits.maxPending, bound);
  }

  lemma MulMonotone(a: nat, b: nat, c: nat)
    requires a <= b
    ensures a * c <= b * c
  {
  }
}
