/** Whole runs of the cache: where every byte of a completed datagram came from,
    and how long its fragments can have waited. */
module ReassemblyRuns {
  import opened Bytes
  import opened OptionKinds
  import opened Reassembly
  import opened ReassemblyInvariant

  predicate Holds(s: Segment, at: nat, b: u8) {
    s.start <= at < s.end && at - s.start < |s.data| && s.data[at - s.start] == b
  }

  lemma {:induction false} WalkedLength(segs: seq<Segment>, lo: nat, hi: nat)
    requires SegmentsOk(segs) && Walk(segs, lo) == Reached(hi)
    ensures lo <= hi && |Concat(segs)| == hi - lo
  {
    if segs != [] {
      WalkedLength(segs[1..], segs[0].end, hi);
    }
  }

  /** A walk that reaches the end joins bytes that each come from the segment that
      covers their position. */
  lemma {:induction false} WalkedByte(segs: seq<Segment>, lo: nat, hi: nat, at: nat) returns (s: Segment)
    requires SegmentsOk(segs) && Walk(segs, lo) == Reached(hi)
    requires lo <= at < hi
    ensures |Concat(segs)| == hi - lo
    ensures s in segs && Holds(s, at, Concat(segs)[at - lo])
  {
    WalkedLength(segs, lo, hi);
    s := segs[0];
    if at >= s.end {
      var rest := segs[1..];
      WalkedLength(rest, s.end, hi);
      assert Concat(segs)[at - lo] == Concat(rest)[at - s.end];
      s := WalkedByte(rest, s.end, hi, at);
    }
  }

  // ---- provenance ----

  predicate Contributes(op: Op, key: FragKey, since: nat, start: nat, end: nat) {
    && op.Insert? && op.key == key && op.now >= since
    && Normalize(op.frag, |op.data|).Some?
    && Normalize(op.frag, |op.data|).value.start == start
    && Normalize(op.frag, |op.data|).value.end == end
  }

  /** Every segment, and the terminal metadata, was brought by an insertion for this
      key that was made since the partial was started. */
  predicate Sourced(p: PartialState, key: FragKey, ops: seq<Op>) {
    && (forall s :: s in p.segments ==>
          exists op :: op in ops && Contributes(op, key, p.receivedAt, s.start, s.end) && op.data == s.data)
    && (p.terminalEnd.Some? ==>
          exists op :: op in ops && ContributesTerminal(op, key, p.receivedAt, p.terminalEnd.value, p.udpLength))
  }

  predicate ContributesTerminal(op: Op, key: FragKey, since: nat, end: nat, udpLength: Option<u16>) {
    op.Insert? && op.key == key && op.now >= since && op.frag.rdos == udpLength
    && Normalize(op.frag, |op.data|).Some? && Normalize(op.frag, |op.data|).value.end == end
  }

  lemma SourcedGrows(p: PartialState, key: FragKey, ops: seq<Op>, op: Op)
    requires Sourced(p, key, ops)
    ensures Sourced(p, key, ops + [op])
  {
    hide Contributes, ContributesTerminal;
    assert forall x :: x in ops ==> x in ops + [op];
  }

  /** A completed datagram, byte by byte and with its UDP Length, out of insertions
      for its key made since `since`. */
  predicate CompletedFrom(c: Completion, key: FragKey, since: nat, ops: seq<Op>) {
    && (forall j :: 0 <= j < |c.tail| ==> exists op :: op in ops && BringsByte(op, key, since, j, c.tail[j]))
    && exists op :: op in ops && ContributesTerminal(op, key, since, |c.tail|, Some(c.udpLength))
  }

  predicate BringsByte(op: Op, key: FragKey, since: nat, j: nat, b: u8) {
    && op.Insert? && op.key == key && op.now >= since
    && Normalize(op.frag, |op.data|).Some?
    && var f := Normalize(op.frag, |op.data|).value;
       f.start <= j < f.end && op.data[j - f.start] == b
  }

  lemma NoteTerminalSourced(p: PartialState, f: Normalized, op: Op, ops: seq<Op>)
    requires op.Insert? && Sourced(p, op.key, ops) && op in ops && op.now >= p.receivedAt
    requires Normalize(op.frag, |op.data|) == Some(f)
    requires NoteTerminal(p, f, op.data, op.proc).Some?
    ensures Sourced(NoteTerminal(p, f, op.data, op.proc).value, op.key, ops)
  {
    var q := NoteTerminal(p, f, op.data, op.proc).value;
    if q.terminalEnd != p.terminalEnd {
      assert ContributesTerminal(op, op.key, q.receivedAt, q.terminalEnd.value, q.udpLength);
    }
  }

  lemma StoreSourced(p: PartialState, f: Normalized, op: Op, ops: seq<Op>)
    requires op.Insert? && Sourced(p, op.key, ops) && op in ops && op.now >= p.receivedAt
    requires Normalize(op.frag, |op.data|) == Some(f)
    ensures Sourced(Store(p, f, op.data, op.proc), op.key, ops)
  {
    hide Observe, ObserveFailures, ObserveOcs, InsertSegment, Normalize, ContributesTerminal;
    if op.data != [] {
      var s := Segment(f.start, f.end, op.data, op.proc.options, op.proc.failures);
      InsertSegmentContents(p.segments, s);
      assert Contributes(op, op.key, p.receivedAt, s.start, s.end);
    }
  }

  lemma FinishedFrom(p: PartialState, key: FragKey, ops: seq<Op>, limits: Limits)
    requires Consistent(p, limits) && Sourced(p, key, ops) && Finished(p).Done?
    ensures CompletedFrom(Finished(p).completion, key, p.receivedAt, ops)
  {
    hide ToRawOptions, Normalize;
    var c := Finished(p).completion;
    WalkedLength(p.segments, 0, p.terminalEnd.value);
    forall j | 0 <= j < |c.tail| ensures exists op :: op in ops && BringsByte(op, key, p.receivedAt, j, c.tail[j]) {
      var s := WalkedByte(p.segments, 0, p.terminalEnd.value, j);
      var op :| op in ops && Contributes(op, key, p.receivedAt, s.start, s.end) && op.data == s.data;
      assert BringsByte(op, key, p.receivedAt, j, c.tail[j]);
    }
  }

  lemma InsertPartialSourced(p: PartialState, f: Normalized, op: Op, ops: seq<Op>, limits: Limits)
    requires op.Insert? && PartialInv(p, limits) && Admitted(f, op.data, limits)
    requires Sourced(p, op.key, ops) && op in ops && op.now >= p.receivedAt
    requires Normalize(op.frag, |op.data|) == Some(f)
    ensures var r := InsertPartial(p, f, op.data, op.proc, limits);
            && (r.Keep? ==> Sourced(r.next, op.key, ops) && r.next.receivedAt == p.receivedAt)
            && (r.Done? ==> CompletedFrom(r.completion, op.key, p.receivedAt, ops))
  {
    hide IsExactDuplicate, NoteTerminal, Store, ObserveOcs, Overlaps, Walk, Concat, ToRawOptions, SegmentsOk, Within,
         CompletedFrom, Contributes, ContributesTerminal, Normalize;
    InsertKeepsInvariant(p, f, op.data, op.proc, limits);
    var r := InsertPartial(p, f, op.data, op.proc, limits);
    if !IsExactDuplicate(p, f, op.data, op.proc) && !r.Drop? {
      var q := NoteTerminal(p, f, op.data, op.proc).value;
      NoteTerminalKeeps(p, f, op.data, op.proc, limits);
      NoteTerminalSourced(p, f, op, ops);
      StoreSourced(q, f, op, ops);
      StoreKeeps(q, f, op.data, op.proc, limits);
      StoreKeepsArrival(q, f, op.data, op.proc);
      var t := Store(q, f, op.data, op.proc);
      CompletionNeverClashes(t, limits);
      if r.Done? {
        FinishedFrom(t, op.key, ops, limits);
      }
    }
  }

  // ---- clocks ----

  function Time(op: Op): Option<nat> {
    if op.Discard? then None else Some(op.now)
  }

  predicate Monotone(ops: seq<Op>) {
    forall i, j :: 0 <= i < j < |ops| && Time(ops[i]).Some? && Time(ops[j]).Some? ==>
      Time(ops[i]).value <= Time(ops[j]).value
  }

  predicate StampedBefore(p: PartialState, ops: seq<Op>) {
    exists op :: op in ops && op.Insert? && op.now == p.receivedAt
  }

  predicate SourcedCache(m: CacheState, ops: seq<Op>) {
    forall k :: k in m ==> Sourced(m[k], k, ops) && StampedBefore(m[k], ops)
  }

  /** The insertion that ends a run: its outcome. */
  function LastOutcome(limits: Limits, ops: seq<Op>): Outcome
    requires ops != [] && ops[|ops| - 1].Insert?
  {
    var op := ops[|ops| - 1];
    InsertFragment(Run(map[], limits, ops[..|ops| - 1]), limits, op.key, op.frag, op.data, op.proc, op.now).1
  }

  function Window(limits: Limits): nat {
    Min(limits.timeout, TIMEOUT_MAX)
  }

  lemma ArrivedBefore(ops: seq<Op>, p: PartialState)
    requires Monotone(ops) && ops != [] && Time(ops[|ops| - 1]).Some?
    requires StampedBefore(p, ops[..|ops| - 1])
    ensures p.receivedAt <= Time(ops[|ops| - 1]).value
  {
    var op :| op in ops[..|ops| - 1] && op.Insert? && op.now == p.receivedAt;
    var i :| 0 <= i < |ops| - 1 && ops[i] == op;
    assert Time(ops[i]).value <= Time(ops[|ops| - 1]).value;
  }

  lemma SourcedCacheGrows(m: CacheState, ops: seq<Op>, op: Op)
    requires SourcedCache(m, ops)
    ensures SourcedCache(m, ops + [op])
  {
    hide Sourced;
    forall k | k in m ensures Sourced(m[k], k, ops + [op]) && StampedBefore(m[k], ops + [op]) {
      SourcedGrows(m[k], k, ops, op);
    }
  }

  /** One insertion at the end of a run; `since` is when the partial it feeds began. */
  lemma InsertSourced(m: CacheState, limits: Limits, ops: seq<Op>) returns (since: nat)
    requires ops != [] && ops[|ops| - 1].Insert? && Monotone(ops)
    requires CacheInv(m, limits) && SourcedCache(m, ops[..|ops| - 1])
    ensures var op := ops[|ops| - 1];
            var (n, r) := InsertFragment(m, limits, op.key, op.frag, op.data, op.proc, op.now);
            && SourcedCache(n, ops)
            && since <= op.now && (since == op.now || op.now - since < Window(limits))
            && (r.Complete? ==> CompletedFrom(r.completion, op.key, since, ops))
  {
    hide InsertFragment, InsertPartial, PartialInv, Sourced, CompletedFrom, Monotone, Normalize;
    var op, prefix := ops[|ops| - 1], ops[..|ops| - 1];
    assert ops == prefix + [op];
    SourcedCacheGrows(m, prefix, op);
    InsertRetention(m, limits, op.key, op.frag, op.data, op.proc, op.now);
    InsertOnKey(m, limits, op.key, op.frag, op.data, op.proc, op.now);
    var p, f := Current(m, op.key, op.now, limits.timeout), Normalize(op.frag, |op.data|);
    since := p.receivedAt;
    if op.key in m {
      ArrivedBefore(ops, m[op.key]);
    }
    if Oversized(f, limits).None? {
      InsertOneSourced(p, f.value, op, ops, limits);
    }
    var n := InsertFragment(m, limits, op.key, op.frag, op.data, op.proc, op.now).0;
    forall k | k in n ensures Sourced(n[k], k, ops) && StampedBefore(n[k], ops) {
    }
  }

  lemma InsertOneSourced(p: PartialState, f: Normalized, op: Op, ops: seq<Op>, limits: Limits)
    requires op.Insert? && Normalize(op.frag, |op.data|) == Some(f) && Oversized(Some(f), limits).None?
    requires p == Fresh(op.now) || (PartialInv(p, limits) && Sourced(p, op.key, ops) && op.now >= p.receivedAt)
    requires op in ops
    ensures var r := InsertPartial(p, f, op.data, op.proc, limits);
            && (r.Keep? ==> Sourced(r.next, op.key, ops) && r.next.receivedAt == p.receivedAt)
            && (r.Done? ==> CompletedFrom(r.completion, op.key, p.receivedAt, ops))
  {
    hide InsertPartial, CompletedFrom;
    FreshIsConsistent(op.now, limits);
    FreshIsSourced(op.now, op.key, ops);
    InsertPartialSourced(p, f, op, ops, limits);
  }

  lemma FreshIsSourced(now: nat, key: FragKey, ops: seq<Op>)
    ensures Sourced(Fresh(now), key, ops)
  {
  }

  lemma {:induction false} RunIsSourced(limits: Limits, ops: seq<Op>)
    requires Monotone(ops)
    ensures SourcedCache(Run(map[], limits, ops), ops)
  {
    hide Sourced, StampedBefore, InsertFragment, CacheInv;
    if ops != [] {
      var prefix, op := ops[..|ops| - 1], ops[|ops| - 1];
      assert Monotone(prefix);
      RunIsSourced(limits, prefix);
      ReachableCachesAreSound(limits, prefix);
      var m := Run(map[], limits, prefix);
      if op.Insert? {
        var _ := InsertSourced(m, limits, ops);
      } else {
        assert ops == prefix + [op];
        SourcedCacheGrows(m, prefix, op);
      }
    }
  }

  /** Under a clock that does not run backwards and a positive timeout, every byte of a
      completed datagram, and its UDP Length, arrived for the same key within a window
      strictly shorter than the timeout and than 120 seconds. */
  lemma CompletionsAreTimely(limits: Limits, ops: seq<Op>)
    requires Monotone(ops) && ops != [] && ops[|ops| - 1].Insert?
    requires limits.timeout > 0
    requires LastOutcome(limits, ops).Complete?
    ensures var c, last := LastOutcome(limits, ops).completion, ops[|ops| - 1];
            exists since: nat :: since <= last.now < since + Window(limits) && CompletedFrom(c, last.key, since, ops)
  {
    hide CompletedFrom, InsertFragment, SourcedCache, CacheInv, Run;
    var prefix := ops[..|ops| - 1];
    assert Monotone(prefix);
    RunIsSourced(limits, prefix);
    ReachableCachesAreSound(limits, prefix);
    var since := InsertSourced(Run(map[], limits, prefix), limits, ops);
    assert since <= ops[|ops| - 1].now < since + Window(limits);
  }

  /** When a partial expires: after the timeout or 120 seconds, whichever is shorter, counted
      from its first fragment. */
  lemma ExpiredIff(p: PartialState, now: nat, timeout: nat)
    ensures Expired(p, now, timeout)
       <==> timeout == 0 || now >= p.receivedAt + timeout || now >= p.receivedAt + 120_000_000_000
  {
  }

  /** A zero timeout is why positive is needed: nothing outlives the next insertion, so
      only a fragment that is a whole datagram completes. */
  lemma ZeroTimeoutKeepsNothing(m: CacheState, limits: Limits, key: FragKey, frag: FragOption, data: seq<u8>,
                                proc: Processing, now: nat)
    requires limits.timeout == 0
    ensures InsertFragment(m, limits, key, frag, data, proc, now)
         == InsertFragment(map[], limits, key, frag, data, proc, now)
  {
    hide InsertPartial;
    assert Gc(m, now, 0) == map[] == Gc(map[], now, 0);
  }
}
