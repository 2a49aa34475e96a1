/** The reassembly cache: what one fragment does to a partial datagram and to the
    cache, first as functions on values, then as the mutable objects. */
module Reassembly {
  import opened Bytes
  import opened OptionKinds

  /** Instants and durations count nanoseconds. */
  const TIMEOUT_MAX: nat := 120_000_000_000

  datatype FragKey = FragKey(src: Addr, dst: Addr, srcPort: u16, dstPort: u16, identification: u32)

  datatype Limits = Limits(maxSize: nat, maxSegments: nat, maxPending: nat, timeout: nat)

  datatype AbortReason = Overlap | LimitExceeded

  datatype Segment = Segment(start: nat, end: nat, data: seq<u8>, options: seq<RawOption>, failures: seq<OptionKind>)

  /** What the pipeline learned from one fragment besides its data. */
  datatype Processing = Processing(options: seq<RawOption>, failures: seq<OptionKind>, ocsNonzero: Option<bool>)

  datatype Normalized = Normalized(start: nat, end: nat, udpLength: Option<u16>)

  datatype Completion = Completion(tail: seq<u8>, udpLength: u16, options: seq<RawOption>,
                                   failures: seq<OptionKind>, ocsNonzero: Option<bool>)

  datatype Outcome = Incomplete | Complete(completion: Completion) | Abort(reason: AbortReason)

  // ---- options coalesced over fragments ----

  datatype FragmentOptions = FragmentOptions(mds: Option<u16>, mrdsSize: Option<u16>, mrdsSegments: Option<u8>,
                                             req: Option<seq<u8>>, res: Option<seq<u8>>)

  const NO_OPTIONS: FragmentOptions := FragmentOptions(None, None, None, None, None)

  function Least(known: Option<nat>, v: nat): (r: nat)
    ensures r <= v
  {
    if known.None? then v else Min(known.value, v)
  }

  function ObserveOne(fo: FragmentOptions, o: RawOption): FragmentOptions {
    match o.kind
    case Mds => if |o.value| == 2 then fo.(mds := Some(Least(fo.mds, U16At(o.value, 0)))) else fo
    case Mrds =>
      if |o.value| == 3 then
        fo.(mrdsSize := Some(Least(fo.mrdsSize, U16At(o.value, 0))),
            mrdsSegments := Some(Least(fo.mrdsSegments, o.value[2])))
      else fo
    case Req => if |o.value| == 4 then fo.(req := Some(o.value)) else fo
    case Res => if |o.value| == 4 then fo.(res := Some(o.value)) else fo
    case _ => fo
  }

  function Observe(fo: FragmentOptions, options: seq<RawOption>): FragmentOptions
    decreases options
  {
    if options == [] then fo else Observe(ObserveOne(fo, options[0]), options[1..])
  }

  method ObserveLoop(fo: FragmentOptions, options: seq<RawOption>) returns (r: FragmentOptions)
    ensures r == Observe(fo, options)
  {
    r := fo;
    for i := 0 to |options|
      invariant Observe(r, options[i..]) == Observe(fo, options)
    {
      assert options[i..][1..] == options[i + 1..];
      r := ObserveOne(r, options[i]);
    }
  }

  function ToRawOptions(fo: FragmentOptions): seq<RawOption> {
    (if fo.mds.Some? then [RawOption(Mds, U16Bytes(fo.mds.value))] else [])
    + (if fo.mrdsSize.Some? && fo.mrdsSegments.Some?
       then [RawOption(Mrds, U16Bytes(fo.mrdsSize.value) + [fo.mrdsSegments.value])] else [])
    + (if fo.req.Some? then [RawOption(Req, fo.req.value)] else [])
    + (if fo.res.Some? then [RawOption(Res, fo.res.value)] else [])
  }

  function ObserveFailures(kinds: seq<OptionKind>, failures: seq<OptionKind>): seq<OptionKind>
    decreases failures
  {
    if failures == [] then kinds
    else ObserveFailures(if failures[0] in kinds then kinds else kinds + [failures[0]], failures[1..])
  }

  method ObserveFailuresLoop(kinds: seq<OptionKind>, failures: seq<OptionKind>) returns (r: seq<OptionKind>)
    ensures r == ObserveFailures(kinds, failures)
  {
    r := kinds;
    for i := 0 to |failures|
      invariant ObserveFailures(r, failures[i..]) == ObserveFailures(kinds, failures)
    {
      assert failures[i..][1..] == failures[i + 1..];
      if failures[i] !in r {
        r := r + [failures[i]];
      }
    }
  }

  function ObserveOcs(acc: Option<bool>, current: Option<bool>): Option<bool> {
    if acc.Some? && current.Some? then Some(acc.value || current.value) else None
  }

  // ---- one partial datagram ----

  datatype PartialState = PartialState(
    segments: seq<Segment>, terminalEnd: Option<nat>, udpLength: Option<u16>, fragmentCount: nat, byteTotal: nat,
    fragmentOptions: FragmentOptions, optionFailures: seq<OptionKind>, ocsNonzero: Option<bool>,
    emptyTerminalOptions: Option<seq<RawOption>>, emptyTerminalFailures: Option<seq<OptionKind>>, receivedAt: nat)

  function Fresh(now: nat): PartialState {
    PartialState([], None, None, 0, 0, NO_OPTIONS, [], Some(false), None, None, now)
  }

  /** Time differences saturate at zero. */
  function Elapsed(now: nat, since: nat): nat {
    if now >= since then now - since else 0
  }

  predicate Expired(p: PartialState, now: nat, timeout: nat) {
    Elapsed(now, p.receivedAt) >= Min(timeout, TIMEOUT_MAX)
  }

  function Normalize(frag: FragOption, dataLen: nat): Option<Normalized> {
    if frag.fragOffset == 0 && frag.rdos.Some? then Some(Normalized(0, dataLen, frag.rdos))
    else if frag.fragOffset < 8 then None
    else Some(Normalized(frag.fragOffset - 8, frag.fragOffset - 8 + dataLen, frag.rdos))
  }

  predicate SameSegment(s: Segment, f: Normalized, data: seq<u8>, proc: Processing) {
    s.start == f.start && s.end == f.end && s.data == data && s.options == proc.options && s.failures == proc.failures
  }

  predicate IsExactDuplicate(p: PartialState, f: Normalized, data: seq<u8>, proc: Processing) {
    if f.udpLength.Some? && (p.udpLength != f.udpLength || p.terminalEnd != Some(f.end)) then false
    else if f.udpLength.Some? && data == [] then
      p.emptyTerminalOptions == Some(proc.options) && p.emptyTerminalFailures == Some(proc.failures)
    else exists i :: 0 <= i < |p.segments| && SameSegment(p.segments[i], f, data, proc)
  }

  predicate Overlaps(segs: seq<Segment>, start: nat, end: nat) {
    start < end && exists i :: 0 <= i < |segs| && start < segs[i].end && segs[i].start < end
  }

  predicate AnyBeyond(segs: seq<Segment>, end: nat) {
    exists i :: 0 <= i < |segs| && segs[i].end > end
  }

  /** Records or checks the terminal metadata of a fragment; `None` is a clash. */
  function NoteTerminal(p: PartialState, f: Normalized, data: seq<u8>, proc: Processing): Option<PartialState> {
    if f.udpLength.None? then Some(p)
    else if f.udpLength.value < 8 || f.udpLength.value - 8 > f.end then None
    else if p.terminalEnd.None? && p.udpLength.None? then
      if AnyBeyond(p.segments, f.end) then None
      else
        var q := p.(terminalEnd := Some(f.end), udpLength := f.udpLength);
        Some(if data != [] then q
             else q.(emptyTerminalOptions := Some(proc.options), emptyTerminalFailures := Some(proc.failures)))
    else if p.terminalEnd == Some(f.end) && p.udpLength == f.udpLength then
      if data == [] && (p.emptyTerminalOptions != Some(proc.options) || p.emptyTerminalFailures != Some(proc.failures))
      then None else Some(p)
    else None
  }

  function InsertionIndex(segs: seq<Segment>, start: nat): (i: nat)
    ensures i <= |segs|
  {
    if segs == [] || segs[0].start >= start then 0 else 1 + InsertionIndex(segs[1..], start)
  }

  function InsertSegment(segs: seq<Segment>, s: Segment): (r: seq<Segment>)
    ensures |r| == |segs| + 1
  {
    var i := InsertionIndex(segs, s.start);
    segs[..i] + [s] + segs[i..]
  }

  /** The partial with an admitted fragment counted and stored. */
  function Store(p: PartialState, f: Normalized, data: seq<u8>, proc: Processing): PartialState {
    p.(fragmentCount := p.fragmentCount + 1,
       byteTotal := p.byteTotal + |data|,
       fragmentOptions := Observe(p.fragmentOptions, proc.options),
       optionFailures := ObserveFailures(p.optionFailures, proc.failures),
       ocsNonzero := ObserveOcs(p.ocsNonzero, proc.ocsNonzero),
       segments := if data == [] then p.segments
                   else InsertSegment(p.segments, Segment(f.start, f.end, data, proc.options, proc.failures)))
  }

  datatype Walked = Gap | Clash | Reached(cursor: nat)

  /** The cursor walk over the sorted segments. */
  function Walk(segs: seq<Segment>, cursor: nat): Walked {
    if segs == [] then Reached(cursor)
    else if segs[0].start > cursor then Gap
    else if segs[0].start < cursor then Clash
    else Walk(segs[1..], segs[0].end)
  }

  function Concat(segs: seq<Segment>): seq<u8> {
    if segs == [] then [] else segs[0].data + Concat(segs[1..])
  }

  datatype InsertResult = Keep(next: PartialState) | Done(completion: Completion) | Drop(reason: AbortReason)

  function Finished(p: PartialState): InsertResult {
    if p.terminalEnd.None? || p.udpLength.None? then Keep(p)
    else
      match Walk(p.segments, 0)
      case Gap => Keep(p)
      case Clash => Drop(Overlap)
      case Reached(cursor) =>
        if cursor != p.terminalEnd.value then Keep(p)
        else Done(Completion(Concat(p.segments), p.udpLength.value, ToRawOptions(p.fragmentOptions),
                             p.optionFailures, p.ocsNonzero))
  }

  function InsertPartial(p: PartialState, f: Normalized, data: seq<u8>, proc: Processing, limits: Limits): InsertResult {
    if IsExactDuplicate(p, f, data, proc) then Keep(p.(ocsNonzero := ObserveOcs(p.ocsNonzero, proc.ocsNonzero)))
    else if p.fragmentCount + 1 > limits.maxSegments then Drop(LimitExceeded)
    else if p.byteTotal + |data| + 8 > limits.maxSize then Drop(LimitExceeded)
    else if Overlaps(p.segments, f.start, f.end) then Drop(Overlap)
    else if p.terminalEnd.Some? && f.end > p.terminalEnd.value then Drop(Overlap)
    else
      var q := NoteTerminal(p, f, data, proc);
      if q.None? then Drop(Overlap) else Finished(Store(q.value, f, data, proc))
  }

  // ---- the cache ----

  type CacheState = map<FragKey, PartialState>

  function Gc(m: CacheState, now: nat, timeout: nat): CacheState {
    map k | k in m && !Expired(m[k], now, timeout) :: m[k]
  }

  function InsertUnretained(f: Normalized, data: seq<u8>, proc: Processing, now: nat, limits: Limits): Outcome {
    match InsertPartial(Fresh(now), f, data, proc, limits)
    case Keep(_) => Abort(LimitExceeded)
    case Done(c) => Complete(c)
    case Drop(r) => Abort(r)
  }

  function InsertKnown(m: CacheState, key: FragKey, p: PartialState, f: Normalized, data: seq<u8>, proc: Processing,
                       limits: Limits): (CacheState, Outcome)
  {
    match InsertPartial(p, f, data, proc, limits)
    case Keep(q) => (m[key := q], Incomplete)
    case Done(c) => (m - {key}, Complete(c))
    case Drop(r) => (m - {key}, Abort(r))
  }

  /** The complaint about a fragment that needs no look at stored state. */
  function Oversized(f: Option<Normalized>, limits: Limits): (r: Option<AbortReason>)
    ensures r.None? ==> f.Some?
  {
    if f.None? then Some(Overlap)
    else if f.value.udpLength.Some? && f.value.udpLength.value > limits.maxSize then Some(LimitExceeded)
    else if 8 + f.value.end > limits.maxSize then Some(LimitExceeded)
    else None
  }

  function InsertFragment(m: CacheState, limits: Limits, key: FragKey, frag: FragOption, data: seq<u8>,
                          proc: Processing, now: nat): (CacheState, Outcome)
  {
    var g := Gc(m, now, limits.timeout);
    var f := Normalize(frag, |data|);
    var bad := Oversized(f, limits);
    if bad.Some? then (g - {key}, Abort(bad.value))
    else if key !in g && |g| >= limits.maxPending then (g, InsertUnretained(f.value, data, proc, now, limits))
    else InsertKnown(g, key, if key in g then g[key] else Fresh(now), f.value, data, proc, limits)
  }

  // ---- the mutable objects ----

  class Partial {
    var segments: seq<Segment>
    var terminalEnd: Option<nat>
    var udpLength: Option<u16>
    var fragmentCount: nat
    var byteTotal: nat
    var fragmentOptions: FragmentOptions
    var optionFailures: seq<OptionKind>
    var ocsNonzero: Option<bool>
    var emptyTerminalOptions: Option<seq<RawOption>>
    var emptyTerminalFailures: Option<seq<OptionKind>>
    var receivedAt: nat

    ghost function State(): PartialState
      reads this
    {
      PartialState(segments, terminalEnd, udpLength, fragmentCount, byteTotal, fragmentOptions, optionFailures,
                   ocsNonzero, emptyTerminalOptions, emptyTerminalFailures, receivedAt)
    }

    constructor (now: nat)
      ensures State() == Fresh(now)
    {
      segments, terminalEnd, udpLength, fragmentCount, byteTotal := [], None, None, 0, 0;
      fragmentOptions, optionFailures, ocsNonzero := NO_OPTIONS, [], Some(false);
      emptyTerminalOptions, emptyTerminalFailures, receivedAt := None, None, now;
    }

    predicate IsExpired(now: nat, timeout: nat)
      reads this
      ensures IsExpired(now, timeout) == Expired(State(), now, timeout)
    {
      Elapsed(now, receivedAt) >= Min(timeout, TIMEOUT_MAX)
    }

    method HasDuplicate(f: Normalized, data: seq<u8>, proc: Processing) returns (b: bool)
      ensures b == IsExactDuplicate(State(), f, data, proc)
    {
      if f.udpLength.Some? {
        if udpLength != f.udpLength || terminalEnd != Some(f.end) {
          return false;
        }
        if data == [] {
          return emptyTerminalOptions == Some(proc.options) && emptyTerminalFailures == Some(proc.failures);
        }
      }
      b := exists i :: 0 <= i < |segments| && SameSegment(segments[i], f, data, proc);
    }

    /** Walks the cursor over the segments and, when it reaches the terminal end,
        joins their data. */
    method CompleteNow() returns (r: Outcome)
      ensures r == AsOutcome(Finished(State()))
    {
      if terminalEnd.None? || udpLength.None? {
        return Incomplete;
      }
      var cursor := 0;
      for i := 0 to |segments|
        invariant Walk(segments, 0) == Walk(segments[i..], cursor)
      {
        assert segments[i..][1..] == segments[i + 1..];
        if segments[i].start > cursor {
          return Incomplete;
        }
        if segments[i].start < cursor {
          return Abort(Overlap);
        }
        cursor := segments[i].end;
      }
      if cursor != terminalEnd.value {
        return Incomplete;
      }
      var tail := [];
      for i := 0 to |segments|
        invariant tail + Concat(segments[i..]) == Concat(segments)
      {
        assert segments[i..][1..] == segments[i + 1..];
        tail := tail + segments[i].data;
      }
      r := Complete(Completion(tail, udpLength.value, ToRawOptions(fragmentOptions), optionFailures, ocsNonzero));
    }

    /** Records the terminal metadata; false when it contradicts what is known. */
    method RecordTerminal(f: Normalized, data: seq<u8>, proc: Processing) returns (ok: bool)
      modifies this
      ensures ok == NoteTerminal(old(State()), f, data, proc).Some?
      ensures ok ==> State() == NoteTerminal(old(State()), f, data, proc).value
    {
      if f.udpLength.None? {
        return true;
      }
      if f.udpLength.value < 8 || f.udpLength.value - 8 > f.end {
        return false;
      }
      if terminalEnd.None? && udpLength.None? {
        terminalEnd, udpLength := Some(f.end), f.udpLength;
        if data == [] {
          emptyTerminalOptions, emptyTerminalFailures := Some(proc.options), Some(proc.failures);
        }
        return !AnyBeyond(segments, f.end);
      }
      if terminalEnd == Some(f.end) && udpLength == f.udpLength {
        return !(data == [] && (emptyTerminalOptions != Some(proc.options) || emptyTerminalFailures != Some(proc.failures)));
      }
      ok := false;
    }

    method StoreFragment(f: Normalized, data: seq<u8>, proc: Processing)
      modifies this
      ensures State() == Store(old(State()), f, data, proc)
    {
      hide Observe, ObserveFailures, InsertionIndex, ObserveOcs;
      fragmentCount := fragmentCount + 1;
      byteTotal := byteTotal + |data|;
      fragmentOptions := ObserveLoop(fragmentOptions, proc.options);
      optionFailures := ObserveFailuresLoop(optionFailures, proc.failures);
      ocsNonzero := ObserveOcs(ocsNonzero, proc.ocsNonzero);
      if data != [] {
        var index := InsertionIndex(segments, f.start);
        segments := segments[..index] + [Segment(f.start, f.end, data, proc.options, proc.failures)] + segments[index..];
      }
    }

    method Insert(f: Normalized, data: seq<u8>, proc: Processing, limits: Limits) returns (r: Outcome)
      modifies this
      ensures r == AsOutcome(InsertPartial(old(State()), f, data, proc, limits))
      ensures r == Incomplete ==> State() == InsertPartial(old(State()), f, data, proc, limits).next
    {
      var duplicate := HasDuplicate(f, data, proc);
      if duplicate {
        ocsNonzero := ObserveOcs(ocsNonzero, proc.ocsNonzero);
        return Incomplete;
      }
      if fragmentCount + 1 > limits.maxSegments {
        return Abort(LimitExceeded);
      }
      if byteTotal + |data| + 8 > limits.maxSize {
        return Abort(LimitExceeded);
      }
      if Overlaps(segments, f.start, f.end) {
        return Abort(Overlap);
      }
      if terminalEnd.Some? && f.end > terminalEnd.value {
        return Abort(Overlap);
      }
      var ok := RecordTerminal(f, data, proc);
      if !ok {
        return Abort(Overlap);
      }
      StoreFragment(f, data, proc);
      r := CompleteNow();
    }
  }

  function AsOutcome(r: InsertResult): Outcome {
    match r
    case Keep(_) => Incomplete
    case Done(c) => Complete(c)
    case Drop(reason) => Abort(reason)
  }

  /** The cache. `state` is its abstract value, kept up to date by every method. */
  class ReassemblyCache {
    var partials: map<FragKey, Partial>
    const limits: Limits
    ghost var state: CacheState
    ghost var owner: map<Partial, FragKey>

    /** Each key owns its own partial, and the partials hold the abstract value. */
    ghost predicate Valid()
      reads this, owner.Keys
    {
      && partials.Keys == state.Keys
      && forall k :: k in partials ==>
           partials[k] in owner && owner[partials[k]] == k && partials[k].State() == state[k]
    }

    constructor (limits: Limits)
      ensures Valid() && state == map[] && this.limits == limits && owner == map[]
    {
      this.limits := limits;
      partials, state, owner := map[], map[], map[];
    }

    method Collect(now: nat)
      requires Valid()
      modifies this
      ensures Valid() && state == Gc(old(state), now, limits.timeout) && owner == old(owner)
    {
      partials := map k | k in partials && !partials[k].IsExpired(now, limits.timeout) :: partials[k];
      state := Gc(state, now, limits.timeout);
    }

    /** Valid but for the value of one partial, which is being changed. */
    ghost predicate ValidExcept(key: FragKey)
      reads this, owner.Keys
    {
      && partials.Keys == state.Keys
      && (forall k :: k in partials ==> partials[k] in owner && owner[partials[k]] == k)
      && (forall k :: k in partials && k != key ==> partials[k].State() == state[k])
    }

    /** Removes a key, whatever its partial has become. */
    method Discard(key: FragKey)
      requires ValidExcept(key)
      modifies this
      ensures Valid() && owner == old(owner) && state == old(state) - {key}
    {
      partials := partials - {key};
      state := state - {key};
    }

    /** Takes note of what the partial of a key has become. */
    ghost method Refresh(key: FragKey)
      requires ValidExcept(key) && key in partials
      modifies this`state
      ensures Valid() && state == old(state)[key := partials[key].State()]
    {
      state := state[key := partials[key].State()];
    }

    method InsertWithoutRetaining(f: Normalized, data: seq<u8>, proc: Processing, now: nat) returns (r: Outcome)
      ensures r == InsertUnretained(f, data, proc, now, limits)
    {
      hide InsertPartial;
      var partial := new Partial(now);
      r := partial.Insert(f, data, proc, limits);
      if r == Incomplete {
        r := Abort(LimitExceeded);
      }
    }

    /** Starts an empty partial for a key that has none. */
    method Start(key: FragKey, now: nat)
      requires Valid() && key !in partials
      modifies this
      ensures Valid() && key in partials && fresh(partials[key]) && owner == old(owner)[partials[key] := key]
      ensures state == old(state)[key := Fresh(now)]
    {
      var partial := new Partial(now);
      partials := partials[key := partial];
      state := state[key := Fresh(now)];
      owner := owner[partial := key];
    }

    /** Inserts into the partial of a key that is already present. */
    method InsertPresent(key: FragKey, f: Normalized, data: seq<u8>, proc: Processing) returns (r: Outcome)
      requires Valid() && key in partials
      modifies this, partials[key]
      ensures Valid() && owner == old(owner)
      ensures (state, r) == InsertKnown(old(state), key, old(state[key]), f, data, proc, limits)
    {
      hide InsertPartial;
      var partial := partials[key];
      ghost var result := InsertPartial(state[key], f, data, proc, limits);
      r := partial.Insert(f, data, proc, limits);
      assert ValidExcept(key);
      if r == Incomplete {
        Refresh(key);
      } else {
        Discard(key);
      }
    }

    method Insert(key: FragKey, frag: FragOption, data: seq<u8>, proc: Processing, now: nat) returns (r: Outcome)
      requires Valid()
      modifies this, owner.Keys
      ensures Valid() && fresh(owner.Keys - old(owner.Keys))
      ensures (state, r) == InsertFragment(old(state), limits, key, frag, data, proc, now)
    {
      hide InsertKnown, InsertUnretained, Gc, Normalize, Oversized;
      Collect(now);
      ghost var g := state;
      assert |g| == |g.Keys| == |partials|;
      var f := Normalize(frag, |data|);
      var bad := Oversized(f, limits);
      if bad.Some? {
        Discard(key);
        return Abort(bad.value);
      }
      if key !in partials {
        if |partials| >= limits.maxPending {
          r := InsertWithoutRetaining(f.value, data, proc, now);
          return;
        }
        Start(key, now);
        InsertKnownStart(g, key, f.value, data, proc, limits, now);
      }
      r := InsertPresent(key, f.value, data, proc);
    }
  }

  /** Starting the partial first makes no difference to the insertion. */
  lemma InsertKnownStart(g: CacheState, key: FragKey, f: Normalized, data: seq<u8>, proc: Processing, limits: Limits, now: nat)
    ensures InsertKnown(g[key := Fresh(now)], key, Fresh(now), f, data, proc, limits)
         == InsertKnown(g, key, Fresh(now), f, data, proc, limits)
  {
    hide InsertPartial;
    var h := g[key := Fresh(now)];
    assert h - {key} == g - {key};
    match InsertPartial(Fresh(now), f, data, proc, limits)
    case Keep(q) => assert h[key := q] == g[key := q];
    case Done(_) =>
    case Drop(_) =>
  }
}
