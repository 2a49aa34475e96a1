/** Feeding the fragments of one datagram into a cache that serves other traffic too. */
module DeliveryRuns {
  import opened Bytes
  import opened OptionKinds
  import opened FragSplit
  import opened Reassembly
  import opened ReassemblyInvariant
  import opened ReassemblyRuns
  import opened FragmentDelivery

  /** One arrival, given which fragments are already in. */
  lemma Arrives(m: CacheState, limits: Limits, key: FragKey, s: Sent, got: set<nat>, i: nat, now: nat)
    requires WellSent(s) && RoomFor(s, limits) && i < |s.ranges|
    requires Got(Current(m, key, now, limits.timeout), s, got, limits)
    requires key in Gc(m, now, limits.timeout) || |Gc(m, now, limits.timeout)| < limits.maxPending || |s.ranges| == 1
    ensures var (n, r) := InsertFragment(m, limits, key, FragHeader(s, i, key.identification), Data(s, i), s.procs[i], now);
            if got + {i} == All(|s.ranges|) then r.Complete? && Delivers(r.completion, s) && key !in n
            else && r == Incomplete && key in n && Got(n[key], s, got + {i}, limits)
                 && n[key].receivedAt == Current(m, key, now, limits.timeout).receivedAt
  {
    hide InsertPartial, Got, Delivers, Place;
    var p := Current(m, key, now, limits.timeout);
    FragmentPlace(s, i, key.identification);
    PlaceFits(s, i, limits);
    NextFragment(p, s, got, i, limits);
    if key !in Gc(m, now, limits.timeout) && |s.ranges| == 1 {
      FreshHasNothing(now, s, got, limits);
      assert {} + {i} == All(1);
    }
  }

  lemma PlaceFits(s: Sent, i: nat, limits: Limits)
    requires WellSent(s) && RoomFor(s, limits) && i < |s.ranges|
    ensures Oversized(Some(Place(s, i)), limits).None?
  {
    assert s.ranges[i].start <= s.ranges[i].end <= |s.tail|;
  }

  lemma FreshHasNothing(now: nat, s: Sent, got: set<nat>, limits: Limits)
    requires WellSent(s) && Got(Fresh(now), s, got, limits)
    ensures got == {}
  {
    hide LenSum, SegmentsAre, Accumulates, PartialInv;
  }

  datatype Event = Arrival(i: nat, now: nat) | Traffic(op: Op)

  /** Arrivals of this datagram and operations on other keys, all before a deadline. */
  predicate InTime(e: Event, key: FragKey, s: Sent, deadline: nat) {
    match e
    case Arrival(i, now) => i < |s.ranges| && now < deadline
    case Traffic(op) => (op.Insert? || op.Discard? ==> op.key != key) && (!op.Discard? ==> op.now < deadline)
  }

  function Step(m: CacheState, limits: Limits, key: FragKey, s: Sent, e: Event): CacheState
    requires WellSent(s)
  {
    match e
    case Arrival(i, now) =>
      if i < |s.ranges| then
        InsertFragment(m, limits, key, FragHeader(s, i, key.identification), Data(s, i), s.procs[i], now).0
      else m
    case Traffic(op) => Apply(m, limits, op)
  }

  function After(m: CacheState, limits: Limits, key: FragKey, s: Sent, events: seq<Event>): CacheState
    requires WellSent(s)
  {
    if events == [] then m
    else Step(After(m, limits, key, s, events[..|events| - 1]), limits, key, s, events[|events| - 1])
  }

  function Indices(events: seq<Event>): set<nat> {
    if events == [] then {}
    else
      Indices(events[..|events| - 1]) + IndexIn(events[|events| - 1])
  }

  lemma OtherTrafficIsHarmless(m: CacheState, limits: Limits, key: FragKey, op: Op, s: Sent, deadline: nat)
    requires key in m && deadline == m[key].receivedAt + Window(limits) && limits.timeout > 0
    requires InTime(Traffic(op), key, s, deadline)
    ensures key in Apply(m, limits, op) && Apply(m, limits, op)[key] == m[key]
  {
    hide InsertFragment;
    if op.Insert? {
      InsertRetention(m, limits, op.key, op.frag, op.data, op.proc, op.now);
    }
  }

  function IndexIn(e: Event): set<nat> {
    if e.Arrival? then {e.i} else {}
  }

  lemma WaitStep(m: CacheState, limits: Limits, key: FragKey, s: Sent, got: set<nat>, e: Event)
    requires WellSent(s) && RoomFor(s, limits) && limits.timeout > 0
    requires key in m && Got(m[key], s, got, limits)
    requires InTime(e, key, s, m[key].receivedAt + Window(limits))
    requires got + IndexIn(e) != All(|s.ranges|)
    ensures var n := Step(m, limits, key, s, e);
            key in n && Got(n[key], s, got + IndexIn(e), limits) && n[key].receivedAt == m[key].receivedAt
  {
    hide Got, InsertFragment, Apply, WellSent, Delivers, All;
    match e
    case Arrival(i, now) =>
      Arrives(m, limits, key, s, got, i, now);
    case Traffic(op) =>
      OtherTrafficIsHarmless(m, limits, key, op, s, m[key].receivedAt + Window(limits));
      assert got + IndexIn(e) == got;
  }

  /** While a fragment is missing and time remains, the partial holds exactly what has
      arrived, in any order, with any duplicates and among any other traffic. */
  lemma {:induction false} Waiting(m: CacheState, limits: Limits, key: FragKey, s: Sent, got: set<nat>, events: seq<Event>)
    requires WellSent(s) && RoomFor(s, limits) && limits.timeout > 0
    requires key in m && Got(m[key], s, got, limits)
    requires forall j :: 0 <= j < |events| ==> InTime(events[j], key, s, m[key].receivedAt + Window(limits))
    requires got + Indices(events) != All(|s.ranges|)
    ensures var n := After(m, limits, key, s, events);
            key in n && Got(n[key], s, got + Indices(events), limits) && n[key].receivedAt == m[key].receivedAt
  {
    hide Got, Step, InTime, WellSent, RoomFor, All;
    if events == [] {
      assert got + Indices(events) == got;
    } else {
      var prefix, e := events[..|events| - 1], events[|events| - 1];
      IndicesInRange(m, key, s, got, limits, events);
      assert forall j :: 0 <= j < |prefix| ==> prefix[j] == events[j];
      Waiting(m, limits, key, s, got, prefix);
      assert (got + Indices(prefix)) + IndexIn(e) == got + Indices(events);
      WaitStep(After(m, limits, key, s, prefix), limits, key, s, got + Indices(prefix), e);
    }
  }

  lemma IndicesInRange(m: CacheState, key: FragKey, s: Sent, got: set<nat>, limits: Limits, events: seq<Event>)
    requires WellSent(s) && key in m && Got(m[key], s, got, limits) && events != []
    requires forall j :: 0 <= j < |events| ==> InTime(events[j], key, s, m[key].receivedAt + Window(limits))
    requires got + Indices(events) != All(|s.ranges|)
    ensures got + Indices(events[..|events| - 1]) != All(|s.ranges|)
  {
    hide LenSum, SegmentsAre, Accumulates, PartialInv, InTime, WellSent;
    IndicesBelow(events, key, s, m[key].receivedAt + Window(limits));
    assert Indices(events[..|events| - 1]) <= Indices(events);
  }

  lemma {:induction false} IndicesBelow(events: seq<Event>, key: FragKey, s: Sent, deadline: nat)
    requires forall j :: 0 <= j < |events| ==> InTime(events[j], key, s, deadline)
    ensures Indices(events) <= All(|s.ranges|)
  {
    if events != [] {
      IndicesBelow(events[..|events| - 1], key, s, deadline);
    }
  }

  /** The first fragment of a datagram the cache does not know: alone it completes the
      datagram, in which case it needs no room, otherwise it starts the clock. */
  lemma FirstArrives(m: CacheState, limits: Limits, key: FragKey, s: Sent, first: nat, start: nat)
    requires WellSent(s) && RoomFor(s, limits) && first < |s.ranges|
    requires key !in Gc(m, start, limits.timeout)
    requires |Gc(m, start, limits.timeout)| < limits.maxPending || |s.ranges| == 1
    ensures var (n, r) := InsertFragment(m, limits, key, FragHeader(s, first, key.identification), Data(s, first),
                                         s.procs[first], start);
            if {first} == All(|s.ranges|) then r.Complete? && Delivers(r.completion, s) && key !in n
            else r == Incomplete && key in n && Got(n[key], s, {first}, limits) && n[key].receivedAt == start
  {
    hide Got, InsertFragment, Delivers, All;
    NothingGot(start, s, limits);
    assert Current(m, key, start, limits.timeout) == Fresh(start);
    assert {} + {first} == {first};
    Arrives(m, limits, key, s, {}, first, start);
  }

  lemma StepInserts(m: CacheState, limits: Limits, key: FragKey, s: Sent, i: nat, now: nat)
    requires WellSent(s) && i < |s.ranges|
    ensures |s.procs| == |s.ranges|
    ensures Step(m, limits, key, s, Arrival(i, now))
         == InsertFragment(m, limits, key, FragHeader(s, i, key.identification), Data(s, i), s.procs[i], now).0
  {
    hide InsertFragment, FragHeader, Data;
  }

  lemma FirstIsNotAll(first: nat, events: seq<Event>, n: nat)
    requires first < n && Indices(events) <= All(n) && {first} + Indices(events) != All(n)
    ensures {first} != All(n)
  {
  }

  /** An arrival while something is missing. */
  lemma LaterArrives(m: CacheState, limits: Limits, key: FragKey, s: Sent, got: set<nat>, events: seq<Event>, i: nat, now: nat)
    requires WellSent(s) && RoomFor(s, limits) && limits.timeout > 0 && i < |s.ranges|
    requires key in m && Got(m[key], s, got, limits)
    requires forall j :: 0 <= j < |events| ==> InTime(events[j], key, s, m[key].receivedAt + Window(limits))
    requires now < m[key].receivedAt + Window(limits)
    requires got + Indices(events) != All(|s.ranges|)
    ensures var n := After(m, limits, key, s, events);
            var (k, r) := InsertFragment(n, limits, key, FragHeader(s, i, key.identification), Data(s, i), s.procs[i], now);
            if got + Indices(events) + {i} == All(|s.ranges|) then r.Complete? && Delivers(r.completion, s) && key !in k
            else r == Incomplete && key in k
  {
    hide Got, InsertFragment, Delivers, InTime, WellSent, RoomFor, After, FragHeader, Data, All;
    Waiting(m, limits, key, s, got, events);
    var n := After(m, limits, key, s, events);
    assert Current(n, key, now, limits.timeout) == n[key];
    Arrives(n, limits, key, s, got + Indices(events), i, now);
  }

  /** Exact completion. From a key the cache does not know, a datagram in one fragment
      completes at once. Otherwise, with room for one more partial, the first fragment
      starts the clock, and from then on every arrival is answered with `Incomplete` until
      the last missing distinct fragment, which yields exactly the datagram and frees the
      key. */
  lemma ExactCompletion(m: CacheState, limits: Limits, key: FragKey, s: Sent, first: nat, start: nat,
                        events: seq<Event>, i: nat, now: nat)
    requires WellSent(s) && RoomFor(s, limits) && limits.timeout > 0
    requires first < |s.ranges| && i < |s.ranges|
    requires key !in Gc(m, start, limits.timeout)
    requires |Gc(m, start, limits.timeout)| < limits.maxPending || |s.ranges| == 1
    requires forall j :: 0 <= j < |events| ==> InTime(events[j], key, s, start + Window(limits))
    requires now < start + Window(limits)
    ensures var (begun, r) := InsertFragment(m, limits, key, FragHeader(s, first, key.identification), Data(s, first),
                                             s.procs[first], start);
            if {first} == All(|s.ranges|) then r.Complete? && Delivers(r.completion, s) && key !in begun
            else r == Incomplete && key in begun
    ensures {first} + Indices(events) != All(|s.ranges|) ==>
              var begun := Step(m, limits, key, s, Arrival(first, start));
              var n := After(begun, limits, key, s, events);
              var (k, r) := InsertFragment(n, limits, key, FragHeader(s, i, key.identification), Data(s, i), s.procs[i], now);
              if {first} + Indices(events) + {i} == All(|s.ranges|) then r.Complete? && Delivers(r.completion, s) && key !in k
              else r == Incomplete && key in k
  {
    hide *;
    FirstArrives(m, limits, key, s, first, start);
    StepInserts(m, limits, key, s, first, start);
    IndicesBelow(events, key, s, start + Window(limits));
    if {first} + Indices(events) != All(|s.ranges|) {
      FirstIsNotAll(first, events, |s.ranges|);
      LaterArrives(Step(m, limits, key, s, Arrival(first, start)), limits, key, s, {first}, events, i, now);
    }
  }
}
