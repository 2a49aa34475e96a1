/** Cutting one logical datagram into FRAG fragments (section 11.4 of RFC 9868). */
module FragSplit {
  import opened Bytes
  import opened OptionKinds
  import opened Assembly

  const FRAGMENT_SURPLUS_LEN_MAX: nat := 0xFFFF - 20 - 8
  const NON_TERMINAL_BODY_LEN: nat := 12
  const TERMINAL_BODY_LEN: nat := 14

  datatype SplitError =
    | ReassembledDatagramTooLarge(len: nat, max: nat)
    | SegmentLimitExceeded(needed: nat, maxSegments: nat)
    | FragmentCapacityTooSmall(required: nat, budget: nat)
    | FragmentSurplusTooLarge(surplus: nat, maxSurplus: nat)
    | RdosTooLarge(rdos: nat)
    | FragmentOffsetTooLarge(offset: nat)
    | OptionsBodyTooShort(bodyLen: nat)
    | IdentificationExhausted

  datatype PeerLimits = PeerLimits(maxReassembled: u16, maxSegments: u8)

  datatype SplitConfig = SplitConfig(budget: nat, peer: PeerLimits, identification: u32)

  datatype Fragment = Fragment(fragOffset: u16, terminal: bool, rdos: Option<u16>, surplusBody: seq<u8>)

  /** A slice of the tail, and whether it is the last one. */
  datatype Range = Range(start: nat, end: nat, terminal: bool)

  // ---- identifications ----

  /** The generator never wraps: the largest value is issued once and then no more. */
  class IdentificationGenerator {
    var next: Option<u32>

    constructor (first: u32)
      ensures next == Some(first)
    {
      next := Some(first);
    }

    method NextId() returns (r: Result<u32, SplitError>)
      modifies this
      ensures (r, next) == Issue(old(next))
      ensures r.Ok? ==> forall id: u32 :: Used(id, old(next)) ==> id < r.value
      ensures old(next).None? ==> r.Err? && next.None?
    {
      if next.None? {
        return Err(IdentificationExhausted);
      }
      var id: nat := next.value;
      next := if id + 1 < 0x1_0000_0000 then Some(id + 1) else None;
      r := Ok(id);
    }
  }

  function Issue(next: Option<u32>): (Result<u32, SplitError>, Option<u32>) {
    match next
    case None => (Err(IdentificationExhausted), None)
    case Some(id) => (Ok(id), if id + 1 < 0x1_0000_0000 then Some(id + 1) else None)
  }

  /** Every identification below `n` may have been used when the generator is at `next`. */
  predicate Used(id: u32, next: Option<u32>) {
    next.None? || id < next.value
  }

  lemma IssueIsFresh(next: Option<u32>, id: u32)
    ensures Issue(next).0.Ok? ==> !Used(Issue(next).0.value, next) && Used(Issue(next).0.value, Issue(next).1)
    ensures Used(id, next) ==> Used(id, Issue(next).1)
  {
  }

  /** What a generator issues over `n` requests. */
  function Issued(next: Option<u32>, n: nat): seq<u32>
    decreases n
  {
    if n == 0 then []
    else
      var (r, after) := Issue(next);
      if r.Err? then [] else [r.value] + Issued(after, n - 1)
  }

  /** Over any number of requests the values ascend strictly from the seed, so none
      repeats, and they run out only after the largest. */
  lemma {:induction false} IssuedAscend(next: Option<u32>, n: nat)
    ensures var ids := Issued(next, n);
            && (forall i :: 0 <= i < |ids| ==> next.Some? && ids[i] == next.value + i)
            && (next.Some? ==> |ids| == Min(n, 0x1_0000_0000 - next.value))
            && (next.None? ==> ids == [])
    decreases n
  {
    if n > 0 && next.Some? {
      var after := Issue(next).1;
      IssuedAscend(after, n - 1);
      var ids, rest := Issued(next, n), Issued(after, n - 1);
      assert ids == [next.value] + rest;
    }
  }

  // ---- the tail and its ranges ----

  /** What follows the reconstructed UDP header: payload, pad, options body. */
  function Tail(payload: seq<u8>, body: seq<u8>): (t: seq<u8>)
    ensures |t| == |payload| + SurplusLen(|payload|, body)
  {
    payload + (Pad(|payload|, body) + body)
  }

  function Ranges(start: nat, tailLen: nat, terminalCap: nat, otherCap: nat): (rs: seq<Range>)
    requires otherCap > 0 && start <= tailLen
    ensures |rs| > 0
    decreases tailLen - start
  {
    if tailLen - start <= terminalCap then [Range(start, tailLen, true)]
    else
      var take := Min(otherCap, tailLen - start - terminalCap);
      [Range(start, start + take, false)] + Ranges(start + take, tailLen, terminalCap, otherCap)
  }

  function ChunkRanges(tailLen: nat, terminalCap: nat, otherCap: nat, budget: nat): Result<seq<Range>, SplitError> {
    if tailLen <= terminalCap then Ok([Range(0, tailLen, true)])
    else if otherCap == 0 then Err(FragmentCapacityTooSmall(NON_TERMINAL_BODY_LEN + 1, budget))
    else Ok(Ranges(0, tailLen, terminalCap, otherCap))
  }

  method ChunkLoop(tailLen: nat, terminalCap: nat, otherCap: nat, budget: nat)
    returns (r: Result<seq<Range>, SplitError>)
    ensures r == ChunkRanges(tailLen, terminalCap, otherCap, budget)
  {
    if tailLen <= terminalCap {
      return Ok([Range(0, tailLen, true)]);
    }
    if otherCap == 0 {
      return Err(FragmentCapacityTooSmall(NON_TERMINAL_BODY_LEN + 1, budget));
    }
    var ranges, start, remaining := [], 0, tailLen;
    while remaining > terminalCap
      invariant 0 <= start <= tailLen && remaining == tailLen - start
      invariant ranges + Ranges(start, tailLen, terminalCap, otherCap) == Ranges(0, tailLen, terminalCap, otherCap)
    {
      var take := Min(otherCap, remaining - terminalCap);
      ghost var one, rest := [Range(start, start + take, false)], Ranges(start + take, tailLen, terminalCap, otherCap);
      assert ranges + (one + rest) == (ranges + one) + rest;
      ranges := ranges + [Range(start, start + take, false)];
      start := start + take;
      remaining := remaining - take;
    }
    ranges := ranges + [Range(start, tailLen, true)];
    r := Ok(ranges);
  }

  /** The ranges tile [start, tailLen) in order, only the last one is terminal, the
      others are non-empty, and each fits its capacity. */
  predicate Tiles(rs: seq<Range>, start: nat, tailLen: nat) {
    && rs != [] && rs[0].start == start && rs[|rs| - 1].end == tailLen
    && (forall i :: 0 <= i < |rs| ==> start <= rs[i].start <= rs[i].end <= tailLen)
    && (forall i :: 0 <= i < |rs| ==> (rs[i].terminal <==> i == |rs| - 1))
    && (forall i :: 0 <= i < |rs| - 1 ==> rs[i].start < rs[i].end)
    && (forall i, j :: 0 <= i < |rs| - 1 && j == i + 1 ==> rs[i].end == rs[j].start)
  }

  predicate FitCapacities(rs: seq<Range>, terminalCap: nat, otherCap: nat) {
    forall i :: 0 <= i < |rs| ==> rs[i].start <= rs[i].end <= rs[i].start + (if rs[i].terminal then terminalCap else otherCap)
  }

  lemma {:induction false} RangesTile(start: nat, tailLen: nat, terminalCap: nat, otherCap: nat)
    requires otherCap > 0 && start <= tailLen
    ensures Tiles(Ranges(start, tailLen, terminalCap, otherCap), start, tailLen)
    ensures FitCapacities(Ranges(start, tailLen, terminalCap, otherCap), terminalCap, otherCap)
    decreases tailLen - start
  {
    hide Tiles, FitCapacities;
    if tailLen - start <= terminalCap {
      TilesOne(start, tailLen, terminalCap, otherCap);
    } else {
      var take := Min(otherCap, tailLen - start - terminalCap);
      RangesTile(start + take, tailLen, terminalCap, otherCap);
      var first, rest := Range(start, start + take, false), Ranges(start + take, tailLen, terminalCap, otherCap);
      TilesCons(first, rest, tailLen);
      FitCons(first, rest, terminalCap, otherCap);
      assert Ranges(start, tailLen, terminalCap, otherCap) == [first] + rest;
    }
  }

  lemma TilesOne(start: nat, tailLen: nat, terminalCap: nat, otherCap: nat)
    requires start <= tailLen <= start + terminalCap
    ensures Tiles([Range(start, tailLen, true)], start, tailLen)
    ensures FitCapacities([Range(start, tailLen, true)], terminalCap, otherCap)
  {
  }

  lemma TilesCons(first: Range, rest: seq<Range>, tailLen: nat)
    requires !first.terminal && first.start < first.end <= tailLen && Tiles(rest, first.end, tailLen)
    ensures Tiles([first] + rest, first.start, tailLen)
  {
    var rs := [first] + rest;
    assert forall i :: 0 < i < |rs| ==> rs[i] == rest[i - 1];
  }

  lemma FitCons(first: Range, rest: seq<Range>, terminalCap: nat, otherCap: nat)
    requires !first.terminal && first.start <= first.end <= first.start + otherCap
    requires FitCapacities(rest, terminalCap, otherCap)
    ensures FitCapacities([first] + rest, terminalCap, otherCap)
  {
  }

  /** Two ranges of a tiling do not overlap. */
  lemma {:induction false} TilesOrdered(rs: seq<Range>, start: nat, tailLen: nat, i: nat, j: nat)
    requires Tiles(rs, start, tailLen) && i < j < |rs|
    ensures rs[i].end <= rs[j].start && rs[i].start < rs[j].start
    decreases j - i
  {
    if j == i + 1 {
      assert rs[i].end == rs[j].start;
    } else {
      TilesOrdered(rs, start, tailLen, i, j - 1);
      var k := j - 1;
      assert rs[k].end == rs[j].start;
    }
  }

  // ---- the least number of fragments ----

  function MinFragments(tailLen: nat, terminalCap: nat, otherCap: nat): nat
    requires otherCap > 0
  {
    if tailLen <= terminalCap then 1 else 1 + (tailLen - terminalCap + otherCap - 1) / otherCap
  }

  lemma DivStep(x: nat, d: nat)
    requires d > 0
    ensures (x + d) / d == x / d + 1
  {
    var q, r := x / d, x % d;
    assert x + d == (q + 1) * d + r;
    DivUnique(x + d, d, q + 1, r);
  }

  lemma {:induction false} RangesCount(start: nat, tailLen: nat, terminalCap: nat, otherCap: nat)
    requires otherCap > 0 && start <= tailLen
    ensures |Ranges(start, tailLen, terminalCap, otherCap)| == MinFragments(tailLen - start, terminalCap, otherCap)
    decreases tailLen - start
  {
    var n := tailLen - start;
    if n > terminalCap {
      var take := Min(otherCap, n - terminalCap);
      RangesCount(start + take, tailLen, terminalCap, otherCap);
      if take == otherCap && n - take > terminalCap {
        DivStep(n - terminalCap - 1, otherCap);
        DivStep(n - otherCap - terminalCap - 1, otherCap);
      } else {
        DivUnique(n - terminalCap + otherCap - 1, otherCap, 1, n - terminalCap - 1);
      }
    }
  }

  function Sum(lens: seq<nat>): nat {
    if lens == [] then 0 else lens[0] + Sum(lens[1..])
  }

  lemma MinFragmentsStep(n: nat, m: nat, terminalCap: nat, otherCap: nat)
    requires otherCap > 0 && m <= n <= m + otherCap
    ensures MinFragments(n, terminalCap, otherCap) <= 1 + MinFragments(m, terminalCap, otherCap)
  {
    if n > terminalCap {
      var x := n - terminalCap - 1;
      DivStep(x, otherCap);
      if m > terminalCap {
        var y := m - terminalCap - 1;
        DivStep(y, otherCap);
        DivMonotone(x, y + otherCap, otherCap);
      } else {
        DivUnique(x, otherCap, 0, x);
      }
    }
  }

  lemma DivMonotone(x: nat, y: nat, d: nat)
    requires d > 0 && x <= y
    ensures x / d <= y / d
  {
    var qx, qy := x / d, y / d;
    if qx > qy {
      MulGe(qx - qy, d);
    }
  }

  /** No split of the tail into admissible chunks uses fewer fragments. */
  lemma {:induction false} SplitIsOptimal(lens: seq<nat>, terminalCap: nat, otherCap: nat)
    requires otherCap > 0 && lens != [] && lens[|lens| - 1] <= terminalCap
    requires forall i :: 0 <= i < |lens| - 1 ==> lens[i] <= otherCap
    ensures MinFragments(Sum(lens), terminalCap, otherCap) <= |lens|
  {
    if |lens| > 1 {
      var rest := lens[1..];
      assert forall i :: 0 <= i < |rest| - 1 ==> rest[i] == lens[i + 1];
      SplitIsOptimal(rest, terminalCap, otherCap);
      MinFragmentsStep(Sum(lens), Sum(rest), terminalCap, otherCap);
    } else {
      assert Sum(lens[1..]) == 0;
    }
  }

  // ---- fragments ----

  function FragOf(offset: u16, id: u32, rdos: Option<u16>): FragOption {
    FragOption(if rdos.Some? then 8 + TERMINAL_BODY_LEN else 8 + NON_TERMINAL_BODY_LEN, id, offset, rdos)
  }

  /** The OCS-led body in front of the fragment data: a single FRAG option. */
  function FragmentBody(id: u32, offset: u16, rdos: Option<u16>): (b: seq<u8>)
    ensures |b| == if rdos.Some? then TERMINAL_BODY_LEN else NON_TERMINAL_BODY_LEN
  {
    [0, 0, FRAG, if rdos.Some? then 12 else 10] + EncodeFrag(FragOf(offset, id, rdos))
  }

  function Offset(r: Range, atomic: bool): nat {
    if atomic then 0 else 8 + r.start
  }

  function Rdos(r: Range, rdos: u16): Option<u16> {
    if r.terminal then Some(rdos) else None
  }

  function FragmentOf(tail: seq<u8>, r: Range, atomic: bool, id: u32, rdos: u16): Fragment
    requires r.start <= r.end <= |tail| && Offset(r, atomic) <= 0xFFFF
  {
    var offset := Offset(r, atomic);
    Fragment(offset, r.terminal, Rdos(r, rdos), FragmentBody(id, offset, Rdos(r, rdos)) + tail[r.start..r.end])
  }

  predicate InBounds(rs: seq<Range>, tailLen: nat) {
    forall i :: 0 <= i < |rs| ==> rs[i].start <= rs[i].end <= tailLen
  }

  function BuildFragments(tail: seq<u8>, rs: seq<Range>, atomic: bool, id: u32, rdos: u16)
    : Result<seq<Fragment>, SplitError>
    requires InBounds(rs, |tail|)
  {
    if rs == [] then Ok([])
    else if Offset(rs[0], atomic) > 0xFFFF then Err(FragmentOffsetTooLarge(Offset(rs[0], atomic)))
    else
      var rest := BuildFragments(tail, rs[1..], atomic, id, rdos);
      if rest.Err? then rest else Ok([FragmentOf(tail, rs[0], atomic, id, rdos)] + rest.value)
  }

  function Prepend(done: seq<Fragment>, rest: Result<seq<Fragment>, SplitError>): (r: Result<seq<Fragment>, SplitError>)
    ensures done == [] ==> r == rest
  {
    if rest.Err? then rest
    else
      assert done == [] ==> done + rest.value == rest.value;
      Ok(done + rest.value)
  }

  method BuildLoop(tail: seq<u8>, rs: seq<Range>, atomic: bool, id: u32, rdos: u16)
    returns (r: Result<seq<Fragment>, SplitError>)
    requires InBounds(rs, |tail|)
    ensures r == BuildFragments(tail, rs, atomic, id, rdos)
  {
    hide FragmentBody;
    var fragments := [];
    assert rs[0..] == rs;
    for i := 0 to |rs|
      invariant BuildFragments(tail, rs, atomic, id, rdos)
             == Prepend(fragments, BuildFragments(tail, rs[i..], atomic, id, rdos))
    {
      assert rs[i..][1..] == rs[i + 1..];
      var offset := if atomic then 0 else 8 + rs[i].start;
      if offset > 0xFFFF {
        return Err(FragmentOffsetTooLarge(offset));
      }
      var terminalRdos := if rs[i].terminal then Some(rdos) else None;
      var surplusBody := FragmentBody(id, offset, terminalRdos) + tail[rs[i].start..rs[i].end];
      ghost var rest := BuildFragments(tail, rs[i + 1..], atomic, id, rdos);
      var fragment := Fragment(offset, rs[i].terminal, terminalRdos, surplusBody);
      assert fragment == FragmentOf(tail, rs[i], atomic, id, rdos);
      if rest.Ok? {
        Regroup(fragments, [fragment], rest.value);
      }
      fragments := fragments + [fragment];
    }
    assert fragments + [] == fragments;
    r := Ok(fragments);
  }

  function SplitDatagram(payload: seq<u8>, body: seq<u8>, cfg: SplitConfig): Result<seq<Fragment>, SplitError> {
    if body != [] && |body| < 2 then Err(OptionsBodyTooShort(|body|))
    else if cfg.budget > FRAGMENT_SURPLUS_LEN_MAX then
      Err(FragmentSurplusTooLarge(cfg.budget, FRAGMENT_SURPLUS_LEN_MAX))
    else if 8 + |payload| > 0xFFFF then Err(RdosTooLarge(8 + |payload|))
    else
      var tail := Tail(payload, body);
      if 8 + |tail| > cfg.peer.maxReassembled then
        Err(ReassembledDatagramTooLarge(8 + |tail|, cfg.peer.maxReassembled))
      else if cfg.budget < TERMINAL_BODY_LEN then Err(FragmentCapacityTooSmall(TERMINAL_BODY_LEN, cfg.budget))
      else
        var ranges := ChunkRanges(|tail|, cfg.budget - TERMINAL_BODY_LEN, cfg.budget - NON_TERMINAL_BODY_LEN, cfg.budget);
        if ranges.Err? then Err(ranges.error)
        else if |ranges.value| > cfg.peer.maxSegments then
          Err(SegmentLimitExceeded(|ranges.value|, cfg.peer.maxSegments))
        else
          PlanInBounds(|tail|, cfg.budget);
          BuildFragments(tail, ranges.value, |ranges.value| == 1, cfg.identification, 8 + |payload|)
  }

  lemma PlanInBounds(tailLen: nat, budget: nat)
    requires budget >= TERMINAL_BODY_LEN
    ensures var r := ChunkRanges(tailLen, budget - TERMINAL_BODY_LEN, budget - NON_TERMINAL_BODY_LEN, budget);
            r.Ok? ==> InBounds(r.value, tailLen)
  {
    RangesTile(0, tailLen, budget - TERMINAL_BODY_LEN, budget - NON_TERMINAL_BODY_LEN);
  }

  method Split(payload: seq<u8>, body: seq<u8>, cfg: SplitConfig) returns (r: Result<seq<Fragment>, SplitError>)
    ensures r == SplitDatagram(payload, body, cfg)
  {
    hide BuildFragments, ChunkRanges, InBounds, Pad;
    if body != [] && |body| < 2 {
      return Err(OptionsBodyTooShort(|body|));
    }
    if cfg.budget > FRAGMENT_SURPLUS_LEN_MAX {
      return Err(FragmentSurplusTooLarge(cfg.budget, FRAGMENT_SURPLUS_LEN_MAX));
    }
    var rdos := 8 + |payload|;
    if rdos > 0xFFFF {
      return Err(RdosTooLarge(rdos));
    }
    var tail := Tail(payload, body);
    var reassembledLen := 8 + |tail|;
    if reassembledLen > cfg.peer.maxReassembled {
      return Err(ReassembledDatagramTooLarge(reassembledLen, cfg.peer.maxReassembled));
    }
    if cfg.budget < TERMINAL_BODY_LEN {
      return Err(FragmentCapacityTooSmall(TERMINAL_BODY_LEN, cfg.budget));
    }
    var terminalCap, otherCap := cfg.budget - TERMINAL_BODY_LEN, cfg.budget - NON_TERMINAL_BODY_LEN;
    var ranges := ChunkLoop(|tail|, terminalCap, otherCap, cfg.budget);
    if ranges.Err? {
      return Err(ranges.error);
    }
    if |ranges.value| > cfg.peer.maxSegments {
      return Err(SegmentLimitExceeded(|ranges.value|, cfg.peer.maxSegments));
    }
    PlanInBounds(|tail|, cfg.budget);
    r := BuildLoop(tail, ranges.value, |ranges.value| == 1, cfg.identification, rdos);
  }

  lemma {:induction false} BuildSucceeds(tail: seq<u8>, rs: seq<Range>, atomic: bool, id: u32, rdos: u16)
    requires InBounds(rs, |tail|) && 8 + |tail| <= 0xFFFF
    ensures var r := BuildFragments(tail, rs, atomic, id, rdos);
            && r.Ok? && |r.value| == |rs|
            && forall i :: 0 <= i < |rs| ==> r.value[i] == FragmentOf(tail, rs[i], atomic, id, rdos)
  {
    if rs != [] {
      BuildSucceeds(tail, rs[1..], atomic, id, rdos);
      var r := BuildFragments(tail, rs, atomic, id, rdos);
      forall i | 0 <= i < |rs| ensures r.value[i] == FragmentOf(tail, rs[i], atomic, id, rdos) {
        if i > 0 { assert rs[i] == rs[1..][i - 1]; }
      }
    }
  }

  /** The ranges a configuration leads to. */
  function Plan(tailLen: nat, budget: nat): seq<Range>
    requires budget >= TERMINAL_BODY_LEN
  {
    Ranges(0, tailLen, budget - TERMINAL_BODY_LEN, budget - NON_TERMINAL_BODY_LEN)
  }

  /** What a caller can check before the call. */
  predicate Splittable(payload: seq<u8>, body: seq<u8>, cfg: SplitConfig) {
    && (body == [] || |body| >= 2)
    && TERMINAL_BODY_LEN <= cfg.budget <= FRAGMENT_SURPLUS_LEN_MAX
    && 8 + |Tail(payload, body)| <= cfg.peer.maxReassembled
    && MinFragments(|Tail(payload, body)|, cfg.budget - TERMINAL_BODY_LEN, cfg.budget - NON_TERMINAL_BODY_LEN)
       <= cfg.peer.maxSegments
  }

  lemma SplitFits(payload: seq<u8>, body: seq<u8>, cfg: SplitConfig)
    requires Splittable(payload, body, cfg)
    ensures var r, tail, rs := SplitDatagram(payload, body, cfg), Tail(payload, body), Plan(|Tail(payload, body)|, cfg.budget);
            && Tiles(rs, 0, |tail|) && |rs| <= cfg.peer.maxSegments
            && r == BuildFragments(tail, rs, |rs| == 1, cfg.identification, 8 + |payload|)
  {
    hide MinFragments, BuildFragments, Tiles, FitCapacities;
    var tail := Tail(payload, body);
    var tc, oc := cfg.budget - TERMINAL_BODY_LEN, cfg.budget - NON_TERMINAL_BODY_LEN;
    RangesTile(0, |tail|, tc, oc);
    RangesCount(0, |tail|, tc, oc);
  }

  /** One fragment per planned range, each within the budget. */
  lemma SplitShape(payload: seq<u8>, body: seq<u8>, cfg: SplitConfig)
    requires Splittable(payload, body, cfg)
    ensures var r, tail, rs := SplitDatagram(payload, body, cfg), Tail(payload, body), Plan(|Tail(payload, body)|, cfg.budget);
            && Tiles(rs, 0, |tail|) && |rs| <= cfg.peer.maxSegments
            && r.Ok? && |r.value| == |rs|
            && forall i :: 0 <= i < |rs| ==>
                 && r.value[i] == FragmentOf(tail, rs[i], |rs| == 1, cfg.identification, 8 + |payload|)
                 && |r.value[i].surplusBody| <= cfg.budget
  {
    hide MinFragments, BuildFragments, Ranges, SplitDatagram, FragmentBody;
    var tail, rs := Tail(payload, body), Plan(|Tail(payload, body)|, cfg.budget);
    SplitFits(payload, body, cfg);
    RangesTile(0, |tail|, cfg.budget - TERMINAL_BODY_LEN, cfg.budget - NON_TERMINAL_BODY_LEN);
    BuildSucceeds(tail, rs, |rs| == 1, cfg.identification, 8 + |payload|);
  }

  /** Splitting succeeds exactly on splittable input, and two of the errors of the
      splitter never occur. */
  lemma SplitSucceedsIff(payload: seq<u8>, body: seq<u8>, cfg: SplitConfig)
    ensures SplitDatagram(payload, body, cfg).Ok? <==> Splittable(payload, body, cfg)
    ensures var r := SplitDatagram(payload, body, cfg);
            && (r.Err? ==> !r.error.FragmentOffsetTooLarge?)
            && (r.Err? && r.error.FragmentCapacityTooSmall? ==> r.error.required == TERMINAL_BODY_LEN > cfg.budget)
  {
    hide MinFragments, BuildFragments, Tiles, FitCapacities;
    if Splittable(payload, body, cfg) {
      SplitShape(payload, body, cfg);
    } else if TERMINAL_BODY_LEN <= cfg.budget {
      RangesCount(0, |Tail(payload, body)|, cfg.budget - TERMINAL_BODY_LEN, cfg.budget - NON_TERMINAL_BODY_LEN);
    }
  }
}
