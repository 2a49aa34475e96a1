/** The canonical serializer of an OCS-led options body. */
module OptionSerializer {
  import opened Bytes
  import opened OptionKinds
  import opened OptionParser

  const DEFAULT_VALUE_LEN_MAX: nat := 252
  const EXTENDED_VALUE_LEN_MAX: nat := 0xFFFF - 4
  const BODY_LEN_MAX: nat := 0xFFFF - 1

  datatype SerializeError =
    | ReservedKind(kind: u8)
    | UnsafeKind(kind: u8)
    | UnsupportedAssignedKind(kind: u8)
    | DuplicateFragOption
    | ValueTooLong(kind: u8, valueLen: nat)
    | InvalidFixedValueLength(kind: u8, valueLen: nat)
    | BodyTooLong(len: nat)
    | FragmentStartTooLarge(start: nat)

  // ---- validation ----

  function ValidateOption(o: RawOption): Option<SerializeError> {
    var raw := o.kind.ToByte();
    if raw == EOL || raw == NOP then Some(ReservedKind(raw))
    else if raw >= UNSAFE_MIN then Some(UnsafeKind(raw))
    else if raw == TIME || raw == AUTH || raw == EXP || SAFE_RESERVED_MIN <= raw <= SAFE_RESERVED_MAX then
      Some(UnsupportedAssignedKind(raw))
    else if |o.value| > EXTENDED_VALUE_LEN_MAX then Some(ValueTooLong(raw, |o.value|))
    else if FixedValueLens(raw) == {} || |o.value| in FixedValueLens(raw) then None
    else Some(InvalidFixedValueLength(raw, |o.value|))
  }

  predicate IsFrag(o: RawOption) {
    o.kind.ToByte() == FRAG
  }

  /** The first complaint about the options, in the caller's order. */
  function FirstError(opts: seq<RawOption>, seenFrag: bool): Option<SerializeError> {
    if opts == [] then None
    else if ValidateOption(opts[0]).Some? then ValidateOption(opts[0])
    else if IsFrag(opts[0]) && seenFrag then Some(DuplicateFragOption)
    else FirstError(opts[1..], seenFrag || IsFrag(opts[0]))
  }

  /** What framing alone needs: a Kind with a Length field and a 16-bit length. */
  predicate Framable(o: RawOption) {
    o.kind.ToByte() != EOL && o.kind.ToByte() != NOP && |o.value| <= EXTENDED_VALUE_LEN_MAX
  }

  predicate AllFramable(opts: seq<RawOption>) {
    forall i :: 0 <= i < |opts| ==> Framable(opts[i])
  }

  /** Every option is acceptable on its own. */
  predicate Emittable(opts: seq<RawOption>)
    ensures Emittable(opts) ==> AllFramable(opts)
  {
    forall i :: 0 <= i < |opts| ==> ValidateOption(opts[i]).None? && Framable(opts[i])
  }

  predicate AtMostOneFrag(opts: seq<RawOption>) {
    forall i, j :: 0 <= i < j < |opts| ==> !(IsFrag(opts[i]) && IsFrag(opts[j]))
  }

  lemma {:induction false} ValidationIsExact(opts: seq<RawOption>, seenFrag: bool)
    ensures FirstError(opts, seenFrag).None?
       <==> && Emittable(opts) && AtMostOneFrag(opts)
            && (seenFrag ==> forall i :: 0 <= i < |opts| ==> !IsFrag(opts[i]))
  {
    if opts != [] {
      ValidationIsExact(opts[1..], seenFrag || IsFrag(opts[0]));
      assert opts == [opts[0]] + opts[1..];
    }
  }

  // ---- canonical order ----

  function Rank(kind: u8): nat {
    if kind == FRAG then 0
    else if kind == APC then 1
    else if kind == MDS then 2
    else if kind == MRDS then 3
    else if kind == REQ then 4
    else if kind == RES then 5
    else 1000 + kind
  }

  function RankOf(o: RawOption): nat {
    Rank(o.kind.ToByte())
  }

  predicate Ranked(opts: seq<RawOption>) {
    forall i, j :: 0 <= i < j < |opts| ==> RankOf(opts[i]) <= RankOf(opts[j])
  }

  function InsertRanked(o: RawOption, opts: seq<RawOption>): seq<RawOption> {
    if opts == [] || RankOf(o) <= RankOf(opts[0]) then [o] + opts
    else [opts[0]] + InsertRanked(o, opts[1..])
  }

  function SortByRank(opts: seq<RawOption>): seq<RawOption> {
    if opts == [] then [] else InsertRanked(opts[0], SortByRank(opts[1..]))
  }

  /** The options of one rank, in order. */
  function OfRank(opts: seq<RawOption>, r: nat): seq<RawOption> {
    if opts == [] then []
    else (if RankOf(opts[0]) == r then [opts[0]] else []) + OfRank(opts[1..], r)
  }

  lemma {:induction false} InsertPermutes(o: RawOption, opts: seq<RawOption>)
    ensures multiset(InsertRanked(o, opts)) == multiset(opts) + multiset{o}
  {
    if opts != [] && RankOf(o) > RankOf(opts[0]) {
      InsertPermutes(o, opts[1..]);
      assert opts == [opts[0]] + opts[1..];
    }
  }

  lemma {:induction false} InsertKeepsOrder(o: RawOption, opts: seq<RawOption>)
    requires Ranked(opts)
    ensures Ranked(InsertRanked(o, opts))
  {
    hide RankOf;
    if opts != [] && RankOf(o) > RankOf(opts[0]) {
      var rest := InsertRanked(o, opts[1..]);
      InsertKeepsOrder(o, opts[1..]);
      InsertPermutes(o, opts[1..]);
      forall i | 0 <= i < |rest| ensures RankOf(opts[0]) <= RankOf(rest[i]) {
        assert rest[i] in multiset(opts[1..]) + multiset{o};
        assert rest[i] == o || rest[i] in opts[1..];
      }
      RankedCons(opts[0], rest);
    }
  }

  lemma RankedCons(o: RawOption, rest: seq<RawOption>)
    requires Ranked(rest) && forall i :: 0 <= i < |rest| ==> RankOf(o) <= RankOf(rest[i])
    ensures Ranked([o] + rest)
  {
    hide RankOf;
  }

  lemma {:induction false} InsertOfRank(o: RawOption, opts: seq<RawOption>, r: nat)
    ensures OfRank(InsertRanked(o, opts), r) == OfRank([o] + opts, r)
  {
    assert ([o] + opts)[1..] == opts;
    if opts != [] && RankOf(o) > RankOf(opts[0]) {
      InsertOfRank(o, opts[1..], r);
      assert ([o] + opts[1..])[1..] == opts[1..];
    }
  }

  /** The sort is a stable permutation: ranks ascend, and options of one rank keep
      the caller's order. */
  lemma {:induction false} SortIsStable(opts: seq<RawOption>)
    ensures Ranked(SortByRank(opts))
    ensures multiset(SortByRank(opts)) == multiset(opts)
    ensures forall r :: OfRank(SortByRank(opts), r) == OfRank(opts, r)
  {
    if opts != [] {
      var rest := SortByRank(opts[1..]);
      SortIsStable(opts[1..]);
      InsertKeepsOrder(opts[0], rest);
      InsertPermutes(opts[0], rest);
      assert opts == [opts[0]] + opts[1..];
      forall r ensures OfRank(SortByRank(opts), r) == OfRank(opts, r) {
        InsertOfRank(opts[0], rest, r);
        assert ([opts[0]] + rest)[1..] == rest;
      }
    }
  }

  lemma OfRankHead(opts: seq<RawOption>)
    requires opts != []
    ensures OfRank(opts, RankOf(opts[0])) != [] && OfRank(opts, RankOf(opts[0]))[0] == opts[0]
  {
  }

  lemma {:induction false} OfRankBelow(opts: seq<RawOption>, r: nat)
    requires Ranked(opts) && opts != [] && r < RankOf(opts[0])
    ensures OfRank(opts, r) == []
  {
    if |opts| > 1 {
      OfRankBelow(opts[1..], r);
    }
  }

  /** Those two facts leave only one possible order. */
  lemma {:induction false} StableOrderIsUnique(a: seq<RawOption>, b: seq<RawOption>)
    requires Ranked(a) && Ranked(b)
    requires forall r :: OfRank(a, r) == OfRank(b, r)
    ensures a == b
    decreases |a| + |b|
  {
    if a != [] {
      OfRankHead(a);
      assert b != [];
      OfRankHead(b);
      if RankOf(b[0]) < RankOf(a[0]) { OfRankBelow(a, RankOf(b[0])); }
      if RankOf(a[0]) < RankOf(b[0]) { OfRankBelow(b, RankOf(a[0])); }
      assert a[0] == b[0];
      forall r ensures OfRank(a[1..], r) == OfRank(b[1..], r) {
        var h := if RankOf(a[0]) == r then [a[0]] else [];
        assert OfRank(a, r) == h + OfRank(a[1..], r) && OfRank(b, r) == h + OfRank(b[1..], r);
        assert OfRank(a[1..], r) == OfRank(a, r)[|h|..] && OfRank(b[1..], r) == OfRank(b, r)[|h|..];
      }
      StableOrderIsUnique(a[1..], b[1..]);
      assert a == [a[0]] + a[1..] && b == [b[0]] + b[1..];
    } else if b != [] {
      OfRankHead(b);
    }
  }

  // ---- lengths, FRAG patching and bytes ----

  function EncodedLen(valueLen: nat): nat {
    if valueLen <= DEFAULT_VALUE_LEN_MAX then valueLen + 2 else valueLen + 4
  }

  function CheckedBodyAdd(current: nat, add: nat): Result<nat, SerializeError> {
    if current + add > BODY_LEN_MAX then Err(BodyTooLong(current + add)) else Ok(current + add)
  }

  /** The predicted body length, continuing from `len` bytes already counted. */
  function BodyLen(opts: seq<RawOption>, len: nat): Result<nat, SerializeError> {
    var aligned := if len % 2 == 1 && opts != [] then CheckedBodyAdd(len, 1) else Ok(len);
    if aligned.Err? then aligned
    else if opts == [] then
      var closed := CheckedBodyAdd(len, 1);
      if closed.Ok? && closed.value % 2 == 1 then CheckedBodyAdd(closed.value, 1) else closed
    else
      var next := CheckedBodyAdd(aligned.value, EncodedLen(|opts[0].value|));
      if next.Err? then next else BodyLen(opts[1..], next.value)
  }

  function PatchOne(o: RawOption, start: u16): RawOption {
    if IsFrag(o) && |o.value| >= 2 then o.(value := U16Bytes(start) + o.value[2..]) else o
  }

  function PatchFragStart(opts: seq<RawOption>, start: u16): (r: seq<RawOption>)
    ensures |r| == |opts|
  {
    seq(|opts|, i requires 0 <= i < |opts| => PatchOne(opts[i], start))
  }

  function Tlv(o: RawOption): (t: seq<u8>)
    requires |o.value| <= EXTENDED_VALUE_LEN_MAX
    ensures |t| == EncodedLen(|o.value|)
  {
    if |o.value| <= DEFAULT_VALUE_LEN_MAX then [o.kind.ToByte(), |o.value| + 2] + o.value
    else [o.kind.ToByte(), EXTENDED_LENGTH_MARKER] + U16Bytes(|o.value| + 4) + o.value
  }

  function Frames(opts: seq<RawOption>): (f: seq<seq<u8>>)
    requires AllFramable(opts)
    ensures |f| == |opts|
  {
    seq(|opts|, i requires 0 <= i < |opts| => Tlv(opts[i]))
  }

  lemma FramesTail(opts: seq<RawOption>)
    requires AllFramable(opts) && opts != []
    ensures Framable(opts[0]) && Frames(opts)[0] == Tlv(opts[0]) && Frames(opts)[1..] == Frames(opts[1..])
  {
  }

  function Nops(odd: bool): (n: seq<u8>)
    ensures |n| == Flag(odd)
  {
    if odd then [NOP] else []
  }

  /** The bytes behind the OCS: each frame on an even offset behind a NOP if need be,
      then EOL and zero fill to an even end. `odd` is the parity reached so far. */
  function Layout(frames: seq<seq<u8>>, odd: bool): seq<u8> {
    if frames == [] then (if odd then [EOL] else [EOL, 0])
    else Nops(odd) + (frames[0] + Layout(frames[1..], |frames[0]| % 2 == 1))
  }

  function Emit(opts: seq<RawOption>): seq<u8>
    requires AllFramable(opts)
  {
    Layout(Frames(opts), false)
  }

  lemma Parity(a: nat, b: nat)
    ensures (a + Flag(a % 2 == 1) + b) % 2 == b % 2
  {
  }

  lemma PatchKeepsShape(opts: seq<RawOption>, start: u16)
    requires Emittable(opts)
    ensures Emittable(PatchFragStart(opts, start))
    ensures forall i :: 0 <= i < |opts| ==>
              && PatchFragStart(opts, start)[i].kind == opts[i].kind
              && |PatchFragStart(opts, start)[i].value| == |opts[i].value|
  {
    forall i | 0 <= i < |opts|
      ensures PatchOne(opts[i], start).kind == opts[i].kind
      ensures |PatchOne(opts[i], start).value| == |opts[i].value|
    {
      assert ValidateOption(opts[i]).None?;
    }
  }

  lemma SortKeepsEmittable(opts: seq<RawOption>)
    requires Emittable(opts)
    ensures Emittable(SortByRank(opts))
  {
    SortIsStable(opts);
    var s := SortByRank(opts);
    forall i | 0 <= i < |s| ensures ValidateOption(s[i]).None? {
      assert s[i] in multiset(s);
      assert s[i] in multiset(opts);
    }
  }

  function Finish(opts: seq<RawOption>): (r: Result<seq<u8>, SerializeError>) {
    if FirstError(opts, false).Some? then Err(FirstError(opts, false).value)
    else
      ValidationIsExact(opts, false);
      SortKeepsEmittable(opts);
      var sorted := SortByRank(opts);
      var len := BodyLen(sorted, 2);
      if len.Err? then Err(len.error)
      else if 8 + len.value > 0xFFFF then Err(FragmentStartTooLarge(8 + len.value))
      else
        PatchKeepsShape(sorted, 8 + len.value);
        Ok([0, 0] + Emit(PatchFragStart(sorted, 8 + len.value)))
  }

  /** The predicted length is the emitted length, and prediction fails exactly when
      the body would be longer than the limit. */
  lemma {:induction false} PredictedLengthIsExact(opts: seq<RawOption>, len: nat)
    requires AllFramable(opts)
    ensures BodyLen(opts, len).Ok? <==> len + |Layout(Frames(opts), len % 2 == 1)| <= BODY_LEN_MAX
    ensures BodyLen(opts, len).Ok? ==> BodyLen(opts, len).value == len + |Layout(Frames(opts), len % 2 == 1)|
  {
    if opts != [] {
      FramesTail(opts);
      var n := EncodedLen(|opts[0].value|);
      PredictedLengthIsExact(opts[1..], len + Flag(len % 2 == 1) + n);
      Parity(len, n);
    }
  }

  /** The length is decided by the frame lengths, and the end is even. */
  lemma {:induction false} LayoutLength(a: seq<seq<u8>>, b: seq<seq<u8>>, odd: bool)
    requires |a| == |b| && forall i :: 0 <= i < |a| ==> |a[i]| == |b[i]|
    ensures |Layout(a, odd)| == |Layout(b, odd)|
    ensures (Flag(odd) + |Layout(a, odd)|) % 2 == 0
    decreases |a|
  {
    if a != [] {
      var n := |a[0]|;
      assert n == |b[0]|;
      LayoutLength(a[1..], b[1..], n % 2 == 1);
      EvenStep(Flag(odd), n, |Layout(a[1..], n % 2 == 1)|);
    }
  }

  lemma EvenStep(odd: nat, n: nat, rest: nat)
    requires (Flag(n % 2 == 1) + rest) % 2 == 0
    ensures (odd + (odd + (n + rest))) % 2 == 0
  {
  }

  // ---- the builder ----

  method SerializedBodyLen(opts: seq<RawOption>) returns (r: Result<nat, SerializeError>)
    ensures r == BodyLen(opts, 2)
  {
    var len := 2;
    for i := 0 to |opts|
      invariant BodyLen(opts, 2) == BodyLen(opts[i..], len)
    {
      assert opts[i..][1..] == opts[i + 1..];
      if len % 2 == 1 {
        var aligned := CheckedBodyAdd(len, 1);
        if aligned.Err? {
          return aligned;
        }
        len := aligned.value;
      }
      var next := CheckedBodyAdd(len, EncodedLen(|opts[i].value|));
      if next.Err? {
        return next;
      }
      len := next.value;
    }
    r := CheckedBodyAdd(len, 1);
    if r.Ok? && r.value % 2 == 1 {
      r := CheckedBodyAdd(r.value, 1);
    }
  }

  /** Appends one framed option; the extended form is limited to 16-bit lengths. */
  method EncodeOption(out: seq<u8>, o: RawOption) returns (r: Result<seq<u8>, SerializeError>)
    ensures r == if |o.value| <= EXTENDED_VALUE_LEN_MAX then Ok(out + Tlv(o))
                 else Err(ValueTooLong(o.kind.ToByte(), |o.value|))
  {
    var raw, valueLen := o.kind.ToByte(), |o.value|;
    var framed := out + [raw];
    if valueLen <= DEFAULT_VALUE_LEN_MAX {
      framed := framed + [valueLen + 2];
    } else {
      var totalLen := valueLen + 4;
      if totalLen > 0xFFFF {
        return Err(ValueTooLong(raw, valueLen));
      }
      framed := framed + [EXTENDED_LENGTH_MARKER] + U16Bytes(totalLen);
    }
    framed := framed + o.value;
    assert framed == out + Tlv(o);
    r := Ok(framed);
  }

  class OptionsBuilder {
    var options: seq<RawOption>

    constructor ()
      ensures options == []
    {
      options := [];
    }

    method PushRaw(option: RawOption)
      modifies this
      ensures options == old(options) + [option]
    {
      options := options + [option];
    }

    method ExtendRaw(more: seq<RawOption>)
      modifies this
      ensures options == old(options) + more
    {
      options := options + more;
    }

    method ValidatedOptions() returns (error: Option<SerializeError>)
      ensures error == FirstError(options, false)
    {
      var seenFrag := false;
      for i := 0 to |options|
        invariant FirstError(options, false) == FirstError(options[i..], seenFrag)
      {
        assert options[i..][1..] == options[i + 1..];
        var e := ValidateOption(options[i]);
        if e.Some? {
          return e;
        }
        if options[i].kind.ToByte() == FRAG {
          if seenFrag {
            return Some(DuplicateFragOption);
          }
          seenFrag := true;
        }
      }
      error := None;
    }

    /** Validates, sorts, patches and emits the body. */
    method FinishBody() returns (r: Result<seq<u8>, SerializeError>)
      ensures r == Finish(options)
    {
      var error := ValidatedOptions();
      if error.Some? {
        return Err(error.value);
      }
      ValidationIsExact(options, false);
      SortKeepsEmittable(options);
      var sorted := SortByRank(options);
      var bodyLen := SerializedBodyLen(sorted);
      if bodyLen.Err? {
        return Err(bodyLen.error);
      }
      var start := 8 + bodyLen.value;
      if start > 0xFFFF {
        return Err(FragmentStartTooLarge(start));
      }
      var patched := PatchLoop(sorted, start);
      PatchKeepsShape(sorted, start);
      var out := EmitLoop(patched);
      r := Ok(out);
    }
  }

  method PatchLoop(sorted: seq<RawOption>, start: u16) returns (patched: seq<RawOption>)
    requires Emittable(sorted)
    ensures patched == PatchFragStart(sorted, start)
  {
    patched := sorted;
    for i := 0 to |sorted|
      invariant |patched| == |sorted|
      invariant forall j :: 0 <= j < i ==> patched[j] == PatchOne(sorted[j], start)
      invariant forall j :: i <= j < |sorted| ==> patched[j] == sorted[j]
    {
      if patched[i].kind.ToByte() == FRAG {
        assert ValidateOption(sorted[i]).None?;
        patched := patched[i := patched[i].(value := U16Bytes(start) + patched[i].value[2..])];
      }
    }
  }

  lemma LayoutStep(out: seq<u8>, frames: seq<seq<u8>>)
    requires frames != []
    ensures var next := out + Nops(|out| % 2 == 1) + frames[0];
            out + Layout(frames, |out| % 2 == 1) == next + Layout(frames[1..], |next| % 2 == 1)
  {
    var nops, t := Nops(|out| % 2 == 1), frames[0];
    Parity(|out|, |t|);
    Reassociate(out, nops, t, Layout(frames[1..], |t| % 2 == 1));
  }

  lemma Reassociate<T>(a: seq<T>, b: seq<T>, c: seq<T>, d: seq<T>)
    ensures a + (b + (c + d)) == a + b + c + d
  {
  }

  method AlignAndEncode(out: seq<u8>, o: RawOption) returns (next: seq<u8>)
    requires Framable(o)
    ensures next == out + Nops(|out| % 2 == 1) + Tlv(o)
  {
    next := out;
    if |out| % 2 == 1 {
      next := next + [NOP];
    }
    var framed := EncodeOption(next, o);
    next := framed.value;
  }

  method Close(out: seq<u8>) returns (closed: seq<u8>)
    ensures closed == out + Layout([], |out| % 2 == 1)
  {
    closed := out + [EOL];
    if |closed| % 2 == 1 {
      closed := closed + [0];
    }
  }

  method EmitLoop(opts: seq<RawOption>) returns (out: seq<u8>)
    requires AllFramable(opts)
    ensures out == [0, 0] + Emit(opts)
  {
    out := [0, 0];
    ghost var frames := Frames(opts);
    assert frames[0..] == frames;
    for i := 0 to |opts|
      invariant out + Layout(frames[i..], |out| % 2 == 1) == [0, 0] + Layout(frames, false)
    {
      LayoutStep(out, frames[i..]);
      assert frames[i..][1..] == frames[i + 1..];
      assert Framable(opts[i]) && frames[i] == Tlv(opts[i]);
      out := AlignAndEncode(out, opts[i]);
    }
    out := Close(out);
  }

  // ---- round trip ----

  predicate IsTlv(it: Item) {
    it.Item? && !it.kind.Eol? && !it.kind.Nop?
  }

  /** The options among parsed items, without alignment and termination. */
  function Parsed(items: seq<Item>): seq<RawOption> {
    if items == [] then []
    else (if IsTlv(items[0]) then [RawOption(items[0].kind, items[0].value)] else []) + Parsed(items[1..])
  }

  /** A Kind in the form the parser reports it. */
  function Normal(o: RawOption): RawOption {
    RawOption(FromByte(o.kind.ToByte()), o.value)
  }

  function NormalAll(opts: seq<RawOption>): (r: seq<RawOption>)
    ensures |r| == |opts|
  {
    seq(|opts|, i requires 0 <= i < |opts| => Normal(opts[i]))
  }

  /** No error, every TLV on an even offset, and the list closed by EOL. */
  predicate Canonical(items: seq<Item>) {
    && items != [] && items[|items| - 1].Item? && items[|items| - 1].kind.Eol?
    && forall i :: 0 <= i < |items| ==> items[i].Item? && (IsTlv(items[i]) ==> items[i].at % 2 == 0)
  }

  lemma TlvParses(b: seq<u8>, p: nat, o: RawOption, rest: seq<u8>)
    requires Framable(o) && p <= |b| && b[p..] == Tlv(o) + rest
    ensures p + |Tlv(o)| <= |b|
    ensures NextItem(b, p) == Item(Normal(o).kind, o.value, p, p + |Tlv(o)|)
  {
    var t := Tlv(o);
    assert |b[p..]| == |t| + |rest|;
    assert forall i :: 0 <= i < |t| ==> b[p + i] == b[p..][i] == t[i];
    if |o.value| <= DEFAULT_VALUE_LEN_MAX {
      assert b[p + 2..p + |t|] == o.value;
    } else {
      assert t[2] == (|o.value| + 4) / 256 && t[3] == (|o.value| + 4) % 256;
      assert U16At(b, p + 2) == |o.value| + 4;
      assert b[p + 4..p + |t|] == o.value;
    }
  }

  lemma CanonicalCons(it: Item, items: seq<Item>)
    requires Canonical(items) && it.Item? && !it.kind.Eol?
    requires IsTlv(it) ==> it.at % 2 == 0
    ensures Canonical([it] + items)
    ensures Parsed([it] + items) == (if IsTlv(it) then [RawOption(it.kind, it.value)] else []) + Parsed(items)
  {
    assert ([it] + items)[1..] == items;
  }

  lemma SuffixAt(b: seq<u8>, pos: nat, head: seq<u8>, rest: seq<u8>)
    requires pos <= |b| && b[pos..] == head + rest
    ensures pos + |head| <= |b| && b[pos + |head|..] == rest
    ensures forall i :: 0 <= i < |head| ==> b[pos + i] == head[i]
  {
    assert |b| == pos + |b[pos..]|;
    assert b[pos + |head|..] == b[pos..][|head|..];
    assert forall i :: 0 <= i < |head| ==> b[pos + i] == b[pos..][i];
  }

  lemma {:induction false} EmitParses(b: seq<u8>, pos: nat, opts: seq<RawOption>, odd: bool)
    requires AllFramable(opts) && pos <= |b| && odd == (pos % 2 == 1)
    requires b[pos..] == Layout(Frames(opts), odd)
    ensures Parsed(Items(b, pos)) == NormalAll(opts)
    ensures Canonical(Items(b, pos))
    decreases |opts|, 1
  {
    if opts == [] {
      SuffixAt(b, pos, [EOL], if odd then [] else [0]);
      assert Items(b, pos) == [Item(Eol, [], pos, pos + 1)];
      assert NormalAll(opts) == [];
    } else {
      FramesTail(opts);
      var rest := Tlv(opts[0]) + Layout(Frames(opts[1..]), |Tlv(opts[0])| % 2 == 1);
      SuffixAt(b, pos, Nops(odd), rest);
      TlvsParse(b, pos + Flag(odd), opts);
      if odd {
        assert b[pos] == NOP;
        CanonicalCons(NextItem(b, pos), Items(b, pos + 1));
      }
    }
  }

  lemma {:induction false} TlvsParse(b: seq<u8>, pos: nat, opts: seq<RawOption>)
    requires AllFramable(opts) && opts != [] && pos <= |b| && pos % 2 == 0 && Framable(opts[0])
    requires b[pos..] == Tlv(opts[0]) + Layout(Frames(opts[1..]), |Tlv(opts[0])| % 2 == 1)
    ensures Parsed(Items(b, pos)) == NormalAll(opts)
    ensures Canonical(Items(b, pos))
    decreases |opts|, 0
  {
    hide NextItem, Tlv, Items, Canonical, Parsed, Layout;
    var t := Tlv(opts[0]);
    var rest := Layout(Frames(opts[1..]), |t| % 2 == 1);
    SuffixAt(b, pos, t, rest);
    TlvParses(b, pos, opts[0], rest);
    EvenPlus(pos, |t|);
    EmitParses(b, pos + |t|, opts[1..], |t| % 2 == 1);
    var it := Item(Normal(opts[0]).kind, opts[0].value, pos, pos + |t|);
    ParsedCons(it, Items(b, pos + |t|), opts);
    ItemsCons(b, pos, it);
  }

  lemma ItemsCons(b: seq<u8>, pos: nat, it: Item)
    requires pos < |b| && NextItem(b, pos) == it && it.Item? && !it.kind.Eol?
    ensures Items(b, pos) == [it] + Items(b, it.end)
  {
  }

  lemma ParsedCons(it: Item, items: seq<Item>, opts: seq<RawOption>)
    requires opts != [] && Framable(opts[0])
    requires it.Item? && it.at % 2 == 0 && RawOption(it.kind, it.value) == Normal(opts[0])
    requires Canonical(items) && Parsed(items) == NormalAll(opts[1..])
    ensures !it.kind.Eol?
    ensures Canonical([it] + items) && Parsed([it] + items) == NormalAll(opts)
  {
    CanonicalCons(it, items);
    assert NormalAll(opts) == [Normal(opts[0])] + NormalAll(opts[1..]);
  }

  lemma EvenPlus(even: nat, n: nat)
    requires even % 2 == 0
    ensures (even + n) % 2 == n % 2
  {
  }

  /** Exactly when a body can be built. The 16-bit Frag. Start bound applies with or
      without FRAG, so the effective cap is 65526 bytes. */
  lemma FinishSucceedsIff(opts: seq<RawOption>)
    ensures Finish(opts).Ok?
       <==> && Emittable(opts) && AtMostOneFrag(opts)
            && (SortKeepsEmittable(opts); 2 + |Emit(SortByRank(opts))| <= 65526)
  {
    hide ValidateOption, FirstError, SortByRank, BodyLen, Framable, AtMostOneFrag, Frames, Layout;
    ValidationIsExact(opts, false);
    if Emittable(opts) {
      SortKeepsEmittable(opts);
      var sorted := SortByRank(opts);
      PredictedLengthIsExact(sorted, 2);
      LayoutLength(Frames(sorted), Frames(sorted), false);
    }
  }

  /** The emitted options: ranked, and pointing behind the body. */
  function Arranged(opts: seq<RawOption>, bodyLen: nat): (r: seq<RawOption>)
    requires 8 + bodyLen <= 0xFFFF
  {
    PatchFragStart(SortByRank(opts), 8 + bodyLen)
  }

  lemma PatchKeepsLength(opts: seq<RawOption>, start: u16)
    requires Emittable(opts)
    ensures Emittable(PatchFragStart(opts, start))
    ensures |Emit(PatchFragStart(opts, start))| == |Emit(opts)|
    ensures |Emit(opts)| % 2 == 0
  {
    PatchKeepsShape(opts, start);
    var a, b := Frames(opts), Frames(PatchFragStart(opts, start));
    assert forall i :: 0 <= i < |a| ==> |a[i]| == |b[i]|;
    LayoutLength(a, b, false);
  }

  lemma FinishShape(opts: seq<RawOption>)
    requires Finish(opts).Ok?
    ensures var body := Finish(opts).value;
            && Emittable(opts) && AtMostOneFrag(opts)
            && 2 <= |body| <= 65526 && |body| % 2 == 0
            && Emittable(Arranged(opts, |body|))
            && body == [0, 0] + Emit(Arranged(opts, |body|))
  {
    hide ValidateOption, FirstError, SortByRank, BodyLen, Framable, AtMostOneFrag, Frames, Layout;
    ValidationIsExact(opts, false);
    SortKeepsEmittable(opts);
    var sorted := SortByRank(opts);
    PredictedLengthIsExact(sorted, 2);
    PatchKeepsLength(sorted, 8 + BodyLen(sorted, 2).value);
  }

  /** Parsing a built body gives the stable rank-sorted options back, with Frag. Start
      patched to point behind the body. */
  lemma SerializerRoundTrip(opts: seq<RawOption>)
    requires Finish(opts).Ok?
    ensures var body := Finish(opts).value;
            && 2 <= |body| <= 65526 && |body| % 2 == 0 && body[..2] == [0, 0]
            && Canonical(Items(body[2..], 0))
            && Parsed(Items(body[2..], 0)) == NormalAll(Arranged(opts, |body|))
  {
    FinishShape(opts);
    var body := Finish(opts).value;
    var b := body[2..];
    assert b == b[0..];
    EmitParses(b, 0, Arranged(opts, |body|), false);
  }

  lemma FramesByBytes(a: seq<RawOption>, b: seq<RawOption>)
    requires AllFramable(a) && AllFramable(b) && |a| == |b|
    requires forall i :: 0 <= i < |a| ==> a[i].kind.ToByte() == b[i].kind.ToByte() && a[i].value == b[i].value
    ensures Frames(a) == Frames(b)
  {
    forall i | 0 <= i < |a| ensures Frames(a)[i] == Frames(b)[i] {
      assert Framable(a[i]) && Framable(b[i]);
      assert Tlv(a[i]) == Tlv(b[i]);
    }
  }

  lemma {:induction false} OneFragByRank(opts: seq<RawOption>)
    ensures AtMostOneFrag(opts) <==> |OfRank(opts, 0)| <= 1
    ensures |OfRank(opts, 0)| == 0 <==> forall i :: 0 <= i < |opts| ==> !IsFrag(opts[i])
  {
    if opts != [] {
      OneFragByRank(opts[1..]);
      assert opts == [opts[0]] + opts[1..];
    }
  }

  /** Building from options that are already arranged changes nothing. */
  lemma FinishArranged(again: seq<RawOption>, bodyLen: nat)
    requires 8 + bodyLen <= 0xFFFF && bodyLen <= BODY_LEN_MAX
    requires Emittable(again) && AtMostOneFrag(again) && Ranked(again)
    requires PatchFragStart(again, 8 + bodyLen) == again
    requires bodyLen == 2 + |Emit(again)|
    ensures Finish(again) == Ok([0, 0] + Emit(again))
  {
    hide ValidateOption, Layout, Frames, FirstError, SortByRank, BodyLen, OfRank, Framable, AtMostOneFrag, Ranked;
    ValidationIsExact(again, false);
    SortIsStable(again);
    StableOrderIsUnique(SortByRank(again), again);
    PredictedLengthIsExact(again, 2);
  }

  /** Building again from what was parsed reproduces the body byte for byte. */
  lemma RebuildIsIdentical(opts: seq<RawOption>)
    requires Finish(opts).Ok?
    ensures Finish(Parsed(Items(Finish(opts).value[2..], 0))) == Finish(opts)
  {
    hide Finish, ValidateOption, SortByRank, Framable, AtMostOneFrag, Ranked, OfRank, Frames, Layout, Items, Parsed, Canonical;
    FinishShape(opts);
    SerializerRoundTrip(opts);
    var body := Finish(opts).value;
    SortKeepsEmittable(opts);
    SortIsStable(opts);
    OneFragByRank(opts);
    OneFragByRank(SortByRank(opts));
    RebuiltIsCanonical(SortByRank(opts), 8 + |body|);
    var arranged := Arranged(opts, |body|);
    var again := NormalAll(arranged);
    FramesByBytes(again, arranged);
    FinishArranged(again, |body|);
  }

  lemma RebuiltIsCanonical(sorted: seq<RawOption>, start: u16)
    requires Emittable(sorted) && AtMostOneFrag(sorted) && Ranked(sorted)
    ensures var again := NormalAll(PatchFragStart(sorted, start));
            && Emittable(again) && AtMostOneFrag(again) && Ranked(again)
            && PatchFragStart(again, start) == again
            && forall i :: 0 <= i < |again| ==> |again[i].value| == |sorted[i].value|
  {
    PatchKeepsShape(sorted, start);
    var again := NormalAll(PatchFragStart(sorted, start));
    forall i | 0 <= i < |sorted|
      ensures again[i].kind.ToByte() == sorted[i].kind.ToByte()
      ensures ValidateOption(again[i]).None?
      ensures PatchOne(again[i], start) == again[i]
    {
      assert ValidateOption(sorted[i]).None?;
      assert |again[i].value| == |sorted[i].value|;
    }
  }
}
