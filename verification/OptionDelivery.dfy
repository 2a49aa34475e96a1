/** What the receiver makes of the options a sender asked for. */
module OptionDelivery {
  import opened Bytes
  import opened OptionKinds
  import opened OptionParser
  import opened OptionSerializer
  import opened OptionScan
  import opened Pipeline
  import opened Api

  /** The options a receiver delivers out of `opts`. */
  function Kept(opts: seq<RawOption>, crc: u32): seq<RawOption> {
    if opts == [] then []
    else (if Accepts(opts[0].kind, opts[0].value, crc) == Success then [opts[0]] else []) + Kept(opts[1..], crc)
  }

  /** One report for each of them. */
  function ReportsOf(opts: seq<RawOption>, crc: u32): seq<OptionReport> {
    if opts == [] then []
    else [Report(opts[0].kind, Accepts(opts[0].kind, opts[0].value, crc))] + ReportsOf(opts[1..], crc)
  }

  // ---- Kinds that may occur once ----

  predicate Alone(o: RawOption, opts: seq<RawOption>) {
    MustBeUnique(o.kind.ToByte()) ==> forall x :: x in opts ==> x.kind.ToByte() != o.kind.ToByte()
  }

  predicate Distinct(opts: seq<RawOption>) {
    opts == [] || (Alone(opts[0], opts[1..]) && Distinct(opts[1..]))
  }

  lemma {:induction false} NoDuplicateIsDistinct(opts: seq<RawOption>)
    requires !HasDuplicate(opts)
    ensures Distinct(opts)
  {
    if opts != [] {
      NoDuplicateIsDistinct(opts[1..]);
    }
  }

  lemma {:induction false} InsertKeepsDistinct(o: RawOption, opts: seq<RawOption>)
    requires Distinct(opts) && Alone(o, opts)
    ensures Distinct(InsertRanked(o, opts))
  {
    if opts == [] || RankOf(o) <= RankOf(opts[0]) {
      assert ([o] + opts)[1..] == opts;
    } else {
      var rest := InsertRanked(o, opts[1..]);
      InsertKeepsDistinct(o, opts[1..]);
      InsertPermutes(o, opts[1..]);
      assert forall x :: x in rest ==> x in multiset(rest);
      assert ([opts[0]] + rest)[1..] == rest;
    }
  }

  lemma {:induction false} SortKeepsDistinct(opts: seq<RawOption>)
    requires Distinct(opts)
    ensures Distinct(SortByRank(opts))
  {
    if opts != [] {
      var rest := SortByRank(opts[1..]);
      SortKeepsDistinct(opts[1..]);
      SortIsStable(opts[1..]);
      assert forall x :: x in rest ==> x in multiset(rest);
      InsertKeepsDistinct(opts[0], rest);
    }
  }

  lemma {:induction false} NormalKeepsDistinct(opts: seq<RawOption>)
    requires Distinct(opts)
    ensures Distinct(NormalAll(opts))
  {
    if opts != [] {
      NormalKeepsDistinct(opts[1..]);
      assert NormalAll(opts)[1..] == NormalAll(opts[1..]);
    }
  }

  // ---- the scan of a canonical area ----

  /** An option as the serializer lets it through, other than FRAG. */
  predicate Admissible(o: RawOption) {
    ValidateOption(o).None? && !IsFrag(o) && Normal(o) == o
  }

  predicate AllAdmissible(opts: seq<RawOption>) {
    forall i :: 0 <= i < |opts| ==> Admissible(opts[i])
  }

  predicate NoneSeen(opts: seq<RawOption>, seen: set<u8>) {
    forall i :: 0 <= i < |opts| && MustBeUnique(opts[i].kind.ToByte()) ==> opts[i].kind.ToByte() !in seen
  }

  lemma StepOnAdmissible(acc: Acc, it: Item, userData: seq<u8>, crc: u32)
    requires IsTlv(it) && Admissible(RawOption(it.kind, it.value))
    requires MustBeUnique(it.kind.ToByte()) ==> it.kind.ToByte() !in acc.seen
    ensures var status := Accepts(it.kind, it.value, crc);
            && ScanStep(acc, it, userData, false, crc).Go?
            && var next := ScanStep(acc, it, userData, false, crc).acc;
               && next.options == acc.options + (if status == Success then [RawOption(it.kind, it.value)] else [])
               && next.reports == acc.reports + [Report(it.kind, status)]
               && next.frag == acc.frag
               && acc.seen <= next.seen <= acc.seen + {it.kind.ToByte()}
  {
    hide U32At, DecodeFrag;
  }

  lemma StepOnFiller(acc: Acc, it: Item, userData: seq<u8>, crc: u32)
    requires it.Item? && !IsTlv(it)
    ensures ScanStep(acc, it, userData, false, crc) == Go(acc)
  {
  }

  lemma OneKept(acc: Acc, next: Acc, opts: seq<RawOption>, crc: u32)
    requires opts != []
    requires var status := Accepts(opts[0].kind, opts[0].value, crc);
             && next.options == acc.options + (if status == Success then [opts[0]] else [])
             && next.reports == acc.reports + [Report(opts[0].kind, status)]
    ensures next.options + Kept(opts[1..], crc) == acc.options + Kept(opts, crc)
    ensures next.reports + ReportsOf(opts[1..], crc) == acc.reports + ReportsOf(opts, crc)
  {
    hide Accepts;
    var status := Accepts(opts[0].kind, opts[0].value, crc);
    var head: seq<RawOption> := if status == Success then [opts[0]] else [];
    Regroup(acc.options, head, Kept(opts[1..], crc));
    Regroup(acc.reports, [Report(opts[0].kind, status)], ReportsOf(opts[1..], crc));
  }

  lemma {:induction false} ScanOfAdmissible(items: seq<Item>, acc: Acc, userData: seq<u8>, crc: u32)
    requires forall i :: 0 <= i < |items| ==> items[i].Item?
    requires AllAdmissible(Parsed(items)) && Distinct(Parsed(items)) && NoneSeen(Parsed(items), acc.seen)
    ensures Scan(items, acc, userData, false, crc)
         == Ok(ParsedOptions(acc.options + Kept(Parsed(items), crc), acc.reports + ReportsOf(Parsed(items), crc),
                             acc.frag, false, false))
    decreases items
  {
    hide Accepts, Admissible, MustBeUnique, ScanStep, NoneSeen, Distinct;
    if items == [] {
      assert acc.options + [] == acc.options && acc.reports + [] == acc.reports;
    } else if IsTlv(items[0]) {
      hide Kept, ReportsOf;
      var it, opts := items[0], Parsed(items);
      assert opts[0] == RawOption(it.kind, it.value) && opts[1..] == Parsed(items[1..]);
      FirstIsUnseen(opts, acc.seen);
      StepOnAdmissible(acc, it, userData, crc);
      var next := ScanStep(acc, it, userData, false, crc).acc;
      NextIsUnseen(opts, acc.seen, next.seen);
      ScanOfAdmissible(items[1..], next, userData, crc);
      OneKept(acc, next, opts, crc);
    } else {
      assert Parsed(items) == Parsed(items[1..]);
      StepOnFiller(acc, items[0], userData, crc);
      ScanOfAdmissible(items[1..], acc, userData, crc);
    }
  }

  lemma FirstIsUnseen(opts: seq<RawOption>, seen: set<u8>)
    requires opts != [] && NoneSeen(opts, seen)
    ensures MustBeUnique(opts[0].kind.ToByte()) ==> opts[0].kind.ToByte() !in seen
  {
  }

  lemma NextIsUnseen(opts: seq<RawOption>, seen: set<u8>, next: set<u8>)
    requires opts != [] && Distinct(opts) && NoneSeen(opts, seen)
    requires next <= seen + {opts[0].kind.ToByte()}
    ensures Distinct(opts[1..]) && NoneSeen(opts[1..], next)
  {
    forall i | 0 <= i < |opts[1..]| && MustBeUnique(opts[1..][i].kind.ToByte())
      ensures opts[1..][i].kind.ToByte() !in next
    {
      assert opts[1..][i] == opts[i + 1] && opts[1..][i] in opts[1..];
    }
  }

  lemma {:induction false} NoFragNoLimit(items: seq<Item>, areaLen: nat, offset: nat)
    requires forall i :: 0 <= i < |items| ==> items[i].Item? && !items[i].kind.Frag?
    ensures LimitOf(items, areaLen, offset) == Full
  {
    if items != [] {
      NoFragNoLimit(items[1..], areaLen, offset);
    }
  }

  lemma {:induction false} TlvsAreParsed(items: seq<Item>, i: nat)
    requires i < |items| && IsTlv(items[i])
    ensures RawOption(items[i].kind, items[i].value) in Parsed(items)
  {
    if i > 0 {
      TlvsAreParsed(items[1..], i - 1);
    }
  }

  /** Any canonical area of admissible options is read completely and without complaint. */
  lemma CanonicalAreaParses(area: seq<u8>, userData: seq<u8>, offset: nat, crc: u32)
    requires Canonical(Items(area, 0)) && AllAdmissible(Parsed(Items(area, 0))) && Distinct(Parsed(Items(area, 0)))
    ensures var opts := Parsed(Items(area, 0));
            ParseOptions(area, userData, offset, crc)
            == Ok(ParsedOptions(Kept(opts, crc), ReportsOf(opts, crc), None, false, false))
  {
    hide Items, Scan, LimitOf, Distinct;
    var items := Items(area, 0);
    forall i | 0 <= i < |items| ensures items[i].Item? && !items[i].kind.Frag? {
      if items[i].kind.Frag? {
        TlvsAreParsed(items, i);
      }
    }
    NoFragNoLimit(items, |area|, offset);
    ScanOfAdmissible(items, START, userData, crc);
    var opts := Parsed(items);
    assert [] + Kept(opts, crc) == Kept(opts, crc) && [] + ReportsOf(opts, crc) == ReportsOf(opts, crc);
  }

  // ---- the options of a send ----

  /** The options of a send in the order and form in which they travel. */
  function Travelling(payload: seq<u8>, options: SendOptions, crc: Crc): seq<RawOption> {
    NormalAll(SortByRank(AllOptions(payload, options, crc)))
  }

  lemma AllOptionsAreDistinct(payload: seq<u8>, options: SendOptions, crc: Crc)
    requires ValidateSendOptions(options).None?
    ensures !HasDuplicate(AllOptions(payload, options, crc))
    ensures forall i :: 0 <= i < |AllOptions(payload, options, crc)| ==> !IsFrag(AllOptions(payload, options, crc)[i])
  {
    hide U32Bytes;
    var all, raw := AllOptions(payload, options, crc), options.rawOptions;
    if options.includeApc {
      assert forall i :: 0 < i < |all| ==> all[i] == raw[i - 1];
    } else {
      assert all == raw;
    }
  }

  lemma PatchLeavesOthers(opts: seq<RawOption>, start: u16)
    requires forall i :: 0 <= i < |opts| ==> !IsFrag(opts[i])
    ensures PatchFragStart(opts, start) == opts
  {
  }

  /** The serializer's body of a permitted send is read back in full: every option is
      reported once in canonical order, and the acceptable ones are delivered. */
  lemma BodyIsRead(payload: seq<u8>, options: SendOptions, offset: nat, crc: Crc)
    requires ValidateSendOptions(options).None? && OptionsBody(payload, options, crc).Ok?
    requires OptionsBody(payload, options, crc).value != []
    ensures var body, opts, c := OptionsBody(payload, options, crc).value, Travelling(payload, options, crc), crc(payload);
            && |body| >= 2 && body[0] == 0 && body[1] == 0
            && ParseOptions(body[2..], payload, offset, c)
               == Ok(ParsedOptions(Kept(opts, c), ReportsOf(opts, c), None, false, false))
  {
    hide ValidateSendOptions, AllOptions, Finish, ParseOptions, Canonical, HasDuplicate, SortByRank;
    var all, body := AllOptions(payload, options, crc), OptionsBody(payload, options, crc).value;
    AllOptionsAreDistinct(payload, options, crc);
    TravellersAreAdmissible(all);
    SerializerRoundTrip(all);
    assert body[0] == body[..2][0] && body[1] == body[..2][1];
    PatchLeavesOthers(SortByRank(all), 8 + |body|);
    CanonicalAreaParses(body[2..], payload, offset, crc(payload));
  }

  lemma NormalIsAdmissible(o: RawOption)
    requires ValidateOption(o).None? && !IsFrag(o)
    ensures Admissible(Normal(o))
  {
  }

  lemma TravellersAreAdmissible(all: seq<RawOption>)
    requires Finish(all).Ok? && !HasDuplicate(all) && forall i :: 0 <= i < |all| ==> !IsFrag(all[i])
    ensures var sorted := SortByRank(all);
            && (forall i :: 0 <= i < |sorted| ==> !IsFrag(sorted[i]))
            && AllAdmissible(NormalAll(sorted)) && Distinct(NormalAll(sorted))
  {
    hide HasDuplicate, Distinct, Finish, ValidateOption, SortByRank, Ranked;
    FinishShape(all);
    var sorted := SortByRank(all);
    SortIsStable(all);
    SortKeepsEmittable(all);
    forall i | 0 <= i < |sorted| ensures !IsFrag(sorted[i]) && Admissible(NormalAll(sorted)[i]) {
      assert sorted[i] in multiset(sorted) && sorted[i] in multiset(all);
      NormalIsAdmissible(sorted[i]);
    }
    NoDuplicateIsDistinct(all);
    SortKeepsDistinct(all);
    NormalKeepsDistinct(sorted);
  }

  /** With a computed APC, or with none, everything but an unknown Kind is delivered. */
  lemma {:induction false} KnownKindsAreDelivered(opts: seq<RawOption>, crc: u32)
    requires AllAdmissible(opts)
    requires forall i :: 0 <= i < |opts| && opts[i].kind.Apc? ==> opts[i].value == U32Bytes(crc)
    ensures forall i :: 0 <= i < |opts| && !opts[i].kind.Other? ==> opts[i] in Kept(opts, crc)
    ensures forall o :: o in Kept(opts, crc) ==> o in opts && !o.kind.Other?
  {
    if opts != [] {
      KnownKindsAreDelivered(opts[1..], crc);
      KnownIsAccepted(opts[0], crc);
      assert opts == [opts[0]] + opts[1..];
    }
  }

  lemma KnownIsAccepted(o: RawOption, crc: u32)
    requires Admissible(o) && (o.kind.Apc? ==> o.value == U32Bytes(crc))
    ensures Accepts(o.kind, o.value, crc) == Success <==> !o.kind.Other?
  {
    if o.kind.Apc? {
      U32RoundTrip(crc);
    }
  }

  /** Every option of a known Kind reaches the application, unless the caller wrote an
      APC of their own. */
  lemma KnownOptionsArrive(payload: seq<u8>, options: SendOptions, crc: Crc)
    requires ValidateSendOptions(options).None? && OptionsBody(payload, options, crc).Ok?
    requires options.includeApc || !ContainsKind(options.rawOptions, APC)
    ensures var all := AllOptions(payload, options, crc);
            forall i :: 0 <= i < |all| && !Normal(all[i]).kind.Other? ==>
              Normal(all[i]) in Kept(Travelling(payload, options, crc), crc(payload))
  {
    hide Finish, HasDuplicate, SortByRank, U32Bytes, Kept, Distinct, Ranked, ValidateOption;
    var all := AllOptions(payload, options, crc);
    if options.includeApc || options.rawOptions != [] {
      AllOptionsAreDistinct(payload, options, crc);
      TravellersAreAdmissible(all);
      SortIsStable(all);
      var sorted, t := SortByRank(all), NormalAll(SortByRank(all));
      forall i | 0 <= i < |t| && t[i].kind.Apc? ensures t[i].value == U32Bytes(crc(payload)) {
        assert sorted[i] in multiset(sorted) && sorted[i] in multiset(all);
        OwnApc(payload, options, crc, sorted[i]);
      }
      KnownKindsAreDelivered(t, crc(payload));
      forall i | 0 <= i < |all| && !Normal(all[i]).kind.Other? ensures Normal(all[i]) in Kept(t, crc(payload)) {
        assert all[i] in multiset(all) && all[i] in multiset(sorted);
        var j :| 0 <= j < |sorted| && sorted[j] == all[i];
        assert t[j] == Normal(all[i]);
      }
    }
  }

  lemma OwnApc(payload: seq<u8>, options: SendOptions, crc: Crc, o: RawOption)
    requires ValidateSendOptions(options).None? && (options.includeApc || !ContainsKind(options.rawOptions, APC))
    requires o in AllOptions(payload, options, crc) && Normal(o).kind.Apc?
    ensures o.value == U32Bytes(crc(payload))
  {
    hide U32Bytes, HasDuplicate;
  }
}
