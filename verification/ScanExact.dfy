/** The option scan told item by item: which item stops it, what every earlier item is
    reported as, and which are delivered. */
module ScanExact {
  import opened Bytes
  import opened OptionKinds
  import opened OptionParser
  import opened OptionScan
  import opened ScanFacts

  // ---- one item ----

  /** Shorter than any option of its Kind may be, Kind and Length included. */
  predicate TooShort(it: Item) {
    && it.Item?
    && var kind, len := it.kind.ToByte(), |it.value| + 2;
       || (kind == 2 && len < 6) || (kind == 3 && len < 10) || (kind == 4 && len < 4) || (kind == 5 && len < 5)
       || ((kind == 6 || kind == 7) && len < 6) || (kind == 8 && len < 10) || (kind == 127 && len < 4)
  }

  lemma TooShortIsSubMinimum(it: Item)
    requires it.Item?
    ensures TooShort(it) <==> SubMinimum(it.kind, it.value)
  {
  }

  predicate AllItems(items: seq<Item>, k: nat)
    requires k <= |items|
  {
    forall j :: 0 <= j < k ==> items[j].Item?
  }

  predicate IsKind(it: Item, kind: OptionKind) {
    it.Item? && it.kind == kind
  }

  predicate Earlier(items: seq<Item>, k: nat, kind: OptionKind)
    requires k <= |items|
  {
    exists j :: 0 <= j < k && IsKind(items[j], kind)
  }

  /** The scan goes past item `k`: it is well formed, long enough, not UNSAFE, and if FRAG,
      the first one and of a known format. APC is not looked at inside a fragment. */
  predicate Passes(items: seq<Item>, k: nat, inFragment: bool)
    requires k < |items|
  {
    var it := items[k];
    && it.Item?
    && (TooShort(it) ==> inFragment && it.kind.Apc?)
    && !IsUnsafe(it)
    && (it.kind.Frag? ==> (|it.value| == 8 || |it.value| == 10) && !Earlier(items, k, Frag))
  }

  /** Kinds of which only the first occurrence counts. */
  predicate Tracked(kind: OptionKind, inFragment: bool) {
    match kind
    case Apc => !inFragment
    case Mds => true
    case Mrds => true
    case Req => true
    case Res => true
    case _ => false
  }

  /** What item `k` must be reported as: an unknown Kind, a repetition and an APC inside a
      fragment are ignored; otherwise APC succeeds when it is the checksum of the user data,
      and the others when they have their length. */
  function Due(items: seq<Item>, k: nat, inFragment: bool, crc: u32): OptionStatus
    requires k < |items| && items[k].Item?
  {
    var it := items[k];
    if !Tracked(it.kind, inFragment) || Earlier(items, k, it.kind) then Ignored
    else if (it.kind.Apc? && it.value == U32Bytes(crc)) || (it.kind.Mds? && |it.value| == 2)
            || (it.kind.Mrds? && |it.value| == 3) || ((it.kind.Req? || it.kind.Res?) && |it.value| == 4)
    then Success else Failed
  }

  /** The reports for the first `k` items, in order. */
  function DueReports(items: seq<Item>, k: nat, inFragment: bool, crc: u32): seq<OptionReport>
    requires k <= |items| && AllItems(items, k)
  {
    if k == 0 then []
    else DueReports(items, k - 1, inFragment, crc)
         + (if Reportable(items[k - 1]) then [OptionReport(items[k - 1].kind, Due(items, k - 1, inFragment, crc), FromDatagram)]
            else [])
  }

  /** The successful ones among the first `k` items. */
  function DueOptions(items: seq<Item>, k: nat, inFragment: bool, crc: u32): seq<RawOption>
    requires k <= |items| && AllItems(items, k)
  {
    if k == 0 then []
    else DueOptions(items, k - 1, inFragment, crc)
         + (if Due(items, k - 1, inFragment, crc) == Success then [RawOption(items[k - 1].kind, items[k - 1].value)] else [])
  }

  /** The FRAG among the first `k` items. */
  function FirstFrag(items: seq<Item>, k: nat): Option<FragOption>
    requires k <= |items| && AllItems(items, k)
  {
    if k == 0 then None
    else if FirstFrag(items, k - 1).Some? then FirstFrag(items, k - 1)
    else if items[k - 1].kind.Frag? then DecodeFrag(items[k - 1].value) else None
  }

  lemma ApcValue(value: seq<u8>, crc: u32)
    ensures (|value| == 4 && U32At(value, 0) == crc) <==> value == U32Bytes(crc)
  {
    hide U32At, U32Bytes;
    U32RoundTrip(crc);
    if |value| == 4 {
      U32Back(value);
    }
  }

  // ---- the run up to item k ----

  /** What the scan has gathered when it comes to item `k`. */
  ghost predicate Gathers(acc: Acc, items: seq<Item>, k: nat, inFragment: bool, crc: u32)
    requires k <= |items| && AllItems(items, k)
  {
    && acc.options == DueOptions(items, k, inFragment, crc)
    && acc.reports == DueReports(items, k, inFragment, crc)
    && acc.frag == FirstFrag(items, k)
    && (FRAG in acc.seen <==> Earlier(items, k, Frag)) && (acc.frag.Some? <==> Earlier(items, k, Frag))
    && (forall kind :: Tracked(kind, inFragment) ==> (kind.ToByte() in acc.seen <==> Earlier(items, k, kind)))
  }

  lemma EarlierNext(items: seq<Item>, k: nat, kind: OptionKind)
    requires k < |items|
    ensures Earlier(items, k + 1, kind) <==> Earlier(items, k, kind) || IsKind(items[k], kind)
  {
  }

  /** One step past an item, told by what it adds. */
  lemma StepAdds(acc: Acc, items: seq<Item>, k: nat, userData: seq<u8>, inFragment: bool, crc: u32)
    requires k < |items| && Passes(items, k, inFragment)
    requires items[k].Item? && (items[k].kind.Frag? ==> FRAG !in acc.seen)
    requires Tracked(items[k].kind, inFragment) ==> (items[k].kind.ToByte() in acc.seen <==> Earlier(items, k, items[k].kind))
    ensures var it, due := items[k], Due(items, k, inFragment, crc);
            ScanStep(acc, it, userData, inFragment, crc)
            == Go(Acc(acc.options + (if due == Success then [RawOption(it.kind, it.value)] else []),
                      acc.reports + (if Reportable(it) then [OptionReport(it.kind, due, FromDatagram)] else []),
                      acc.seen + (if it.kind.Frag? || Tracked(it.kind, inFragment) then {it.kind.ToByte()} else {}),
                      if it.kind.Frag? then DecodeFrag(it.value) else acc.frag))
  {
    hide TooShort, SubMinimum, U32At, U32Bytes, DecodeFrag, Earlier;
    var it := items[k];
    TooShortIsSubMinimum(it);
    ApcValue(it.value, crc);
    DecodableFrag(it.value);
    assert acc.options + [] == acc.options && acc.reports + [] == acc.reports && acc.seen + {} == acc.seen;
    assert it.kind.ToByte() in acc.seen ==> acc.seen + {it.kind.ToByte()} == acc.seen;
  }

  lemma StepPasses(acc: Acc, items: seq<Item>, k: nat, userData: seq<u8>, inFragment: bool, crc: u32)
    requires k < |items| && AllItems(items, k + 1) && Passes(items, k, inFragment)
    requires Gathers(acc, items, k, inFragment, crc)
    ensures ScanStep(acc, items[k], userData, inFragment, crc).Go?
    ensures Gathers(ScanStep(acc, items[k], userData, inFragment, crc).acc, items, k + 1, inFragment, crc)
  {
    hide ScanStep, TooShort, DecodeFrag, Earlier, Due;
    var it := items[k];
    StepAdds(acc, items, k, userData, inFragment, crc);
    DecodableFrag(it.value);
    forall kind ensures Earlier(items, k + 1, kind) <==> Earlier(items, k, kind) || IsKind(it, kind) {
      EarlierNext(items, k, kind);
    }
  }

  lemma DecodableFrag(value: seq<u8>)
    ensures DecodeFrag(value).Some? <==> |value| == 8 || |value| == 10
  {
  }

  lemma {:induction false} ScanReaches(items: seq<Item>, k: nat, userData: seq<u8>, inFragment: bool, crc: u32) returns (acc: Acc)
    requires k <= |items| && forall j :: 0 <= j < k ==> Passes(items, j, inFragment)
    ensures AllItems(items, k) && Gathers(acc, items, k, inFragment, crc)
    ensures Scan(items, START, userData, inFragment, crc) == Scan(items[k..], acc, userData, inFragment, crc)
    decreases k
  {
    hide Passes, Gathers, Scan, ScanStep;
    PassedAreItems(items, k, inFragment);
    if k == 0 {
      acc := START;
      GathersNothing(items, inFragment, crc);
      assert items[0..] == items;
    } else {
      acc := ScanReaches(items, k - 1, userData, inFragment, crc);
      StepPasses(acc, items, k - 1, userData, inFragment, crc);
      ScanUnfolds(items[k - 1..], acc, userData, inFragment, crc);
      assert items[k - 1..][1..] == items[k..];
      acc := ScanStep(acc, items[k - 1], userData, inFragment, crc).acc;
    }
  }

  lemma PassedAreItems(items: seq<Item>, k: nat, inFragment: bool)
    requires k <= |items| && forall j :: 0 <= j < k ==> Passes(items, j, inFragment)
    ensures AllItems(items, k)
  {
    forall j | 0 <= j < k ensures items[j].Item? {
      assert Passes(items, j, inFragment);
    }
  }

  lemma GathersNothing(items: seq<Item>, inFragment: bool, crc: u32)
    ensures Gathers(START, items, 0, inFragment, crc)
  {
  }

  /** Nothing stops the scan: every item is reported as it is due. */
  lemma ScanToTheEnd(items: seq<Item>, userData: seq<u8>, inFragment: bool, crc: u32)
    requires forall j :: 0 <= j < |items| ==> Passes(items, j, inFragment)
    ensures AllItems(items, |items|)
    ensures Scan(items, START, userData, inFragment, crc)
         == Ok(ParsedOptions(DueOptions(items, |items|, inFragment, crc), DueReports(items, |items|, inFragment, crc),
                             FirstFrag(items, |items|), false, false))
  {
    hide Scan;
    var acc := ScanReaches(items, |items|, userData, inFragment, crc);
    assert items[|items|..] == [];
    ScanEnds(acc, userData, inFragment, crc);
  }

  /** What the item that stops the scan makes of what was gathered. An UNSAFE option and a
      FRAG of unknown format raise the UNSAFE flag; an error, a short option and a second
      FRAG void the area, or the fragment if it is one. */
  function Stopped(items: seq<Item>, k: nat, userData: seq<u8>, inFragment: bool, crc: u32): (r: Option<ParsedOptions>)
    requires k < |items| && AllItems(items, k)
  {
    var it, options, reports := items[k], DueOptions(items, k, inFragment, crc), DueReports(items, k, inFragment, crc);
    if it.Item? && !TooShort(it) && IsUnsafe(it) then
      Some(ParsedOptions(options, reports + [OptionReport(it.kind, Failed, FromDatagram)], FirstFrag(items, k), true, false))
    else if it.Item? && !TooShort(it) && !Earlier(items, k, Frag) then Some(ParsedOptions(options, reports, None, true, false))
    else if Earlier(items, k, Frag) && userData == [] then Some(ParsedOptions([], [], FirstFrag(items, k), false, true))
    else None
  }

  /** The first item that does not pass decides the result. */
  lemma ScanStopsAt(items: seq<Item>, k: nat, userData: seq<u8>, inFragment: bool, crc: u32)
    requires k < |items| && (forall j :: 0 <= j < k ==> Passes(items, j, inFragment)) && !Passes(items, k, inFragment)
    ensures AllItems(items, k)
    ensures var r, stopped := Scan(items, START, userData, inFragment, crc), Stopped(items, k, userData, inFragment, crc);
            if stopped.Some? then r == Ok(stopped.value) else r.Err?
  {
    hide Scan, TooShort, SubMinimum, Earlier, DecodeFrag;
    var acc := ScanReaches(items, k, userData, inFragment, crc);
    assert items[k..][0] == items[k];
    ScanUnfolds(items[k..], acc, userData, inFragment, crc);
    if items[k].Item? {
      TooShortIsSubMinimum(items[k]);
      DecodableFrag(items[k].value);
      ShortApc(items[k]);
    }
  }

  lemma ShortApc(it: Item)
    requires it.Item?
    ensures TooShort(it) && IsUnsafe(it) ==> false
  {
  }

  // ---- which bytes are scanned ----

  /** With user data, or with no FRAG in front of the first final item, the whole area is
      scanned as that of a datagram. */
  lemma DatagramAreaIsScanned(area: seq<u8>, userData: seq<u8>, offset: nat, crc: u32, k: nat)
    requires k <= |Items(area, 0)|
    requires userData == [] ==>
               && (forall j :: 0 <= j < k ==> Items(area, 0)[j].Item? && !Items(area, 0)[j].kind.Frag?)
               && (k < |Items(area, 0)| ==>
                     var it := Items(area, 0)[k];
                     it.Bad? || Final(it) || (it.kind.Frag? && |it.value| != 8 && |it.value| != 10))
    ensures ParseOptions(area, userData, offset, crc) == Scan(Items(area, 0), START, userData, false, crc)
  {
    hide Items, Scan, DecodeFrag;
    if userData == [] {
      NoLimitUntil(Items(area, 0), k, |area|, offset);
    }
  }

  lemma {:induction false} NoLimitUntil(items: seq<Item>, k: nat, areaLen: nat, offset: nat)
    requires k <= |items| && forall j :: 0 <= j < k ==> items[j].Item? && !items[j].kind.Frag?
    requires k < |items| ==>
               items[k].Bad? || Final(items[k]) || (items[k].kind.Frag? && |items[k].value| != 8 && |items[k].value| != 10)
    ensures LimitOf(items, areaLen, offset) == Full
    decreases k
  {
    hide DecodeFrag;
    if items != [] {
      if items[0].Item? { DecodableFrag(items[0].value); }
      if k > 0 {
        NoLimitUntil(items[1..], k - 1, areaLen, offset);
      }
    }
  }

  /** An empty-payload datagram with a FRAG is a fragment. Its FRAG must point behind itself
      and into the area; then the options in front of the pointer are scanned, otherwise the
      fragment has failed. */
  lemma FragmentAreaIsCut(area: seq<u8>, offset: nat, crc: u32, k: nat)
    requires k < |Items(area, 0)| && IsKind(Items(area, 0)[k], Frag) && DecodeFrag(Items(area, 0)[k].value).Some?
    requires forall j :: 0 <= j < k ==> Items(area, 0)[j].Item? && !Items(area, 0)[j].kind.Frag? && !Final(Items(area, 0)[j])
    ensures var it := Items(area, 0)[k];
            var frag := DecodeFrag(it.value).value;
            if offset + it.end <= frag.fragStart <= offset + |area|
            then ParseOptions(area, [], offset, crc) == Scan(Items(area[..frag.fragStart - offset], 0), START, [], true, crc)
            else ParseOptions(area, [], offset, crc) == Ok(ParsedOptions([], [], Some(frag), true, true))
  {
    hide Items, Scan, DecodeFrag;
    FirstFragSetsLimit(Items(area, 0), k, |area|, offset);
  }

  lemma {:induction false} FirstFragSetsLimit(items: seq<Item>, k: nat, areaLen: nat, offset: nat)
    requires k < |items| && IsKind(items[k], Frag) && DecodeFrag(items[k].value).Some?
    requires forall j :: 0 <= j < k ==> items[j].Item? && !items[j].kind.Frag? && !Final(items[j])
    ensures var frag := DecodeFrag(items[k].value).value;
            LimitOf(items, areaLen, offset)
            == if offset + items[k].end <= frag.fragStart <= offset + areaLen then End(frag.fragStart - offset)
               else MalformedFrag(frag)
    decreases k
  {
    hide DecodeFrag;
    if k > 0 {
      FirstFragSetsLimit(items[1..], k - 1, areaLen, offset);
    }
  }

  // ---- consequences on any parse that ends normally ----

  lemma {:induction false} FirstStop(items: seq<Item>, n: nat, inFragment: bool) returns (k: nat)
    requires n <= |items|
    ensures k <= n && (forall j :: 0 <= j < k ==> Passes(items, j, inFragment)) && (k < n ==> !Passes(items, k, inFragment))
  {
    hide Passes;
    if n == 0 {
      k := 0;
    } else {
      k := FirstStop(items, n - 1, inFragment);
      if k == n - 1 && Passes(items, k, inFragment) {
        k := n;
      }
    }
  }

  lemma {:induction false} DueApc(items: seq<Item>, k: nat, inFragment: bool, crc: u32)
    requires k <= |items| && AllItems(items, k)
    ensures forall o :: o in DueOptions(items, k, inFragment, crc) && o.kind.Apc? ==> o.value == U32Bytes(crc) && !inFragment
  {
    hide U32Bytes, Earlier;
    if k > 0 {
      DueApc(items, k - 1, inFragment, crc);
    }
  }

  /** No parse ever delivers an APC other than the checksum of the user data. */
  lemma DeliveredApcIsRight(area: seq<u8>, userData: seq<u8>, offset: nat, crc: u32)
    requires ParseOptions(area, userData, offset, crc).Ok?
    ensures forall o :: o in ParseOptions(area, userData, offset, crc).value.options && o.kind.Apc? ==> o.value == U32Bytes(crc)
  {
    hide Items, Scan, FragmentOptionLimit, U32Bytes;
    match FragmentOptionLimit(area, userData == [], offset)
    case Full => ScannedApcIsRight(Items(area, 0), userData, false, crc);
    case End(end) => ScannedApcIsRight(Items(area[..end], 0), userData, true, crc);
    case MalformedFrag(_) =>
  }

  lemma ScannedApcIsRight(items: seq<Item>, userData: seq<u8>, inFragment: bool, crc: u32)
    requires Scan(items, START, userData, inFragment, crc).Ok?
    ensures forall o :: o in Scan(items, START, userData, inFragment, crc).value.options && o.kind.Apc? ==> o.value == U32Bytes(crc)
  {
    hide Scan, U32Bytes, Passes, TooShort, Earlier;
    var k := FirstStop(items, |items|, inFragment);
    if k == |items| {
      ScanToTheEnd(items, userData, inFragment, crc);
    } else {
      ScanStopsAt(items, k, userData, inFragment, crc);
    }
    DueApc(items, k, inFragment, crc);
  }
}
