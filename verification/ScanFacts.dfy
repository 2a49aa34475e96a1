/** What the option scan depends on, and how its reports and deliveries relate to the
    options on the wire. */
module ScanFacts {
  import opened Bytes
  import opened OptionKinds
  import opened OptionParser
  import opened OptionScan

  // ---- bytes that cannot matter ----

  predicate IsUnsafe(it: Item) {
    it.Item? && it.kind.Other? && !it.kind.IsSafe()
  }

  /** An item after which nothing is read: EOL or an UNSAFE option. */
  predicate Final(it: Item) {
    it.Item? && (it.kind.Eol? || IsUnsafe(it))
  }

  /** Item `k` of the walk from `pos` is final and no FRAG or error comes before it. */
  predicate FinalAt(items: seq<Item>, k: nat) {
    k < |items| && Final(items[k]) && forall j :: 0 <= j < k ==> items[j].Item? && !items[j].kind.Frag?
  }

  predicate SamePrefix(a: seq<Item>, b: seq<Item>, k: nat) {
    k < |a| && k < |b| && forall j :: 0 <= j <= k ==> a[j] == b[j]
  }

  lemma SamePrefixCons(it: Item, a: seq<Item>, b: seq<Item>, k: nat)
    requires SamePrefix(a, b, k)
    ensures SamePrefix([it] + a, [it] + b, k + 1)
  {
    forall j | 0 <= j <= k + 1 ensures ([it] + a)[j] == ([it] + b)[j] {
      if j > 0 { assert a[j - 1] == b[j - 1]; }
    }
  }

  lemma ItemsUnfold(b: seq<u8>, pos: nat)
    requires |Items(b, pos)| > 0
    ensures pos < |b| && Items(b, pos)[0] == NextItem(b, pos)
    ensures var it := NextItem(b, pos);
            Items(b, pos) == [it] + (if it.Bad? || it.kind.Eol? then [] else Items(b, it.end))
  {
  }

  /** Walks over areas that agree up to the end of item `k` agree on all items up to it. */
  lemma {:induction false} ItemsAgree(a: seq<u8>, b: seq<u8>, pos: nat, k: nat, e: nat)
    requires k < |Items(a, pos)| && (forall j :: 0 <= j <= k ==> Items(a, pos)[j].Item?)
    requires Items(a, pos)[k].end <= e <= |a| && e <= |b| && a[..e] == b[..e]
    ensures SamePrefix(Items(a, pos), Items(b, pos), k) && pos < e
    decreases k
  {
    hide NextItem, SamePrefix;
    ItemsUnfold(a, pos);
    var it := NextItem(a, pos);
    if k == 0 {
      ItemIsLocal(a, b, pos, e);
      ItemsStart(a, b, pos);
    } else {
      var rest := Items(a, it.end);
      assert forall j :: 0 <= j <= k - 1 ==> rest[j] == Items(a, pos)[j + 1];
      ItemsAgree(a, b, it.end, k - 1, e);
      ItemIsLocal(a, b, pos, e);
      SamePrefixCons(it, rest, Items(b, it.end), k - 1);
    }
  }

  lemma ItemsStart(a: seq<u8>, b: seq<u8>, pos: nat)
    requires pos < |a| && pos < |b| && NextItem(a, pos) == NextItem(b, pos)
    ensures SamePrefix(Items(a, pos), Items(b, pos), 0)
  {
    hide NextItem;
  }

  lemma {:induction false} ScanAgrees(a: seq<Item>, b: seq<Item>, k: nat, acc: Acc, userData: seq<u8>, inFragment: bool, crc: u32)
    requires SamePrefix(a, b, k) && IsUnsafe(a[k])
    ensures Scan(a, acc, userData, inFragment, crc) == Scan(b, acc, userData, inFragment, crc)
    decreases k
  {
    hide DecodeFrag, Once, Condemn;
    assert a[0] == b[0];
    if k > 0 && ScanStep(acc, a[0], userData, inFragment, crc).Go? {
      ScanAgrees(a[1..], b[1..], k - 1, ScanStep(acc, a[0], userData, inFragment, crc).acc, userData, inFragment, crc);
    }
  }

  lemma {:induction false} NoLimitBeforeFinal(items: seq<Item>, k: nat, areaLen: nat, offset: nat)
    requires FinalAt(items, k)
    ensures LimitOf(items, areaLen, offset) == Full
    decreases k
  {
    if k > 0 {
      assert items[0].Item? && !items[0].kind.Frag?;
      var rest := items[1..];
      assert rest[k - 1] == items[k];
      forall j | 0 <= j < k - 1 ensures rest[j].Item? && !rest[j].kind.Frag? {
        assert rest[j] == items[j + 1];
      }
      NoLimitBeforeFinal(rest, k - 1, areaLen, offset);
    }
  }

  lemma {:induction false} EolIsLast(b: seq<u8>, pos: nat, k: nat)
    requires k < |Items(b, pos)| && Items(b, pos)[k].Item? && Items(b, pos)[k].kind.Eol?
    ensures |Items(b, pos)| == k + 1
    decreases k
  {
    hide NextItem;
    var it := NextItem(b, pos);
    if k > 0 {
      assert Items(b, pos) == [it] + Items(b, it.end);
      EolIsLast(b, it.end, k - 1);
    }
  }

  /** With no FRAG before it, bytes behind the first EOL or the first UNSAFE option
      cannot change the result. */
  lemma BytesBehindTheEndAreIgnored(a: seq<u8>, b: seq<u8>, k: nat, userData: seq<u8>, offset: nat, crc: u32)
    requires FinalAt(Items(a, 0), k)
    requires var e := Items(a, 0)[k].end; e <= |a| && e <= |b| && a[..e] == b[..e]
    ensures ParseOptions(a, userData, offset, crc) == ParseOptions(b, userData, offset, crc)
  {
    hide Items, Scan, LimitOf;
    var x, y := Items(a, 0), Items(b, 0);
    ItemsAgree(a, b, 0, k, x[k].end);
    NoLimitBeforeFinal(x, k, |a|, offset);
    NoLimitBeforeFinal(y, k, |b|, offset);
    if x[k].kind.Eol? {
      EolIsLast(a, 0, k);
      EolIsLast(b, 0, k);
      assert x == y;
    } else {
      ScanAgrees(x, y, k, START, userData, false, crc);
    }
  }

  lemma {:induction false} LimitAgrees(a: seq<u8>, b: seq<u8>, pos: nat, offset: nat, e: nat)
    requires LimitOf(Items(a, pos), |a|, offset) == End(e)
    requires e <= |a| && e <= |b| && a[..e] == b[..e]
    ensures LimitOf(Items(b, pos), |b|, offset) == End(e) && pos < e
    decreases |a| - pos
  {
    hide NextItem, DecodeFrag;
    var it := NextItem(a, pos);
    assert Items(a, pos)[0] == it;
    if it.kind.Frag? {
      assert it.end <= e;
    } else {
      assert Items(a, pos) == [it] + Items(a, it.end);
      assert Items(a, pos)[1..] == Items(a, it.end);
      LimitAgrees(a, b, it.end, offset, e);
    }
    ItemIsLocal(a, b, pos, e);
    if !it.kind.Frag? {
      assert Items(b, pos)[1..] == Items(b, it.end);
    }
  }

  /** For a fragment with an in-bounds Frag. Start, bytes at or behind it cannot change
      options, reports or flags. */
  lemma FragmentDataIsNotParsed(a: seq<u8>, b: seq<u8>, offset: nat, crc: u32, e: nat)
    requires FragmentOptionLimit(a, true, offset) == End(e)
    requires e <= |b| && a[..e] == b[..e]
    ensures ParseOptions(a, [], offset, crc) == ParseOptions(b, [], offset, crc)
  {
    hide Items, Scan, LimitOf;
    LimitAgrees(a, b, 0, offset, e);
  }

  // ---- where the fragment data starts ----

  /** EOL can only be the last item. */
  predicate EolLast(items: seq<Item>) {
    forall i :: 0 <= i < |items| - 1 ==> !(items[i].Item? && items[i].kind.Eol?)
  }

  lemma ItemsEndAtEol(b: seq<u8>)
    ensures EolLast(Items(b, 0))
  {
    hide Items;
    var items := Items(b, 0);
    forall i | 0 <= i < |items| - 1 ensures !(items[i].Item? && items[i].kind.Eol?) {
      if items[i].Item? && items[i].kind.Eol? {
        EolIsLast(b, 0, i);
      }
    }
  }

  /** A FRAG once taken is the one that is returned. */
  lemma {:induction false} FragStays(items: seq<Item>, acc: Acc, userData: seq<u8>, inFragment: bool, crc: u32)
    requires acc.frag.Some? && FRAG in acc.seen && Scan(items, acc, userData, inFragment, crc).Ok?
    ensures Scan(items, acc, userData, inFragment, crc).value.frag == acc.frag
    decreases items
  {
    hide DecodeFrag, SubMinimum, Accepts;
    if items != [] {
      var step := ScanStep(acc, items[0], userData, inFragment, crc);
      if step.Go? {
        FragStays(items[1..], step.acc, userData, inFragment, crc);
      }
    }
  }

  /** The FRAG found by the scan is the one that set the limit. */
  lemma {:induction false} FragSetsTheLimit(items: seq<Item>, areaLen: nat, offset: nat, acc: Acc, inFragment: bool, crc: u32)
    requires EolLast(items) && acc.frag.None? && FRAG !in acc.seen && Scan(items, acc, [], inFragment, crc).Ok?
    requires Scan(items, acc, [], inFragment, crc).value.frag.Some?
    ensures var limit := LimitOf(items, areaLen, offset);
            && limit != Full
            && (limit.End? ==> Scan(items, acc, [], inFragment, crc).value.frag.value.fragStart == offset + limit.end)
    decreases items
  {
    hide DecodeFrag, Accepts, SubMinimum;
    var it, step := items[0], ScanStep(acc, items[0], [], inFragment, crc);
    assert EolLast(items[1..]);
    if it.kind.Frag? {
      FragStays(items[1..], step.acc, [], inFragment, crc);
    } else {
      FragSetsTheLimit(items[1..], areaLen, offset, step.acc, inFragment, crc);
    }
  }

  /** The FRAG of a sound fragment points into the option area. */
  lemma FragStartIsInside(area: seq<u8>, offset: nat, crc: u32)
    requires ParseOptions(area, [], offset, crc).Ok?
    requires var po := ParseOptions(area, [], offset, crc).value; po.frag.Some? && !po.fragmentFailed
    ensures offset <= ParseOptions(area, [], offset, crc).value.frag.value.fragStart <= offset + |area|
  {
    hide Items, Scan, LimitOf;
    match FragmentOptionLimit(area, true, offset)
    case Full =>
      ItemsEndAtEol(area);
      FragSetsTheLimit(Items(area, 0), |area|, offset, START, false, crc);
    case MalformedFrag(_) =>
    case End(end) =>
      var cut := area[..end];
      assert cut[..end] == cut;
      LimitAgrees(area, cut, 0, offset, end);
      ItemsEndAtEol(cut);
      FragSetsTheLimit(Items(cut, 0), |cut|, offset, START, true, crc);
  }

  // ---- reports and deliveries ----

  predicate Reportable(it: Item) {
    it.Item? && !it.kind.Eol? && !it.kind.Nop? && !it.kind.Frag?
  }

  /** The options of the area that must be accounted for, in wire order. */
  function Wire(items: seq<Item>): seq<Item> {
    if items == [] then [] else (if Reportable(items[0]) then [items[0]] else []) + Wire(items[1..])
  }

  /** The items whose report says `Success`. */
  function Successes(wire: seq<Item>, reports: seq<OptionReport>): seq<RawOption>
    requires |wire| == |reports| && forall i :: 0 <= i < |wire| ==> wire[i].Item?
  {
    if wire == [] then []
    else (if reports[0].status == Success then [RawOption(wire[0].kind, wire[0].value)] else [])
         + Successes(wire[1..], reports[1..])
  }

  /** One report per wire option, in order and of its Kind. */
  predicate Accounts(wire: seq<Item>, reports: seq<OptionReport>) {
    && |wire| == |reports|
    && forall i :: 0 <= i < |wire| ==>
         wire[i].Item? && reports[i].kind == wire[i].kind && reports[i].source == FromDatagram
  }

  /** The options scanned so far were each seen for the first time. */
  predicate DistinctSeen(options: seq<RawOption>, seen: set<u8>) {
    && (forall i :: 0 <= i < |options| ==> options[i].kind.ToByte() in seen)
    && (forall i, j :: 0 <= i < j < |options| ==> options[i].kind.ToByte() != options[j].kind.ToByte())
  }

  /** What one step of the scan adds for one item. */
  lemma StepReports(acc: Acc, it: Item, userData: seq<u8>, inFragment: bool, crc: u32)
    requires ScanStep(acc, it, userData, inFragment, crc).Go? && DistinctSeen(acc.options, acc.seen)
    ensures var next := ScanStep(acc, it, userData, inFragment, crc).acc;
            && DistinctSeen(next.options, next.seen)
            && (if Reportable(it) then
                  && |next.reports| == |acc.reports| + 1 && next.reports[..|acc.reports|] == acc.reports
                  && var r := next.reports[|acc.reports|];
                     && r.kind == it.kind && r.source == FromDatagram
                     && next.options == acc.options + (if r.status == Success then [RawOption(it.kind, it.value)] else [])
                else next.reports == acc.reports && next.options == acc.options)
  {
    hide SubMinimum, DecodeFrag, Accepts;
  }

  lemma {:induction false} ScanReports(items: seq<Item>, acc: Acc, userData: seq<u8>, inFragment: bool, crc: u32)
    returns (added: seq<OptionReport>)
    requires DistinctSeen(acc.options, acc.seen)
    requires var r := Scan(items, acc, userData, inFragment, crc);
             r.Ok? && !r.value.unsafeSeen && !r.value.fragmentFailed
    ensures var po := Scan(items, acc, userData, inFragment, crc).value;
            && Accounts(Wire(items), added)
            && po.reports == acc.reports + added
            && po.options == acc.options + Successes(Wire(items), added)
            && (forall i, j :: 0 <= i < j < |po.options| ==> po.options[i].kind.ToByte() != po.options[j].kind.ToByte())
    decreases items
  {
    hide ScanStep, Reportable, Scan, Accounts, Successes, Wire;
    if items == [] {
      added := [];
      ScanEnds(acc, userData, inFragment, crc);
      NothingReported(acc);
    } else {
      var it := items[0];
      var next := StepGoes(acc, it, items, userData, inFragment, crc);
      StepReports(acc, it, userData, inFragment, crc);
      var rest := ScanReports(items[1..], next, userData, inFragment, crc);
      if Reportable(it) {
        var r := next.reports[|acc.reports|];
        added := [r] + rest;
        assert next.reports == acc.reports + [r];
        assert (acc.reports + [r]) + rest == acc.reports + added;
        OneMore(items, r, rest);
      } else {
        added := rest;
        NoneMore(items);
      }
    }
  }

  lemma NothingReported(acc: Acc)
    ensures Accounts(Wire([]), []) && Successes(Wire([]), []) == []
    ensures acc.reports + [] == acc.reports && acc.options + [] == acc.options
  {
  }

  lemma OneMore(items: seq<Item>, r: OptionReport, rest: seq<OptionReport>)
    requires items != [] && Reportable(items[0]) && Accounts(Wire(items[1..]), rest)
    requires r.kind == items[0].kind && r.source == FromDatagram
    ensures Accounts(Wire(items), [r] + rest)
    ensures forall o: seq<RawOption> ::
              (o + (if r.status == Success then [RawOption(items[0].kind, items[0].value)] else []))
              + Successes(Wire(items[1..]), rest) == o + Successes(Wire(items), [r] + rest)
  {
    assert Wire(items)[1..] == Wire(items[1..]) && ([r] + rest)[1..] == rest;
  }

  lemma NoneMore(items: seq<Item>)
    requires items != [] && !Reportable(items[0])
    ensures Wire(items) == Wire(items[1..])
  {
  }

  /** A scan that ends normally went on at its first item. */
  lemma StepGoes(acc: Acc, it: Item, items: seq<Item>, userData: seq<u8>, inFragment: bool, crc: u32) returns (next: Acc)
    requires items != [] && it == items[0]
    requires var r := Scan(items, acc, userData, inFragment, crc);
             r.Ok? && !r.value.unsafeSeen && !r.value.fragmentFailed
    ensures ScanStep(acc, it, userData, inFragment, crc) == Go(next)
    ensures Scan(items, acc, userData, inFragment, crc) == Scan(items[1..], next, userData, inFragment, crc)
  {
    hide SubMinimum, DecodeFrag, Once;
    next := match ScanStep(acc, it, userData, inFragment, crc) case Go(a) => a case Stop(_) => acc;
  }

  /** Conservation: a normal parse reports every option of the area except EOL, NOP and
      FRAG exactly once and in wire order, and delivers exactly the successful ones, at
      most one of each Kind. */
  lemma ReportConservation(items: seq<Item>, userData: seq<u8>, inFragment: bool, crc: u32)
    requires var r := Scan(items, START, userData, inFragment, crc);
             r.Ok? && !r.value.unsafeSeen && !r.value.fragmentFailed
    ensures var po := Scan(items, START, userData, inFragment, crc).value;
            && Accounts(Wire(items), po.reports)
            && po.options == Successes(Wire(items), po.reports)
            && (forall i, j :: 0 <= i < j < |po.options| ==> po.options[i].kind.ToByte() != po.options[j].kind.ToByte())
  {
    var added := ScanReports(items, START, userData, inFragment, crc);
    var po := Scan(items, START, userData, inFragment, crc).value;
    assert po.reports == [] + added == added;
    assert po.options == [] + Successes(Wire(items), added) == Successes(Wire(items), added);
  }

  /** The UNSAFE flag always has a cause on the wire. */
  lemma {:induction false} UnsafeHasACause(items: seq<Item>, acc: Acc, userData: seq<u8>, inFragment: bool, crc: u32)
    requires Scan(items, acc, userData, inFragment, crc).Ok?
    requires Scan(items, acc, userData, inFragment, crc).value.unsafeSeen
    ensures exists it :: it in items && (IsUnsafe(it) || (it.Item? && it.kind.Frag? && DecodeFrag(it.value).None?))
    decreases items
  {
    hide DecodeFrag, Once;
    if ScanStep(acc, items[0], userData, inFragment, crc).Go? {
      UnsafeHasACause(items[1..], ScanStep(acc, items[0], userData, inFragment, crc).acc, userData, inFragment, crc);
      var it :| it in items[1..] && (IsUnsafe(it) || (it.Item? && it.kind.Frag? && DecodeFrag(it.value).None?));
      assert it in items;
    } else {
      assert items[0] in items;
    }
  }
}
