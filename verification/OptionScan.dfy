/** Reading a trusted option area: what is delivered, what is reported, and when the
    scan stops (sections 10 to 12 and 14 of RFC 9868). */
module OptionScan {
  import opened Bytes
  import opened OptionKinds
  import opened OptionParser

  datatype OptionStatus = Success | Failed | Ignored

  datatype OptionSource = FromDatagram | FromFragmentSet

  datatype OptionReport = OptionReport(kind: OptionKind, status: OptionStatus, source: OptionSource)

  datatype ParsedOptions = ParsedOptions(options: seq<RawOption>, reports: seq<OptionReport>, frag: Option<FragOption>,
                                         unsafeSeen: bool, fragmentFailed: bool)

  function Report(kind: OptionKind, status: OptionStatus): OptionReport {
    OptionReport(kind, status, FromDatagram)
  }

  /** The shortest acceptable total length of a Kind with a known format. */
  function MinimumTlvLen(kind: u8): Option<nat> {
    if kind == TIME then Some(10)
    else if kind == EXP then Some(4)
    else if kind == APC || kind == REQ || kind == RES then Some(6)
    else if kind == FRAG then Some(10)
    else if kind == MDS then Some(4)
    else if kind == MRDS then Some(5)
    else None
  }

  predicate SubMinimum(kind: OptionKind, value: seq<u8>) {
    MinimumTlvLen(kind.ToByte()).Some? && |value| + 2 < MinimumTlvLen(kind.ToByte()).value
  }

  /** Whether a first occurrence is processed; `crc` is the CRC32C of the user data. */
  function Accepts(kind: OptionKind, value: seq<u8>, crc: u32): OptionStatus {
    match kind
    case Apc => if |value| == 4 && U32At(value, 0) == crc then Success else Failed
    case Mds => if |value| == 2 then Success else Failed
    case Mrds => if |value| == 3 then Success else Failed
    case Req => if |value| == 4 then Success else Failed
    case Res => if |value| == 4 then Success else Failed
    case _ => Ignored
  }

  datatype Acc = Acc(options: seq<RawOption>, reports: seq<OptionReport>, seen: set<u8>, frag: Option<FragOption>)

  const START: Acc := Acc([], [], {}, None)

  datatype Move = Go(acc: Acc) | Stop(result: Result<ParsedOptions, ParseError>)

  /** A malformed area condemns the fragment it belongs to, if one was announced. */
  function Condemn(acc: Acc, userData: seq<u8>, error: ParseError): Result<ParsedOptions, ParseError> {
    if acc.frag.Some? && userData == [] then Ok(ParsedOptions([], [], acc.frag, false, true)) else Err(error)
  }

  function Once(acc: Acc, kind: OptionKind, value: seq<u8>, crc: u32): Acc {
    if kind.ToByte() in acc.seen then acc.(reports := acc.reports + [Report(kind, Ignored)])
    else
      var status := Accepts(kind, value, crc);
      acc.(seen := acc.seen + {kind.ToByte()},
           reports := acc.reports + [Report(kind, status)],
           options := if status == Success then acc.options + [RawOption(kind, value)] else acc.options)
  }

  function ScanStep(acc: Acc, it: Item, userData: seq<u8>, inFragment: bool, crc: u32): Move {
    if it.Bad? then Stop(Condemn(acc, userData, it.error))
    else if !(inFragment && it.kind.Apc?) && SubMinimum(it.kind, it.value) then
      Stop(Condemn(acc, userData, InvalidLength(it.kind.ToByte(), |it.value| + 2)))
    else
      match it.kind
      case Eol => Go(acc)
      case Nop => Go(acc)
      case Frag =>
        if FRAG in acc.seen then Stop(Condemn(acc, userData, DuplicateFrag))
        else if DecodeFrag(it.value).None? then Stop(Ok(ParsedOptions(acc.options, acc.reports, acc.frag, true, false)))
        else Go(acc.(seen := acc.seen + {FRAG}, frag := DecodeFrag(it.value)))
      case Other(_) =>
        if it.kind.IsSafe() then Go(acc.(reports := acc.reports + [Report(it.kind, Ignored)]))
        else Stop(Ok(ParsedOptions(acc.options, acc.reports + [Report(it.kind, Failed)], acc.frag, true, false)))
      case _ =>
        if it.kind.Apc? && inFragment then Go(acc.(reports := acc.reports + [Report(it.kind, Ignored)]))
        else Go(Once(acc, it.kind, it.value, crc))
  }

  function Scan(items: seq<Item>, acc: Acc, userData: seq<u8>, inFragment: bool, crc: u32)
    : Result<ParsedOptions, ParseError>
    decreases items
  {
    if items == [] then Ok(ParsedOptions(acc.options, acc.reports, acc.frag, false, false))
    else
      match ScanStep(acc, items[0], userData, inFragment, crc)
      case Go(next) => Scan(items[1..], next, userData, inFragment, crc)
      case Stop(result) => result
  }

  datatype OptionLimit = Full | End(end: nat) | MalformedFrag(frag: FragOption)

  /** How far the options of a fragment reach: up to Frag. Start of the first FRAG,
      if that pointer lies behind the option and inside the area. */
  function LimitOf(items: seq<Item>, areaLen: nat, offset: nat): OptionLimit {
    if items == [] || items[0].Bad? then Full
    else
      var it := items[0];
      match it.kind
      case Frag =>
        var frag := DecodeFrag(it.value);
        if frag.None? then Full
        else if frag.value.fragStart < offset then MalformedFrag(frag.value)
        else
          var end := frag.value.fragStart - offset;
          if end > areaLen || end < it.end then MalformedFrag(frag.value) else End(end)
      case Eol => Full
      case Other(_) => if !it.kind.IsSafe() then Full else LimitOf(items[1..], areaLen, offset)
      case _ => LimitOf(items[1..], areaLen, offset)
  }

  function FragmentOptionLimit(area: seq<u8>, userDataEmpty: bool, offset: nat): (r: OptionLimit)
    ensures r.End? ==> r.end <= |area|
  {
    if !userDataEmpty then Full
    else
      LimitInArea(Items(area, 0), |area|, offset);
      LimitOf(Items(area, 0), |area|, offset)
  }

  lemma {:induction false} LimitInArea(items: seq<Item>, areaLen: nat, offset: nat)
    ensures LimitOf(items, areaLen, offset).End? ==> LimitOf(items, areaLen, offset).end <= areaLen
  {
    if items != [] {
      LimitInArea(items[1..], areaLen, offset);
    }
  }

  /** `area` are the bytes behind the OCS, `offset` their distance from the UDP header. */
  function ParseOptions(area: seq<u8>, userData: seq<u8>, offset: nat, crc: u32): Result<ParsedOptions, ParseError> {
    match FragmentOptionLimit(area, userData == [], offset)
    case Full => Scan(Items(area, 0), START, userData, false, crc)
    case End(end) => Scan(Items(area[..end], 0), START, userData, true, crc)
    case MalformedFrag(frag) => Ok(ParsedOptions([], [], Some(frag), true, true))
  }

  // ---- the loops ----

  method FragmentOptionLimitLoop(area: seq<u8>, userDataEmpty: bool, offset: nat) returns (r: OptionLimit)
    ensures r == FragmentOptionLimit(area, userDataEmpty, offset)
  {
    if !userDataEmpty {
      return Full;
    }
    hide LongestNopRun, LastNopRun, Items, DecodeFrag;
    var iter := new OptionsIter(area);
    ghost var all := Items(area, 0);
    while true
      invariant iter.Valid()
      invariant LimitOf(all, |area|, offset) == LimitOf(iter.Remaining(), |area|, offset)
      decreases |iter.Remaining()|
    {
      ghost var before := iter.Remaining();
      var next := iter.Next();
      if next.None? || next.value.Bad? {
        return Full;
      }
      var it := next.value;
      assert before[1..] == iter.Remaining();
      if it.kind.Frag? {
        var frag := DecodeFrag(it.value);
        if frag.None? {
          return Full;
        }
        if frag.value.fragStart < offset {
          return MalformedFrag(frag.value);
        }
        var end := frag.value.fragStart - offset;
        if end > |area| || end < it.end {
          return MalformedFrag(frag.value);
        }
        return End(end);
      }
      if it.kind.Eol? || (it.kind.Other? && !it.kind.IsSafe()) {
        return Full;
      }
    }
  }

  method ParseOptionsLoop(area: seq<u8>, userData: seq<u8>, offset: nat, crc: u32)
    returns (r: Result<ParsedOptions, ParseError>)
    ensures r == ParseOptions(area, userData, offset, crc)
  {
    var limit := FragmentOptionLimitLoop(area, userData == [], offset);
    if limit.MalformedFrag? {
      return Ok(ParsedOptions([], [], Some(limit.frag), true, true));
    }
    var inFragment := limit.End?;
    var bytes := if limit.End? then area[..limit.end] else area;
    r := ScanLoop(bytes, userData, inFragment, crc);
  }

  lemma ScanUnfolds(items: seq<Item>, acc: Acc, userData: seq<u8>, inFragment: bool, crc: u32)
    requires items != []
    ensures var step := ScanStep(acc, items[0], userData, inFragment, crc);
            Scan(items, acc, userData, inFragment, crc)
            == if step.Go? then Scan(items[1..], step.acc, userData, inFragment, crc) else step.result
  {
    hide ScanStep;
  }

  lemma ScanEnds(acc: Acc, userData: seq<u8>, inFragment: bool, crc: u32)
    ensures Scan([], acc, userData, inFragment, crc) == Ok(ParsedOptions(acc.options, acc.reports, acc.frag, false, false))
  {
  }

  /** The scan with its 256 "seen" flags and growing result lists. */
  method ScanLoop(bytes: seq<u8>, userData: seq<u8>, inFragment: bool, crc: u32)
    returns (r: Result<ParsedOptions, ParseError>)
    ensures r == Scan(Items(bytes, 0), START, userData, inFragment, crc)
  {
    hide DecodeFrag, Accepts, SubMinimum, Scan, Items, LongestNopRun, LastNopRun;
    var iter := new OptionsIter(bytes);
    var options: seq<RawOption>, reports: seq<OptionReport>, frag: Option<FragOption> := [], [], None;
    var seen := new bool[256](_ => false);
    ghost var acc := START;
    var unsafeSeen := false;
    while true
      invariant iter.Valid()
      invariant acc.options == options && acc.reports == reports && acc.frag == frag && !unsafeSeen
      invariant forall k: u8 :: seen[k] <==> k in acc.seen
      invariant Scan(Items(bytes, 0), START, userData, inFragment, crc)
             == Scan(iter.Remaining(), acc, userData, inFragment, crc)
      decreases |iter.Remaining()|
    {
      ghost var before, previous := iter.Remaining(), acc;
      var next := iter.Next();
      if next.None? {
        ScanEnds(acc, userData, inFragment, crc);
        break;
      }
      var it := next.value;
      assert before[0] == it && before[1..] == iter.Remaining();
      ScanUnfolds(before, acc, userData, inFragment, crc);
      if it.Bad? {
        return Condemn(Acc(options, reports, {}, frag), userData, it.error);
      }
      var raw := it.kind.ToByte();
      if !(inFragment && it.kind.Apc?) && SubMinimum(it.kind, it.value) {
        return Condemn(Acc(options, reports, {}, frag), userData, InvalidLength(raw, |it.value| + 2));
      }
      match it.kind {
        case Eol =>
        case Nop =>
        case Frag =>
          if seen[raw] {
            return Condemn(Acc(options, reports, {}, frag), userData, DuplicateFrag);
          }
          seen[raw] := true;
          acc := acc.(seen := acc.seen + {raw});
          var decoded := DecodeFrag(it.value);
          if decoded.None? {
            unsafeSeen := true;
            break;
          }
          frag := decoded;
          acc := acc.(frag := frag);
        case Other(_) =>
          if it.kind.IsSafe() {
            reports := reports + [Report(it.kind, Ignored)];
            acc := acc.(reports := reports);
          } else {
            unsafeSeen := true;
            reports := reports + [Report(it.kind, Failed)];
            break;
          }
        case _ =>
          if inFragment && it.kind.Apc? {
            reports := reports + [Report(it.kind, Ignored)];
            acc := acc.(reports := reports);
          } else if seen[raw] {
            reports := reports + [Report(it.kind, Ignored)];
            acc := acc.(reports := reports);
          } else {
            seen[raw] := true;
            var status := Accepts(it.kind, it.value, crc);
            reports := reports + [Report(it.kind, status)];
            if status == Success {
              options := options + [RawOption(it.kind, it.value)];
            }
            acc := Acc(options, reports, acc.seen + {raw}, frag);
          }
      }
      assert ScanStep(previous, it, userData, inFragment, crc) == Go(acc);
    }
    r := Ok(ParsedOptions(options, reports, frag, unsafeSeen, false));
  }
}
