/** The TLV parser over the bytes behind the OCS (section 10 of RFC 9868). */
module OptionParser {
  import opened Bytes
  import opened OptionKinds

  /** One step of the parser: an option with the byte range it occupies, or the
      error that ends the walk. */
  datatype Item =
    | Item(kind: OptionKind, value: seq<u8>, at: nat, end: nat)
    | Bad(error: ParseError)

  function NextItem(b: seq<u8>, pos: nat): (it: Item)
    requires pos < |b|
    ensures it.Item? ==> it.at == pos < it.end <= |b|
  {
    var raw, kind := b[pos], FromByte(b[pos]);
    if raw == EOL || raw == NOP then Item(kind, [], pos, pos + 1)
    else if pos + 1 >= |b| then Bad(Overrun(pos))
    else if b[pos + 1] == EXTENDED_LENGTH_MARKER then
      if pos + 4 > |b| then Bad(Overrun(pos))
      else
        var len := U16At(b, pos + 2);
        if len < EXTENDED_LENGTH_MARKER then Bad(InvalidLength(raw, len))
        else if pos + len > |b| then Bad(Overrun(pos))
        else Item(kind, b[pos + 4..pos + len], pos, pos + len)
    else
      var len := b[pos + 1];
      if len < 2 then Bad(InvalidLength(raw, len))
      else if pos + len > |b| then Bad(Overrun(pos))
      else Item(kind, b[pos + 2..pos + len], pos, pos + len)
  }

  /** All items from `pos` on: the walk stops behind EOL, at the first error, or
      at the end of the bytes. */
  function Items(b: seq<u8>, pos: nat): seq<Item>
    decreases |b| - pos
  {
    if pos >= |b| then []
    else
      var it := NextItem(b, pos);
      if it.Bad? || it.kind.Eol? then [it] else [it] + Items(b, it.end)
  }

  predicate IsNop(it: Item) {
    it.Item? && it.kind.Nop?
  }

  /** `n` consecutive NOPs from item `i` on. */
  predicate NopRun(items: seq<Item>, i: nat, n: nat) {
    i + n <= |items| && forall j :: i <= j < i + n ==> IsNop(items[j])
  }

  /** The length of the longest run of NOPs. */
  predicate LongestNopRun(items: seq<Item>, n: nat) {
    && (exists i :: 0 <= i <= |items| && NopRun(items, i, n))
    && (forall i, m :: 0 <= i <= |items| && 0 <= m <= |items| && NopRun(items, i, m) ==> m <= n)
  }

  /** The run of NOPs that the last item belongs to. */
  predicate LastNopRun(items: seq<Item>, n: nat) {
    n <= |items| && NopRun(items, |items| - n, n) && (n < |items| ==> !IsNop(items[|items| - n - 1]))
  }

  /** How the two run lengths follow the items. */
  lemma NopRunsFollow(items: seq<Item>, it: Item, current: nat, longest: nat)
    requires LastNopRun(items, current) && LongestNopRun(items, longest)
    ensures var next := if IsNop(it) then current + 1 else 0;
            && LastNopRun(items + [it], next)
            && LongestNopRun(items + [it], if next > longest then next else longest)
  {
    var all, next := items + [it], if IsNop(it) then current + 1 else 0;
    var i :| 0 <= i <= |items| && NopRun(items, i, longest);
    assert NopRun(all, i, longest) && NopRun(all, |all| - next, next);
    forall i, m | 0 <= i <= |all| && 0 <= m <= |all| && NopRun(all, i, m) ensures m <= (if next > longest then next else longest) {
      if i + m < |all| {
        assert forall j :: i <= j < i + m ==> items[j] == all[j];
        assert NopRun(items, i, m);
      } else if m > next {
        NoLongerLastRun(items, it, current, m);
      }
    }
  }

  lemma NoLongerLastRun(items: seq<Item>, it: Item, current: nat, m: nat)
    requires LastNopRun(items, current)
    requires (if IsNop(it) then current + 1 else 0) < m <= |items| + 1
    ensures !NopRun(items + [it], |items| + 1 - m, m)
  {
    var all, next := items + [it], if IsNop(it) then current + 1 else 0;
    assert !IsNop(all[|all| - next - 1]);
  }

  /** The iterator, with its cursor, its sticky end flag and its two NOP counters. */
  class OptionsIter {
    const bytes: seq<u8>
    var pos: nat
    var done: bool
    var currentNopRun: nat
    var maxNopRun: nat
    ghost var yielded: seq<Item>

    constructor (bytes: seq<u8>)
      ensures this.bytes == bytes && Remaining() == Items(bytes, 0) && yielded == [] && Valid()
    {
      this.bytes := bytes;
      pos, done, currentNopRun, maxNopRun, yielded := 0, false, 0, 0, [];
      assert NopRun([], 0, 0);
    }

    ghost function Remaining(): seq<Item>
      reads this
    {
      if done then [] else Items(bytes, pos)
    }

    /** The counters describe the items yielded so far. */
    ghost predicate Valid()
      reads this
    {
      LongestNopRun(yielded, maxNopRun) && (!done ==> LastNopRun(yielded, currentNopRun))
    }

    /** Yields the items of `Items` one by one and nothing after the last. */
    method Next() returns (r: Option<Item>)
      requires Valid()
      modifies this
      ensures Valid()
      ensures r.None? ==> old(Remaining()) == [] == Remaining() && yielded == old(yielded)
      ensures r.Some? ==> old(Remaining()) == [r.value] + Remaining() && yielded == old(yielded) + [r.value]
      ensures r.Some? && (r.value.Bad? || r.value.kind.Eol?) ==> Remaining() == []
    {
      hide NextItem, LongestNopRun, LastNopRun;
      if done || pos >= |bytes| {
        return None;
      }
      var it := NextItem(bytes, pos);
      NopRunsFollow(yielded, it, currentNopRun, maxNopRun);
      yielded := yielded + [it];
      if it.Bad? {
        done := true;
      } else {
        pos := it.end;
        if it.kind.Eol? {
          currentNopRun := 0;
          done := true;
        } else if it.kind.Nop? {
          currentNopRun := currentNopRun + 1;
          maxNopRun := if currentNopRun > maxNopRun then currentNopRun else maxNopRun;
        } else {
          currentNopRun := 0;
        }
      }
      r := Some(it);
    }
  }

  /** An item is decided by the bytes it occupies. */
  lemma ItemIsLocal(b: seq<u8>, c: seq<u8>, pos: nat, e: nat)
    requires pos < e <= |b| && e <= |c| && b[..e] == c[..e]
    requires NextItem(b, pos).Item? && NextItem(b, pos).end <= e
    ensures NextItem(c, pos) == NextItem(b, pos)
  {
    var it := NextItem(b, pos);
    assert forall i :: 0 <= i < e ==> b[i] == c[i] by {
      assert forall i :: 0 <= i < e ==> b[..e][i] == c[..e][i];
    }
    if it.end >= pos + 2 {
      assert b[pos + 2..it.end] == c[pos + 2..it.end];
    }
    if it.end >= pos + 4 {
      assert b[pos + 4..it.end] == c[pos + 4..it.end];
    }
  }


  /** `value` stands at `pos` under Kind byte `raw`, framed up to `end`: a single byte for EOL
      and NOP, else Kind, Length and value, with the extended Length from 255 on. */
  predicate FramedAs(b: seq<u8>, pos: nat, raw: u8, value: seq<u8>, end: nat) {
    && pos < |b| && end <= |b| && b[pos] == raw
    && if raw == 0 || raw == 1 then value == [] && end == pos + 1
       else if |value| + 2 < 255 && end == pos + 2 + |value| then b[pos + 1] == |value| + 2 && b[pos + 2..end] == value
       else && |value| + 4 >= 255 && end == pos + 4 + |value|
            && b[pos + 1] == 255 && U16At(b, pos + 2) == |value| + 4 && b[pos + 4..end] == value
  }

  /** The parser yields exactly the framed options. */
  lemma ItemIffFramed(b: seq<u8>, pos: nat, raw: u8, value: seq<u8>, end: nat)
    requires pos < |b|
    ensures FramedAs(b, pos, raw, value, end) <==> NextItem(b, pos) == Item(FromByte(raw), value, pos, end)
  {
    KindByte(raw);
    KindByte(b[pos]);
  }

  lemma KindByte(raw: u8)
    ensures FromByte(raw).ToByte() == raw
  {
  }

  /** And which error anything else is. */
  lemma BadItems(b: seq<u8>, pos: nat)
    requires pos < |b| && NextItem(b, pos).Bad?
    ensures b[pos] > 1
    ensures NextItem(b, pos)
         == if pos + 1 < |b| && b[pos + 1] < 2 then Bad(InvalidLength(b[pos], b[pos + 1]))
            else if pos + 4 <= |b| && b[pos + 1] == 255 && U16At(b, pos + 2) < 255 then Bad(InvalidLength(b[pos], U16At(b, pos + 2)))
            else Bad(Overrun(pos))
  {
  }
}
