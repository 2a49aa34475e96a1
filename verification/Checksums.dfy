/** The one's-complement Internet checksum of RFC 1071, with eager end-around
    folding, and its refinement of the plain unbounded sum. */
module Checksums {
  import opened Bytes

  /** The representative of a total in one's-complement arithmetic: zero only
      for the empty or all-zero sum, otherwise the residue mod 65535 in 1..65535. */
  function Rep(n: nat): (r: u16)
    ensures r == 0 <==> n == 0
    ensures r % 65535 == n % 65535
  {
    if n == 0 then 0 else (n - 1) % 65535 + 1
  }

  /** The unfolded sum of a byte string taken as big-endian 16-bit words; a
      trailing odd byte is a high byte. */
  function WordSum(b: seq<u8>): nat {
    if |b| == 0 then 0
    else if |b| == 1 then Word(b[0], 0)
    else U16At(b, 0) + WordSum(b[2..])
  }

  /** One end-around fold: low half plus carry. */
  function Fold(s: nat): nat {
    s % 0x1_0000 + s / 0x1_0000
  }

  /** A representative is determined by its residue and by whether it is zero. */
  lemma RepUnique(a: u16, b: u16)
    requires a % 65535 == b % 65535
    requires a == 0 <==> b == 0
    ensures a == b
  {
  }

  lemma FoldIsRep(a: u16, v: u16)
    ensures Fold(a + v) == Rep(a + v)
  {
  }

  lemma FoldKeepsRep(s: nat)
    requires s / 0x1_0000 != 0
    ensures Rep(Fold(s)) == Rep(s) && Fold(s) < s
  {
    DivModUnique(s, s / 0x1_0000 + Fold(s) / 65535, Fold(s) % 65535);
    RepUnique(Rep(Fold(s)), Rep(s));
  }

  lemma RepAbsorb(a: nat, b: nat)
    ensures Rep(Rep(a) + b) == Rep(a + b)
  {
    assert (Rep(a) + b) % 65535 == (a + b) % 65535 by {
      ModAdd(Rep(a), a, b);
    }
    RepUnique(Rep(Rep(a) + b), Rep(a + b));
  }

  lemma ModAdd(x: nat, y: nat, b: nat)
    requires x % 65535 == y % 65535
    ensures (x + b) % 65535 == (y + b) % 65535
  {
    var kx, ky := x / 65535, y / 65535;
    assert x - y == 65535 * (kx - ky);
    assert x + b == (y + b) + 65535 * (kx - ky);
    var q, r := (y + b) / 65535, (y + b) % 65535;
    assert x + b == 65535 * (q + kx - ky) + r;
    DivModUnique(x + b, q + kx - ky, r);
  }

  lemma DivModUnique(n: int, q: int, r: int)
    requires n == 65535 * q + r && 0 <= r < 65535
    ensures n % 65535 == r
  {
  }

  /** The folded sum is all ones exactly for a non-zero multiple of 65535. */
  lemma RepAllOnes(n: nat)
    ensures Rep(n) == 0xFFFF <==> n > 0 && n % 65535 == 0
  {
  }

  /** Sums add up over any split at an even offset. */
  lemma {:induction false} WordSumConcat(a: seq<u8>, b: seq<u8>)
    requires |a| % 2 == 0
    ensures WordSum(a + b) == WordSum(a) + WordSum(b)
  {
    if |a| == 0 {
      assert a + b == b;
    } else {
      WordSumConcat(a[2..], b);
      assert (a + b)[2..] == a[2..] + b;
    }
  }

  lemma WordSumPair(n: u16)
    ensures WordSum(U16Bytes(n)) == n
  {
    assert U16Bytes(n)[2..] == [];
  }

  /** The zero pad that follows an odd region fills its last word. */
  lemma {:induction false} WordSumPad(b: seq<u8>)
    requires |b| % 2 == 1
    ensures WordSum(b + [0]) == WordSum(b)
  {
    if |b| == 1 {
      assert (b + [0])[2..] == [];
    } else {
      WordSumPad(b[2..]);
      assert (b + [0])[2..] == b[2..] + [0];
    }
  }

  /** The weight of byte `i` in the sum: high bytes sit at even offsets. */
  function Weight(i: nat): nat {
    if i % 2 == 0 then 256 else 1
  }

  lemma {:induction false} WordSumUpdate(b: seq<u8>, i: nat, v: u8)
    requires i < |b|
    ensures WordSum(b[i := v]) == WordSum(b) + (v - b[i]) * Weight(i)
  {
    if i < 2 {
      if |b| >= 2 { assert b[i := v][2..] == b[2..]; }
    } else {
      WordSumUpdate(b[2..], i - 2, v);
      assert b[i := v][2..] == b[2..][i - 2 := v];
    }
  }

  function Total(words: seq<u16>): nat {
    if |words| == 0 then 0 else words[0] + Total(words[1..])
  }

  lemma {:induction false} TotalConcat(a: seq<u16>, b: seq<u16>)
    ensures Total(a + b) == Total(a) + Total(b)
  {
    if |a| == 0 {
      assert a + b == b;
    } else {
      TotalConcat(a[1..], b);
      assert (a + b)[1..] == a[1..] + b;
    }
  }

  /** The big-endian words of a byte string, an odd last byte padded with zero. */
  function Words(b: seq<u8>): seq<u16> {
    if |b| == 0 then []
    else if |b| == 1 then [Word(b[0], 0)]
    else [Word(b[0], b[1])] + Words(b[2..])
  }

  lemma {:induction false} WordSumIsTotal(b: seq<u8>)
    ensures WordSum(b) == Total(Words(b))
  {
    if |b| >= 2 {
      WordSumIsTotal(b[2..]);
      assert Words(b)[1..] == Words(b[2..]);
    }
  }

  /** RFC 1071 section 2(A): the checksum does not depend on the order of the words. */
  lemma WordOrderIndependent(a: seq<u8>, b: seq<u8>)
    requires multiset(Words(a)) == multiset(Words(b))
    ensures WordSum(a) == WordSum(b) && Rep(WordSum(a)) == Rep(WordSum(b))
  {
    WordSumIsTotal(a);
    WordSumIsTotal(b);
    TotalOrderIndependent(Words(a), Words(b));
  }

  lemma {:induction false} TotalOrderIndependent(a: seq<u16>, b: seq<u16>)
    requires multiset(a) == multiset(b)
    ensures Total(a) == Total(b)
    decreases |a|
  {
    if |a| == 0 {
      assert |multiset(b)| == 0;
    } else {
      hide Total;
      assert a[0] in multiset(b);
      var i :| 0 <= i < |b| && b[i] == a[0];
      var rest := b[..i] + b[i + 1..];
      RemoveWord(b, i);
      RemoveWord(a, 0);
      assert a[..0] + a[1..] == a[1..];
      CancelWord(multiset(a[1..]), multiset(rest), a[0]);
      TotalOrderIndependent(a[1..], rest);
    }
  }

  lemma RemoveWord(b: seq<u16>, i: nat)
    requires i < |b|
    ensures multiset(b[..i] + b[i + 1..]) + multiset{b[i]} == multiset(b)
    ensures Total(b) == b[i] + Total(b[..i] + b[i + 1..])
  {
    SplitAt(b, i);
    TotalConcat(b[..i], [b[i]] + b[i + 1..]);
    TotalConcat(b[..i], b[i + 1..]);
    TotalConcat([b[i]], b[i + 1..]);
  }

  lemma CancelWord(x: multiset<u16>, y: multiset<u16>, w: u16)
    requires x + multiset{w} == y + multiset{w}
    ensures x == y
  {
    assert x == (x + multiset{w}) - multiset{w};
    assert y == (y + multiset{w}) - multiset{w};
  }

  lemma SplitAt<T>(b: seq<T>, i: nat)
    requires i < |b|
    ensures b == b[..i] + ([b[i]] + b[i + 1..])
    ensures multiset(b[..i] + b[i + 1..]) + multiset{b[i]} == multiset(b)
  {
    assert b == b[..i] + ([b[i]] + b[i + 1..]);
  }

  /** The incremental accumulator. `total` is the plain unbounded sum of all that
      was added; the 16-bit field is always its representative. */
  class Checksum {
    var acc: nat
    ghost var total: nat

    ghost predicate Valid()
      reads this
    {
      acc == Rep(total)
    }

    constructor ()
      ensures Valid() && total == 0
    {
      acc := 0;
      total := 0;
    }

    method AddU16(value: u16)
      requires Valid()
      modifies this
      ensures Valid() && total == old(total) + value
    {
      FoldIsRep(acc, value);
      RepAbsorb(total, value);
      acc := acc + value;
      acc := acc % 0x1_0000 + acc / 0x1_0000;
      total := total + value;
    }

    method AddSlice(bytes: seq<u8>)
      requires Valid()
      modifies this
      ensures Valid() && total == old(total) + WordSum(bytes)
    {
      var i := 0;
      assert bytes[0..] == bytes;
      while i + 2 <= |bytes|
        invariant 0 <= i <= |bytes| && i % 2 == 0
        invariant Valid()
        invariant total + WordSum(bytes[i..]) == old(total) + WordSum(bytes)
      {
        assert bytes[i..][2..] == bytes[i + 2..];
        assert U16At(bytes[i..], 0) == U16At(bytes, i);
        AddU16(U16At(bytes, i));
        i := i + 2;
      }
      if i < |bytes| {
        assert bytes[i..] == [bytes[i]];
        AddU16(Word(bytes[i], 0));
      }
    }

    /** The folded, non-complemented sum, whatever the accumulator holds. */
    method Sum() returns (s: u16)
      ensures s == Rep(acc)
      ensures Valid() ==> s == Rep(total)
    {
      var sum := acc;
      while sum / 0x1_0000 != 0
        invariant Rep(sum) == Rep(acc)
        decreases sum
      {
        FoldKeepsRep(sum);
        sum := Fold(sum);
      }
      s := sum;
    }

    /** The raw complement of the folded sum. */
    method Finish() returns (c: u16)
      requires Valid()
      ensures c == 0xFFFF - Rep(total)
    {
      var s := Sum();
      c := 0xFFFF - s;
    }
  }

  /** One-shot complement over a single region. */
  method InternetChecksum(bytes: seq<u8>) returns (c: u16)
    ensures c == 0xFFFF - Rep(WordSum(bytes))
  {
    var sum := new Checksum();
    sum.AddSlice(bytes);
    c := sum.Finish();
  }
}
