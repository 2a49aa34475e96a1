/** Fixed-width unsigned integers, their big-endian encodings, and the two
    result types shared by the whole model. */
module Bytes {

  type u8 = n: nat | n < 0x100
  type u16 = n: nat | n < 0x1_0000
  type u32 = n: nat | n < 0x1_0000_0000

  /** The four octets of an IPv4 address. */
  type Addr = a: seq<u8> | |a| == 4 witness [0, 0, 0, 0]

  datatype Option<+T> = None | Some(value: T)

  datatype Result<+T, +E> = Ok(value: T) | Err(error: E)

  function Min(a: int, b: int): int {
    if a <= b then a else b
  }

  /** One byte when the flag is set: the width of an alignment pad. */
  function Flag(b: bool): nat {
    if b then 1 else 0
  }

  function Zeros(n: nat): (z: seq<u8>)
    ensures |z| == n && forall i :: 0 <= i < n ==> z[i] == 0
  {
    seq(n, i => 0)
  }

  function U16Bytes(n: u16): (b: seq<u8>)
    ensures |b| == 2
  {
    [n / 256, n % 256]
  }

  /** The big-endian 16-bit word of two bytes. */
  function Word(hi: nat, lo: nat): nat {
    hi * 256 + lo
  }

  function U16At(b: seq<u8>, at: nat): u16
    requires at + 2 <= |b|
  {
    Word(b[at], b[at + 1])
  }

  function U32Bytes(n: u32): (b: seq<u8>)
    ensures |b| == 4
  {
    U16Bytes(n / 0x1_0000) + U16Bytes(n % 0x1_0000)
  }

  function U32At(b: seq<u8>, at: nat): u32
    requires at + 4 <= |b|
  {
    U16At(b, at) * 0x1_0000 + U16At(b, at + 2)
  }

  lemma U16RoundTrip(n: u16, prefix: seq<u8>, suffix: seq<u8>)
    ensures U16At(prefix + U16Bytes(n) + suffix, |prefix|) == n
  {
    var b := prefix + U16Bytes(n) + suffix;
    assert b[|prefix|] == n / 256 && b[|prefix| + 1] == n % 256;
  }

  lemma Regroup<T>(a: seq<T>, b: seq<T>, c: seq<T>)
    ensures (a + b) + c == a + (b + c)
  {
  }

  lemma U32RoundTrip(n: u32)
    ensures U32At(U32Bytes(n), 0) == n
  {
    U16RoundTrip(n / 0x1_0000, [], U16Bytes(n % 0x1_0000));
    U16RoundTrip(n % 0x1_0000, U16Bytes(n / 0x1_0000), []);
    assert U32Bytes(n) == [] + U16Bytes(n / 0x1_0000) + U16Bytes(n % 0x1_0000);
    assert U32Bytes(n) == U16Bytes(n / 0x1_0000) + U16Bytes(n % 0x1_0000) + [];
  }

  lemma DoubleIsEven(n: nat, m: nat)
    requires m == n + n
    ensures m % 2 == 0
  {
  }

  lemma HighAndLow(hi: nat, lo: nat, base: nat)
    requires base > 0 && lo < base
    ensures (hi * base + lo) / base == hi && (hi * base + lo) % base == lo
  {
    DivUnique(hi * base + lo, base, hi, lo);
  }

  lemma DivUnique(n: nat, d: nat, q: nat, r: nat)
    requires d > 0 && n == q * d + r && r < d
    ensures n / d == q && n % d == r
  {
    var q2, r2 := n / d, n % d;
    assert n == q2 * d + r2;
    assert (q - q2) * d == r2 - r;
    if q > q2 { MulGe(q - q2, d); }
    if q < q2 { MulGe(q2 - q, d); }
  }

  lemma MulGe(k: nat, d: nat)
    requires k >= 1
    ensures k * d >= d
  {
  }

  lemma U16Back(hi: u8, lo: u8)
    ensures U16Bytes(Word(hi, lo)) == [hi, lo]
  {
    HighAndLow(hi, lo, 256);
  }

  /** Any four bytes are the encoding of what they decode to. */
  lemma U32Back(v: seq<u8>)
    requires |v| == 4
    ensures U32Bytes(U32At(v, 0)) == v
  {
    hide U16Bytes, Word;
    HighAndLow(U16At(v, 0), U16At(v, 2), 0x1_0000);
    U16Back(v[0], v[1]);
    U16Back(v[2], v[3]);
    assert v == [v[0], v[1]] + [v[2], v[3]];
  }
}
