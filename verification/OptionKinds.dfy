/** Option Kinds, their classes and fixed lengths, the typed option values and
    the parse errors (Kinds and lengths as in section 10 and 11 of RFC 9868). */
module OptionKinds {
  import opened Bytes

  const EOL: u8 := 0
  const NOP: u8 := 1
  const APC: u8 := 2
  const FRAG: u8 := 3
  const MDS: u8 := 4
  const MRDS: u8 := 5
  const REQ: u8 := 6
  const RES: u8 := 7
  const TIME: u8 := 8
  const AUTH: u8 := 9
  const EXP: u8 := 127
  const SAFE_RESERVED_MIN: u8 := 128
  const SAFE_RESERVED_MAX: u8 := 191
  const UNSAFE_MIN: u8 := 192
  const EXTENDED_LENGTH_MARKER: u8 := 255

  datatype OptionKind = Eol | Nop | Apc | Frag | Mds | Mrds | Req | Res | Other(raw: u8)
  {
    function ToByte(): u8 {
      match this
      case Eol => EOL
      case Nop => NOP
      case Apc => APC
      case Frag => FRAG
      case Mds => MDS
      case Mrds => MRDS
      case Req => REQ
      case Res => RES
      case Other(raw) => raw
    }

    predicate IsSafe() {
      ToByte() < UNSAFE_MIN
    }
  }

  function FromByte(b: u8): (k: OptionKind)
    ensures k.ToByte() == b
  {
    if b == EOL then Eol
    else if b == NOP then Nop
    else if b == APC then Apc
    else if b == FRAG then Frag
    else if b == MDS then Mds
    else if b == MRDS then Mrds
    else if b == REQ then Req
    else if b == RES then Res
    else Other(b)
  }

  datatype ParseError =
    | InvalidLength(kind: u8, len: nat)
    | Overrun(offset: nat)
    | DuplicateFrag
    | NonZeroPad
    | OcsMismatch

  /** An owned option: Kind and value without framing. */
  datatype RawOption = RawOption(kind: OptionKind, value: seq<u8>)

  /** Value lengths (total TLV length minus two) of the fixed-size Kinds; empty
      for Kinds without a fixed size. */
  function FixedValueLens(kind: u8): set<nat> {
    if kind == APC then {4}
    else if kind == FRAG then {8, 10}
    else if kind == MDS then {2}
    else if kind == MRDS then {3}
    else if kind == REQ || kind == RES then {4}
    else {}
  }

  /** The FRAG option; `rdos` is present exactly on terminal fragments. */
  datatype FragOption = FragOption(fragStart: u16, identification: u32, fragOffset: u16, rdos: Option<u16>)

  function DecodeFrag(v: seq<u8>): Option<FragOption> {
    if |v| != 8 && |v| != 10 then None
    else Some(FragOption(U16At(v, 0), U32At(v, 2), U16At(v, 6),
                         if |v| == 10 then Some(U16At(v, 8)) else None))
  }

  function EncodeFrag(f: FragOption): (v: seq<u8>)
    ensures |v| == if f.rdos.Some? then 10 else 8
  {
    U16Bytes(f.fragStart) + U32Bytes(f.identification) + U16Bytes(f.fragOffset)
    + (if f.rdos.Some? then U16Bytes(f.rdos.value) else [])
  }

  lemma FragRoundTrip(f: FragOption)
    ensures DecodeFrag(EncodeFrag(f)) == Some(f)
  {
    var v := EncodeFrag(f);
    assert v[0] == f.fragStart / 256 && v[1] == f.fragStart % 256;
    var hi, lo := f.identification / 0x1_0000, f.identification % 0x1_0000;
    assert v[2] == hi / 256 && v[3] == hi % 256 && v[4] == lo / 256 && v[5] == lo % 256;
    assert v[6] == f.fragOffset / 256 && v[7] == f.fragOffset % 256;
    if f.rdos.Some? {
      assert v[8] == f.rdos.value / 256 && v[9] == f.rdos.value % 256;
    }
  }
}
