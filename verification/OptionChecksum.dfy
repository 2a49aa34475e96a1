/** The Option Checksum (section 9 of RFC 9868): back-patching, validation and
    what a corrupted byte does to the verdict. */
module OptionChecksum {
  import opened Bytes
  import opened Checksums
  import opened OptionKinds

  const OCS_LEN: nat := 2

  datatype OcsCheck = Valid | Unused | IgnoreOptions | Error(error: ParseError)

  /** The value stored for an OCS-led body: the complement of the sum with the
      field taken as zero, and all ones in place of a computed zero. */
  function OcsValue(body: seq<u8>, surplusLen: u16): (ocs: u16)
    requires |body| >= OCS_LEN
    ensures ocs != 0
  {
    var c := 0xFFFF - Rep(WordSum([0, 0] + body[2..]) + surplusLen);
    if c == 0 then 0xFFFF else c
  }

  function Patched(body: seq<u8>, surplusLen: u16): (r: seq<u8>)
    requires |body| >= OCS_LEN
    ensures |r| == |body| && r[2..] == body[2..]
  {
    U16Bytes(OcsValue(body, surplusLen)) + body[2..]
  }

  function Verdict(body: seq<u8>, surplusLen: u16, udpChecksum: u16): OcsCheck {
    if |body| < OCS_LEN then Error(Overrun(0))
    else if U16At(body, 0) == 0 then (if udpChecksum == 0 then Unused else IgnoreOptions)
    else if Rep(WordSum(body) + surplusLen) == 0xFFFF then Valid
    else Error(OcsMismatch)
  }

  /** Back-patches the OCS of the body held in `buf[at..]`. */
  method Compute(buf: array<u8>, at: nat, surplusLen: u16)
    requires at + OCS_LEN <= buf.Length
    modifies buf
    ensures buf[..at] == old(buf[..at])
    ensures buf[at..] == Patched(old(buf[at..]), surplusLen)
  {
    buf[at], buf[at + 1] := 0, 0;
    assert buf[at..] == [0, 0] + old(buf[at..])[2..];
    var sum := new Checksum();
    sum.AddSlice(buf[at..]);
    sum.AddU16(surplusLen);
    var ocs := sum.Finish();
    if ocs == 0 {
      ocs := 0xFFFF;
    }
    buf[at], buf[at + 1] := ocs / 256, ocs % 256;
    assert buf[at..] == U16Bytes(ocs) + old(buf[at..])[2..];
  }

  method Validate(body: seq<u8>, surplusLen: u16, udpChecksum: u16) returns (v: OcsCheck)
    ensures v == Verdict(body, surplusLen, udpChecksum)
  {
    if |body| < OCS_LEN {
      return Error(Overrun(0));
    }
    var ocs := U16At(body, 0);
    if ocs == 0 {
      return if udpChecksum == 0 then Unused else IgnoreOptions;
    }
    var sum := new Checksum();
    sum.AddSlice(body);
    sum.AddU16(surplusLen);
    var s := sum.Sum();
    v := if s == 0xFFFF then Valid else Error(OcsMismatch);
  }

  function CheckPad(pad: u8, needsPad: bool): Result<(), ParseError> {
    if needsPad && pad != 0 then Err(NonZeroPad) else Ok(())
  }

  lemma SumSplitsOcs(body: seq<u8>)
    requires |body| >= OCS_LEN
    ensures WordSum(body) == U16At(body, 0) + WordSum([0, 0] + body[2..])
  {
    assert ([0, 0] + body[2..])[2..] == body[2..];
  }

  /** A body is accepted as valid exactly when its stored OCS is non-zero and is
      the value a sender would have stored. */
  lemma ValidIffComputed(body: seq<u8>, surplusLen: u16, udpChecksum: u16)
    ensures Verdict(body, surplusLen, udpChecksum) == Valid
       <==> |body| >= OCS_LEN && U16At(body, 0) != 0 && U16At(body, 0) == OcsValue(body, surplusLen)
  {
    hide WordSum, Rep, U16At;
    if |body| >= OCS_LEN && U16At(body, 0) != 0 {
      SumSplitsOcs(body);
      var rest := WordSum([0, 0] + body[2..]) + surplusLen;
      RepAllOnes(U16At(body, 0) + rest);
      RepAbsorb(rest, U16At(body, 0));
    }
  }

  /** Sender and receiver agree for every body and every UDP checksum field. */
  lemma PatchedIsValid(body: seq<u8>, surplusLen: u16, udpChecksum: u16)
    requires |body| >= OCS_LEN
    ensures Verdict(Patched(body, surplusLen), surplusLen, udpChecksum) == Valid
    ensures (WordSum(Patched(body, surplusLen)) + surplusLen) % 65535 == 0
  {
    hide WordSum, Rep, U16At, U16Bytes;
    var p := Patched(body, surplusLen);
    assert [0, 0] + p[2..] == [0, 0] + body[2..];
    U16RoundTrip(OcsValue(body, surplusLen), [], body[2..]);
    assert p == [] + U16Bytes(OcsValue(body, surplusLen)) + body[2..];
    ValidIffComputed(p, surplusLen, udpChecksum);
    RepAllOnes(WordSum(p) + surplusLen);
  }

  /** Changing any one byte of a patched body is always noticed: the verdict is
      never `Valid`, and with a UDP checksum present no option gets through. */
  lemma SingleByteCorruption(body: seq<u8>, surplusLen: u16, udpChecksum: u16, i: nat, v: u8)
    requires |body| >= OCS_LEN && i < |body|
    requires v != Patched(body, surplusLen)[i]
    ensures var bad := Verdict(Patched(body, surplusLen)[i := v], surplusLen, udpChecksum);
            && bad != Valid
            && (udpChecksum != 0 ==> bad == IgnoreOptions || bad == Error(OcsMismatch))
  {
    var p := Patched(body, surplusLen);
    PatchedIsValid(body, surplusLen, udpChecksum);
    WordSumUpdate(p, i, v);
    var good, delta := WordSum(p) + surplusLen, (v - p[i]) * Weight(i);
    ByteDelta(v - p[i], i);
    ResidueMoves(good, delta);
    RepAllOnes(good + delta);
  }

  lemma ByteDelta(d: int, i: nat)
    requires d != 0 && -256 < d < 256
    ensures d * Weight(i) != 0 && -65535 < d * Weight(i) < 65535
  {
  }

  lemma ResidueMoves(good: nat, delta: int)
    requires good % 65535 == 0 && delta != 0 && -65535 < delta < 65535
    ensures (good + delta) % 65535 != 0
  {
  }
}
