/** Options carried by individual fragments: what the accumulators of a partial know
    after any number of them. */
module Coalescing {
  import opened Bytes
  import opened OptionKinds
  import opened Reassembly

  // ---- minima ----

  /** A size limit announced by an option, if it is one and well formed. */
  datatype Field = MdsSize | MrdsSize | MrdsSegments

  function Announced(o: RawOption, field: Field): Option<nat> {
    match field
    case MdsSize => if o.kind.Mds? && |o.value| == 2 then Some(U16At(o.value, 0)) else None
    case MrdsSize => if o.kind.Mrds? && |o.value| == 3 then Some(U16At(o.value, 0)) else None
    case MrdsSegments => if o.kind.Mrds? && |o.value| == 3 then Some(o.value[2]) else None
  }

  function KnownLimit(fo: FragmentOptions, field: Field): Option<nat> {
    match field
    case MdsSize => fo.mds
    case MrdsSize => fo.mrdsSize
    case MrdsSegments => fo.mrdsSegments
  }

  predicate Announces(options: seq<RawOption>, field: Field, v: nat) {
    exists o :: o in options && Announced(o, field) == Some(v)
  }

  /** `r` is the least of `known` and everything the options announce. */
  ghost predicate LeastOf(r: Option<nat>, known: Option<nat>, options: seq<RawOption>, field: Field) {
    && (r.None? <==> known.None? && forall v: nat :: !Announces(options, field, v))
    && (r.Some? ==>
          && (known == r || Announces(options, field, r.value))
          && (known.Some? ==> r.value <= known.value)
          && forall v: nat :: Announces(options, field, v) ==> r.value <= v)
  }

  lemma ObserveOneIsLeast(fo: FragmentOptions, o: RawOption, field: Field)
    ensures KnownLimit(ObserveOne(fo, o), field)
         == match Announced(o, field)
            case None => KnownLimit(fo, field)
            case Some(v) => Some(Least(KnownLimit(fo, field), v))
  {
  }

  lemma {:induction false} ObserveIsLeast(fo: FragmentOptions, options: seq<RawOption>, field: Field)
    ensures LeastOf(KnownLimit(Observe(fo, options), field), KnownLimit(fo, field), options, field)
    decreases options
  {
    hide Announced, KnownLimit, ObserveOne;
    if options != [] {
      var o, rest := options[0], options[1..];
      assert options == [o] + rest;
      ObserveOneIsLeast(fo, o, field);
      ObserveIsLeast(ObserveOne(fo, o), rest, field);
      forall v: nat ensures Announces(options, field, v) <==> Announced(o, field) == Some(v) || Announces(rest, field, v) {
        if Announces(rest, field, v) {
          var x :| x in rest && Announced(x, field) == Some(v);
          assert x in options;
        }
        if Announced(o, field) == Some(v) {
          assert o in options;
        }
      }
    }
  }

  // ---- tokens ----

  datatype Token = ReqToken | ResToken

  function KindOf(t: Token): OptionKind {
    if t == ReqToken then Req else Res
  }

  /** The token an option carries, if it is of that Kind and well formed. */
  function TokenIn(o: RawOption, t: Token): Option<seq<u8>> {
    if o.kind == KindOf(t) && |o.value| == 4 then Some(o.value) else None
  }

  function KnownToken(fo: FragmentOptions, t: Token): Option<seq<u8>> {
    if t == ReqToken then fo.req else fo.res
  }

  predicate Carries(options: seq<RawOption>, t: Token, v: seq<u8>) {
    exists o :: o in options && TokenIn(o, t) == Some(v)
  }

  /** The last token among the options, or the one known before. */
  function LastToken(options: seq<RawOption>, t: Token, known: Option<seq<u8>>): Option<seq<u8>> {
    if options == [] then known
    else
      var last := TokenIn(options[|options| - 1], t);
      if last.Some? then last else LastToken(options[..|options| - 1], t, known)
  }

  lemma {:induction false} LastTokenCons(o: RawOption, rest: seq<RawOption>, t: Token, known: Option<seq<u8>>)
    ensures LastToken([o] + rest, t, known)
         == LastToken(rest, t, if TokenIn(o, t).Some? then TokenIn(o, t) else known)
    decreases rest
  {
    hide TokenIn;
    var all := [o] + rest;
    if rest == [] {
      assert all[..|all| - 1] == [];
    } else {
      assert all[|all| - 1] == rest[|rest| - 1];
      assert all[..|all| - 1] == [o] + rest[..|rest| - 1];
      LastTokenCons(o, rest[..|rest| - 1], t, known);
    }
  }

  /** Of several tokens the last one observed wins. */
  lemma {:induction false} ObserveTakesLast(fo: FragmentOptions, options: seq<RawOption>, t: Token)
    ensures KnownToken(Observe(fo, options), t) == LastToken(options, t, KnownToken(fo, t))
    decreases options
  {
    hide LastToken;
    if options == [] {
      NoLastToken(t, KnownToken(fo, t));
    } else {
      ObserveTakesLast(ObserveOne(fo, options[0]), options[1..], t);
      LastTokenCons(options[0], options[1..], t, KnownToken(fo, t));
      assert options == [options[0]] + options[1..];
    }
  }

  lemma NoLastToken(t: Token, known: Option<seq<u8>>)
    ensures LastToken([], t, known) == known
  {
  }

  lemma {:induction false} LastTokenIsCarried(options: seq<RawOption>, t: Token, known: Option<seq<u8>>)
    ensures var r := LastToken(options, t, known);
            && (r.None? <==> known.None? && forall v :: !Carries(options, t, v))
            && (r.Some? ==> Carries(options, t, r.value) || (r == known && forall v :: !Carries(options, t, v)))
  {
    hide TokenIn;
    if options != [] {
      var prefix, o := options[..|options| - 1], options[|options| - 1];
      assert options == prefix + [o];
      LastTokenIsCarried(prefix, t, known);
      forall v ensures Carries(options, t, v) <==> Carries(prefix, t, v) || TokenIn(o, t) == Some(v) {
        CarriesSnoc(prefix, o, t, v);
      }
    }
  }

  lemma CarriesSnoc(prefix: seq<RawOption>, o: RawOption, t: Token, v: seq<u8>)
    ensures Carries(prefix + [o], t, v) <==> Carries(prefix, t, v) || TokenIn(o, t) == Some(v)
  {
    hide TokenIn;
    assert o in prefix + [o];
    assert forall x :: x in prefix ==> x in prefix + [o];
  }

  /** A fragment that is no duplicate replaces the tokens of earlier fragments by its own
      last ones; a completion hands up what is then known. */
  lemma LatestTokenWins(p: PartialState, f: Normalized, data: seq<u8>, proc: Processing, limits: Limits, t: Token)
    requires !IsExactDuplicate(p, f, data, proc)
    ensures var latest := LastToken(proc.options, t, KnownToken(p.fragmentOptions, t));
            var r := InsertPartial(p, f, data, proc, limits);
            && (r.Keep? ==> KnownToken(r.next.fragmentOptions, t) == latest)
            && (r.Done? ==> forall v :: RawOption(KindOf(t), v) in r.completion.options <==> latest == Some(v))
  {
    hide Observe, LastToken, ObserveFailures, InsertSegment, Walk, Concat, IsExactDuplicate, Overlaps, ToRawOptions;
    ObserveTakesLast(p.fragmentOptions, proc.options, t);
    forall v ensures RawOption(KindOf(t), v) in ToRawOptions(Observe(p.fragmentOptions, proc.options))
                <==> KnownToken(Observe(p.fragmentOptions, proc.options), t) == Some(v) {
      TokensHandedUp(Observe(p.fragmentOptions, proc.options), t, v);
    }
  }

  lemma TokensHandedUp(fo: FragmentOptions, t: Token, v: seq<u8>)
    ensures RawOption(KindOf(t), v) in ToRawOptions(fo) <==> KnownToken(fo, t) == Some(v)
  {
  }

  // ---- failures ----

  lemma {:induction false} ObservedFailures(kinds: seq<OptionKind>, failures: seq<OptionKind>)
    ensures forall k :: k in ObserveFailures(kinds, failures) <==> k in kinds || k in failures
    decreases failures
  {
    if failures != [] {
      var next := if failures[0] in kinds then kinds else kinds + [failures[0]];
      ObservedFailures(next, failures[1..]);
      assert failures == [failures[0]] + failures[1..];
    }
  }


  /** A completion hands up the least limits in the format of their options, and nothing
      else but tokens. */
  lemma LimitsHandedUp(fo: FragmentOptions, v: seq<u8>)
    ensures RawOption(Mds, v) in ToRawOptions(fo) <==> |v| == 2 && fo.mds == Some(U16At(v, 0))
    ensures RawOption(Mrds, v) in ToRawOptions(fo)
       <==> |v| == 3 && fo.mrdsSize == Some(U16At(v, 0)) && fo.mrdsSegments == Some(v[2])
    ensures forall o :: o in ToRawOptions(fo) ==> o.kind in {Mds, Mrds, Req, Res}
  {
    hide U16At, U16Bytes;
    if fo.mds.Some? { WordValue(fo.mds.value, v); }
    if fo.mrdsSize.Some? && |v| == 3 {
      WordValue(fo.mrdsSize.value, v[..2]);
      WordAt(v);
      assert v == v[..2] + [v[2]];
    }
  }

  lemma WordValue(n: u16, v: seq<u8>)
    ensures v == U16Bytes(n) <==> |v| == 2 && U16At(v, 0) == n
  {
    hide Word;
    if |v| == 2 {
      U16Back(v[0], v[1]);
      assert v == [v[0], v[1]];
    }
    U16RoundTrip(n, [], []);
    assert [] + U16Bytes(n) + [] == U16Bytes(n);
  }

  lemma WordAt(v: seq<u8>)
    requires |v| >= 2
    ensures U16At(v[..2], 0) == U16At(v, 0)
  {
  }
}
