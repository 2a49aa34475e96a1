/** Which of the options carried by individual fragments are delivered and reported with
    the reassembled datagram. */
module FragmentSetFacts {
  import opened Bytes
  import opened OptionKinds
  import opened OptionScan
  import opened Reassembly
  import opened Pipeline

  lemma {:induction false} KeptAreUnfailed(options: seq<RawOption>, failures: seq<OptionKind>)
    ensures forall o :: o in KeepOthers(options, failures) <==> o in options && o.kind !in failures
  {
    if options != [] {
      KeptAreUnfailed(options[1..], failures);
      assert options == [options[0]] + options[1..];
    }
  }

  lemma ReportedGrows(a: seq<OptionReport>, b: seq<OptionReport>, kind: OptionKind)
    requires a <= b
    ensures Reported(a, kind) ==> Reported(b, kind)
  {
    if Reported(a, kind) {
      var i :| 0 <= i < |a| && a[i].kind == kind;
      assert b[i] == a[i];
    }
  }

  lemma {:induction false} SuccessesAvoidReported(reports: seq<OptionReport>, options: seq<RawOption>)
    ensures var r := AddSuccesses(reports, options);
            && reports <= r
            && (forall i :: |reports| <= i < |r| ==> r[i].status == Success && r[i].source == FromFragmentSet
                                                     && !Reported(reports, r[i].kind))
            && (forall o :: o in options ==> Reported(r, o.kind))
    decreases options
  {
    if options != [] {
      var o, rest := options[0], options[1..];
      var next := if Reported(reports, o.kind) then reports
                  else reports + [OptionReport(o.kind, Success, FromFragmentSet)];
      SuccessesAvoidReported(next, rest);
      var r := AddSuccesses(reports, options);
      assert Reported(next, o.kind) by {
        if !Reported(reports, o.kind) { assert next[|reports|].kind == o.kind; }
      }
      assert Reported(r, o.kind) by {
        var i :| 0 <= i < |next| && next[i].kind == o.kind;
        assert r[i] == next[i];
      }
      forall i | |reports| <= i < |r|
        ensures r[i].status == Success && r[i].source == FromFragmentSet && !Reported(reports, r[i].kind)
      {
        ReportedGrows(reports, next, r[i].kind);
        if i < |next| {
          assert r[i] == next[i];
        }
      }
      forall x | x in options ensures Reported(r, x.kind) {
        if x != o { assert x in rest; }
      }
    }
  }

  /** A Kind that failed on any fragment is reported as failed for the set, and never
      delivered from it nor reported as successful; every other coalesced option is
      delivered and reported. */
  lemma FailedKindsAreNeverDelivered(options: seq<RawOption>, failures: seq<OptionKind>)
    ensures forall o :: o in KeepOthers(options, failures) <==> o in options && o.kind !in failures
    ensures var r := AddSuccesses(FailedReports(failures), options);
            && (forall k :: k in failures ==> OptionReport(k, Failed, FromFragmentSet) in r)
            && (forall x :: x in r && x.status == Success ==> x.kind !in failures)
            && (forall o :: o in options ==> Reported(r, o.kind))
  {
    KeptAreUnfailed(options, failures);
    var failed := FailedReports(failures);
    SuccessesAvoidReported(failed, options);
    var r := AddSuccesses(failed, options);
    forall k | k in failures ensures OptionReport(k, Failed, FromFragmentSet) in r && Reported(failed, k) {
      var i :| 0 <= i < |failures| && failures[i] == k;
      assert r[i] == failed[i];
    }
    assert forall i :: 0 <= i < |failed| ==> r[i] == failed[i] && r[i].status == Failed;
    forall x | x in r && x.status == Success ensures x.kind !in failures {
      var i :| 0 <= i < |r| && r[i] == x;
      assert i >= |failed|;
    }
  }


  /** The options kept are in their order. */
  lemma {:induction false} KeepDistributes(a: seq<RawOption>, b: seq<RawOption>, failures: seq<OptionKind>)
    ensures KeepOthers(a + b, failures) == KeepOthers(a, failures) + KeepOthers(b, failures)
  {
    if a == [] {
      assert a + b == b && [] + KeepOthers(b, failures) == KeepOthers(b, failures);
    } else {
      KeepDistributes(a[1..], b, failures);
      assert (a + b)[1..] == a[1..] + b;
      var first: seq<RawOption> := if a[0].kind in failures then [] else [a[0]];
      assert KeepOthers(a + b, failures) == first + KeepOthers(a[1..] + b, failures);
      Regroup(first, KeepOthers(a[1..], failures), KeepOthers(b, failures));
    }
  }

  /** What re-feeding adds to the delivery of a reassembled datagram: in front of its own
      options the unfailed ones of the fragments, in front of its reports those of the
      fragment set, and in front of its OCS report that of the fragments. */
  lemma MergeIsExact(c: Completion, p: Delivery) returns (options: seq<RawOption>, reports: seq<OptionReport>)
    requires p.Payload?
    ensures forall o :: o in options <==> o in c.options && o.kind !in c.failures
    ensures options == KeepOthers(c.options, c.failures)
    ensures |reports| >= |c.failures|
            && forall i :: 0 <= i < |c.failures| ==> reports[i] == OptionReport(c.failures[i], Failed, FromFragmentSet)
    ensures forall r :: r in reports ==> r.source == FromFragmentSet
    ensures forall k :: OptionReport(k, Failed, FromFragmentSet) in reports <==> k in c.failures
    ensures forall k :: OptionReport(k, Success, FromFragmentSet) in reports
                   <==> k !in c.failures && exists o :: o in c.options && o.kind == k
    ensures var status := if c.ocsNonzero == None then OcsUnobserved else if c.ocsNonzero.value then OcsValid else OcsUnused;
            Merge(c, Ok(p)) == Ok(Payload(p.data, options + p.options, p.optionBearing, reports + p.reports,
                                          [OcsReport(status, FromFragmentSet)] + p.ocsReports))
  {
    hide KeepOthers, AddSuccesses;
    options, reports := KeepOthers(c.options, c.failures), AddSuccesses(FailedReports(c.failures), c.options);
    KeptAreUnfailed(c.options, c.failures);
    SuccessesAvoidReported(FailedReports(c.failures), c.options);
    SetReportsAreExact(c.failures, c.options);
  }

  lemma SetReportsAreExact(failures: seq<OptionKind>, options: seq<RawOption>)
    ensures var reports := AddSuccesses(FailedReports(failures), options);
            && (forall r :: r in reports ==> r.source == FromFragmentSet)
            && (forall k :: OptionReport(k, Failed, FromFragmentSet) in reports <==> k in failures)
            && (forall k :: OptionReport(k, Success, FromFragmentSet) in reports
                       <==> k !in failures && exists o :: o in options && o.kind == k)
  {
    hide AddSuccesses;
    var failed, reports := FailedReports(failures), AddSuccesses(FailedReports(failures), options);
    SuccessesAvoidReported(failed, options);
    SuccessesAreAnnounced(failed, options);
    forall k ensures Reported(failed, k) <==> k in failures {
      FailedAreReported(failures, k);
    }
    forall r | r in reports ensures r.source == FromFragmentSet {
      var i :| 0 <= i < |reports| && reports[i] == r;
      if i < |failed| { assert reports[i] == failed[i]; }
    }
    forall k ensures OptionReport(k, Failed, FromFragmentSet) in reports <==> k in failures {
      if k in failures {
        var i :| 0 <= i < |failures| && failures[i] == k;
        assert reports[i] == failed[i] == OptionReport(k, Failed, FromFragmentSet);
      }
      if OptionReport(k, Failed, FromFragmentSet) in reports {
        var i :| 0 <= i < |reports| && reports[i] == OptionReport(k, Failed, FromFragmentSet);
        assert i < |failed| && reports[i] == failed[i];
      }
    }
    forall k ensures OptionReport(k, Success, FromFragmentSet) in reports
                <==> k !in failures && exists o :: o in options && o.kind == k
    {
      SuccessIffAnnounced(failures, options, k);
    }
  }

  lemma SuccessIffAnnounced(failures: seq<OptionKind>, options: seq<RawOption>, k: OptionKind)
    ensures OptionReport(k, Success, FromFragmentSet) in AddSuccesses(FailedReports(failures), options)
       <==> k !in failures && exists o :: o in options && o.kind == k
  {
    hide AddSuccesses;
    var failed, reports := FailedReports(failures), AddSuccesses(FailedReports(failures), options);
    SuccessesAvoidReported(failed, options);
    SuccessesAreAnnounced(failed, options);
    FailedAreReported(failures, k);
    if OptionReport(k, Success, FromFragmentSet) in reports {
      var i :| 0 <= i < |reports| && reports[i] == OptionReport(k, Success, FromFragmentSet);
    }
    if k !in failures && exists o :: o in options && o.kind == k {
      var o :| o in options && o.kind == k;
      assert Reported(reports, k);
      var i :| 0 <= i < |reports| && reports[i].kind == k;
    }
  }

  lemma FailedAreReported(failures: seq<OptionKind>, k: OptionKind)
    ensures Reported(FailedReports(failures), k) <==> k in failures
  {
    if k in failures {
      var i :| 0 <= i < |failures| && failures[i] == k;
      assert FailedReports(failures)[i].kind == k;
    }
  }

  /** Every success added is that of an option at hand. */
  lemma {:induction false} SuccessesAreAnnounced(reports: seq<OptionReport>, options: seq<RawOption>)
    ensures var r := AddSuccesses(reports, options);
            reports <= r && forall i :: |reports| <= i < |r| ==> exists o :: o in options && o.kind == r[i].kind
    decreases options
  {
    if options != [] {
      var o, rest := options[0], options[1..];
      var next := if Reported(reports, o.kind) then reports
                  else reports + [OptionReport(o.kind, Success, FromFragmentSet)];
      SuccessesAreAnnounced(next, rest);
      var r := AddSuccesses(reports, options);
      forall i | |reports| <= i < |r| ensures exists o :: o in options && o.kind == r[i].kind {
        if i < |next| {
          assert r[i] == next[i] && o in options;
        } else {
          var x :| x in rest && x.kind == r[i].kind;
          assert x in options;
        }
      }
    }
  }
}
