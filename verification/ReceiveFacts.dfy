/** What the pipeline does with any datagram, honest or not: when its options are trusted,
    when its data are withheld, and what becomes of a fragment. */
module ReceiveFacts {
  import opened Bytes
  import opened OptionKinds
  import opened Checksums
  import opened OptionParser
  import opened OptionChecksum
  import opened WireHeaders
  import opened OptionScan
  import opened ScanFacts
  import opened ScanExact
  import opened Reassembly
  import opened Pipeline
  import opened PipelineFacts

  // ---- headers ----

  /** The 16-bit checksum equation: the words add up to a positive multiple of 65535. */
  predicate AddsUp(sum: nat) {
    sum > 0 && sum % 65535 == 0
  }

  function HeaderEnd(d: seq<u8>): nat
    requires |d| >= 20
  {
    d[0] % 16 * 4
  }

  /** Everything the receiver demands of the IPv4 header, read off the bytes. */
  predicate IpOk(d: seq<u8>) {
    && |d| >= 20 && d[0] / 16 == 4
    && 20 <= HeaderEnd(d) <= Word(d[2], d[3]) <= |d| && d[9] == 17 && AddsUp(WordSum(d[..HeaderEnd(d)]))
  }

  /** And of the UDP header at offset `at` of a datagram that ends at `end`: if a checksum is
      in use, addresses, protocol, length, header and data add up. */
  predicate UdpOk(d: seq<u8>, at: nat, end: nat)
    requires 20 <= at <= end <= |d|
  {
    && at + 8 <= end && 8 <= Word(d[at + 4], d[at + 5]) <= end - at
    && (Word(d[at + 6], d[at + 7]) != 0 ==>
          var len := Word(d[at + 4], d[at + 5]);
          (WordSum(d[12..16]) + WordSum(d[16..20]) + 17 + len + WordSum(d[at..at + len])) % 65535 == 0)
  }

  predicate HeadersOk(d: seq<u8>) {
    IpOk(d) && UdpOk(d, HeaderEnd(d), Word(d[2], d[3]))
  }

  lemma UdpBytesSum(b: seq<u8>)
    requires |b| >= 8
    ensures WordSum(b) == U16At(b, 0) + U16At(b, 2) + U16At(b, 4) + U16At(b, 6) + WordSum(b[8..])
  {
    hide U16At;
    SumStep(b, 0);
    SumStep(b, 2);
    SumStep(b, 4);
    SumStep(b, 6);
    assert b[0..] == b;
  }

  lemma SumStep(b: seq<u8>, at: nat)
    requires at + 2 <= |b|
    ensures WordSum(b[at..]) == U16At(b, at) + WordSum(b[at + 2..])
  {
    assert b[at..][2..] == b[at + 2..];
    assert U16At(b[at..], 0) == U16At(b, at);
  }

  /** A checksum field is right exactly when it completes the covered sum. */
  lemma ChecksumIsRightIff(src: Addr, dst: Addr, h: UdpHeader, data: seq<u8>)
    requires h.checksum != 0
    ensures UdpChecksum(src, dst, h.(checksum := 0), data) == h.checksum
       <==> (UdpCoverage(src, dst, h, data) + h.checksum) % 65535 == 0
  {
    hide UdpChecksum, WordSum;
    var n, c := UdpCoverage(src, dst, h, data), UdpChecksum(src, dst, h.(checksum := 0), data);
    assert UdpCoverage(src, dst, h.(checksum := 0), data) == n;
    ModUnique(n, c, h.checksum);
  }

  lemma ModUnique(n: nat, a: nat, b: nat)
    requires 0 < a <= 65535 && 0 < b <= 65535 && (n + a) % 65535 == 0
    ensures (n + b) % 65535 == 0 <==> a == b
  {
    if a != b {
      ResidueMoves(n + a, b - a);
    }
  }

  /** The view holds the fields found in the bytes. */
  predicate ViewOf(v: View, d: seq<u8>)
    requires |d| >= 20
  {
    var at := HeaderEnd(d);
    && at + 8 <= |d| && Word(d[2], d[3]) <= |d|
    && v.bytes == d[..Word(d[2], d[3])] && v.UdpAt() == at && v.ip.src == d[12..16] && v.ip.dst == d[16..20]
    && v.udp == UdpHeader(U16At(d, at), U16At(d, at + 2), U16At(d, at + 4), U16At(d, at + 6))
  }

  /** The accepted headers are exactly those, and the view is what they say. */
  lemma HeadersAcceptedIff(d: seq<u8>)
    ensures ReadHeaders(d).Ok? <==> HeadersOk(d)
    ensures ReadHeaders(d).Ok? ==> ViewOf(ReadHeaders(d).value, d)
  {
    hide WordSum, ParseIp, ParseUdp, CheckUdp, AddsUp, IpOk, UdpOk, ViewOf, View.Valid, Word;
    IpAcceptedIff(d);
    if ParseIp(d).Ok? {
      var ip := ParseIp(d).value;
      UdpPartAcceptedIff(d, ip);
    }
  }

  lemma UdpPartAcceptedIff(d: seq<u8>, ip: IpRepr)
    requires |d| >= 20 && ip == IpRepr(d[12..16], d[16..20], d[0] % 16, Word(d[2], d[3]))
    requires 20 <= ip.HeaderLen() <= ip.totalLen <= |d|
    ensures var bytes := d[..ip.HeaderLen() + ip.TransportLen()];
            var udp := ParseUdp(bytes[ip.HeaderLen()..]);
            && (UdpOk(d, ip.HeaderLen(), ip.totalLen) <==>
                  udp.Ok? && udp.value.length <= ip.TransportLen() && View(ip, udp.value, bytes).Valid()
                  && CheckUdp(View(ip, udp.value, bytes)).Ok?)
            && (udp.Ok? && udp.value.length <= ip.TransportLen() ==>
                  && View(ip, udp.value, bytes).Valid() && ViewOf(View(ip, udp.value, bytes), d)
                  && (CheckUdp(View(ip, udp.value, bytes)).Ok? ==>
                        CheckUdp(View(ip, udp.value, bytes)) == Ok(View(ip, udp.value, bytes))))
  {
    hide WordSum, CheckUdp;
    var at, total := ip.HeaderLen(), ip.totalLen;
    var bytes := d[..total];
    assert bytes[at..] == d[at..total];
    var udp := ParseUdp(bytes[at..]);
    if udp.Ok? && udp.value.length <= ip.TransportLen() {
      HeaderIsEven(ip);
      UdpAcceptedIff(View(ip, udp.value, bytes));
      assert bytes[at..at + udp.value.length] == d[at..at + udp.value.length];
    }
  }

  lemma IpAcceptedIff(d: seq<u8>)
    ensures ParseIp(d).Ok? <==> IpOk(d)
    ensures ParseIp(d).Ok? ==> ParseIp(d).value == IpRepr(d[12..16], d[16..20], d[0] % 16, Word(d[2], d[3]))
  {
    hide WordSum, Rep;
    if |d| >= 20 && HeaderEnd(d) <= |d| {
      RepAllOnes(WordSum(d[..HeaderEnd(d)]));
    }
  }

  lemma UdpAcceptedIff(v: View)
    requires v.Valid() && |v.bytes[v.UdpAt()..]| >= 8 && ParseUdp(v.bytes[v.UdpAt()..]) == Ok(v.udp)
    ensures CheckUdp(v) == Ok(v) || CheckUdp(v).Err?
    ensures CheckUdp(v).Ok? <==>
              (v.udp.checksum != 0 ==>
                 (WordSum(v.ip.src) + WordSum(v.ip.dst) + 17 + v.udp.length
                  + WordSum(v.bytes[v.UdpAt()..v.UdpAt() + v.udp.length])) % 65535 == 0)
  {
    hide WordSum, UdpChecksum;
    var b := v.bytes[v.UdpAt()..v.UdpAt() + v.udp.length];
    assert b[8..] == v.UserData();
    assert forall i :: 0 <= i < 8 ==> b[i] == v.bytes[v.UdpAt()..][i];
    UdpBytesSum(b);
    if v.udp.checksum != 0 {
      ChecksumIsRightIff(v.ip.src, v.ip.dst, v.udp, v.UserData());
    }
  }

  // ---- trust ----

  function SurplusAt(v: View): nat {
    v.UdpAt() + v.udp.length
  }

  /** Where the OCS is: at the first even offset behind the user data. */
  function OcsPos(v: View): nat {
    SurplusAt(v) + SurplusAt(v) % 2
  }

  /** The datagram goes on behind its UDP Length far enough to hold an OCS. */
  predicate HasSurplus(v: View) {
    OcsPos(v) + 2 <= |v.bytes|
  }

  /** The options are trusted when the pad is zero and the OCS completes the sum of the
      surplus area and its length, or when no checksum at all is in use. */
  function TrustOf(v: View): (s: OcsStatus)
    ensures s != OcsAbsent ==> HasSurplus(v)
  {
    if !HasSurplus(v) then OcsAbsent
    else if SurplusAt(v) % 2 == 1 && v.bytes[SurplusAt(v)] != 0 then OcsFailed
    else if v.bytes[OcsPos(v)] == 0 && v.bytes[OcsPos(v) + 1] == 0 then
      if v.udp.checksum == 0 then OcsUnused else OcsInvalidZero
    else if (WordSum(v.bytes[OcsPos(v)..]) + (|v.bytes| - SurplusAt(v))) % 65535 == 0 then OcsValid
    else OcsFailed
  }

  predicate Trusts(s: OcsStatus) {
    s == OcsValid || s == OcsUnused
  }

  /** The bytes behind the OCS, and what they parse to. */
  function OptionBytes(v: View): seq<u8>
    requires HasSurplus(v)
  {
    v.bytes[OcsPos(v) + 2..]
  }

  function ParsedArea(v: View, crc: Crc): Result<ParsedOptions, ParseError>
    requires v.Valid() && HasSurplus(v)
  {
    ParseOptions(OptionBytes(v), v.UserData(), OcsPos(v) + 2 - v.UdpAt(), crc(v.UserData()))
  }

  /** Delivery of the user data without its options. */
  function Plain(v: View): Delivery
    requires v.Valid()
  {
    Payload(v.UserData(), [], HasSurplus(v), [], [OcsReport(TrustOf(v), FromDatagram)])
  }

  lemma SurplusIsLocated(v: View)
    requires v.Valid()
    ensures LocateSurplus(v.ip, v.udp).Some? <==> HasSurplus(v)
    ensures HasSurplus(v) ==>
              LocateSurplus(v.ip, v.udp).value == SurplusLayout(SurplusAt(v), SurplusAt(v) % 2 == 1, |v.bytes| - SurplusAt(v))
  {
  }

  lemma VerdictByEquation(body: seq<u8>, len: u16, checksum: u16)
    requires |body| >= 2
    ensures var zero := body[0] == 0 && body[1] == 0;
            && (zero ==> Verdict(body, len, checksum) == if checksum == 0 then Unused else IgnoreOptions)
            && (!zero ==> Verdict(body, len, checksum)
                          == if (WordSum(body) + len) % 65535 == 0 then OcsCheck.Valid else Error(OcsMismatch))
  {
    hide Rep;
    RepAllOnes(WordSum(body) + len);
  }

  lemma OptionsReadIffTrusted(v: View, crc: Crc)
    requires v.Valid()
    ensures ReadOptions(v, crc)
         == if !Trusts(TrustOf(v)) || ParsedArea(v, crc).Err? then NoOptions(Plain(v))
            else Read(TrustOf(v), ParsedArea(v, crc).value)
  {
    hide ParseOptions, Verdict, LocateSurplus, WordSum, View.Valid;
    SurplusIsLocated(v);
    if HasSurplus(v) {
      var l := LocateSurplus(v.ip, v.udp).value;
      var body := v.bytes[OcsPos(v)..];
      OcsFollowsPad(v, l);
      assert body[2..] == OptionBytes(v);
      assert body[0] == v.bytes[OcsPos(v)] && body[1] == v.bytes[OcsPos(v) + 1];
      VerdictByEquation(body, l.len, v.udp.checksum);
    }
  }

  lemma OcsFollowsPad(v: View, l: SurplusLayout)
    requires v.Valid() && HasSurplus(v)
    requires l == SurplusLayout(SurplusAt(v), SurplusAt(v) % 2 == 1, |v.bytes| - SurplusAt(v))
    ensures l.OcsAt() == OcsPos(v) && l.len <= 0xFFFF && l.startsAt < |v.bytes| && v.UdpAt() <= OcsPos(v)
    ensures CheckPad(v.bytes[l.startsAt], l.needsPad).Err? <==> SurplusAt(v) % 2 == 1 && v.bytes[SurplusAt(v)] != 0
  {
  }

  /** Options that are not trusted, or not well formed, leave no trace: the data are
      delivered alone and the cache is as before. */
  lemma UntrustedOptionsAreIgnored(d: seq<u8>, m: CacheState, limits: Limits, now: nat, crc: Crc)
    requires ReadHeaders(d).Ok?
    requires var v := ReadHeaders(d).value; !Trusts(TrustOf(v)) || ParsedArea(v, crc).Err?
    ensures ProcessDatagram(d, m, limits, now, crc) == (Ok(Plain(ReadHeaders(d).value)), m)
  {
    hide ReadHeaders, ReadOptions, Plain, ParsedArea, TrustOf;
    OptionsReadIffTrusted(ReadHeaders(d).value, crc);
  }

  // ---- what becomes of trusted options ----

  /** A datagram that is no fragment: its data and options are delivered, its data alone if
      it carries a FRAG in spite of them, and nothing but its reports if an option says so. */
  lemma DatagramIsDelivered(d: seq<u8>, m: CacheState, limits: Limits, now: nat, crc: Crc)
    requires ReadHeaders(d).Ok?
    requires var v := ReadHeaders(d).value; Trusts(TrustOf(v)) && ParsedArea(v, crc).Ok?
    requires var v := ReadHeaders(d).value; v.UserData() != [] || ParsedArea(v, crc).value.frag.None?
    ensures var v, po := ReadHeaders(d).value, ParsedArea(ReadHeaders(d).value, crc).value;
            var ocs := [OcsReport(TrustOf(v), FromDatagram)];
            ProcessDatagram(d, m, limits, now, crc)
            == (Ok(if po.frag.Some? then Payload(v.UserData(), [], true, [], ocs)
                   else if po.unsafeSeen then Payload([], [], true, po.reports, ocs)
                   else Payload(v.UserData(), po.options, true, po.reports, ocs)), m)
  {
    hide ReadHeaders, ReadOptions, ParsedArea, TrustOf, Plain, InsertFragment;
    var v := ReadHeaders(d).value;
    OptionsReadIffTrusted(v, crc);
    FailedMeansFrag(v, crc);
  }

  lemma FailedMeansFrag(v: View, crc: Crc)
    requires v.Valid() && Trusts(TrustOf(v)) && ParsedArea(v, crc).Ok?
    ensures ParsedArea(v, crc).value.fragmentFailed ==> ParsedArea(v, crc).value.frag.Some?
  {
    hide Scan, Items, TrustOf;
    var area, user, offset := OptionBytes(v), v.UserData(), OcsPos(v) + 2 - v.UdpAt();
    match FragmentOptionLimit(area, user == [], offset)
    case Full => FailureNeedsFrag(Items(area, 0), START, user, false, crc(user));
    case End(end) => FailureNeedsFrag(Items(area[..end], 0), START, user, true, crc(user));
    case MalformedFrag(_) =>
  }

  /** A fragment that failed, or that carries an UNSAFE option, is dropped together with
      what was stored under its key. */
  lemma FailedFragmentIsDropped(d: seq<u8>, m: CacheState, limits: Limits, now: nat, crc: Crc)
    requires ReadHeaders(d).Ok?
    requires var v := ReadHeaders(d).value; v.UserData() == [] && Trusts(TrustOf(v)) && ParsedArea(v, crc).Ok?
    requires var po := ParsedArea(ReadHeaders(d).value, crc).value; po.frag.Some? && (po.fragmentFailed || po.unsafeSeen)
    ensures var v := ReadHeaders(d).value;
            var key := FragKey(v.ip.src, v.ip.dst, v.udp.srcPort, v.udp.dstPort,
                               ParsedArea(v, crc).value.frag.value.identification);
            ProcessDatagram(d, m, limits, now, crc) == (Ok(Dropped), m - {key})
  {
    hide ReadHeaders, ReadOptions, ParsedArea, TrustOf, Plain, InsertFragment;
    OptionsReadIffTrusted(ReadHeaders(d).value, crc);
  }

  /** `failures` lists the Kinds reported as failed, once each. */
  ghost predicate FailedKinds(failures: seq<OptionKind>, reports: seq<OptionReport>) {
    && (forall k :: k in failures <==> exists r :: r in reports && r.kind == k && r.status == Failed)
    && (forall i, j :: 0 <= i < j < |failures| ==> failures[i] != failures[j])
  }

  lemma {:induction false} FailuresAreExact(reports: seq<OptionReport>)
    ensures FailedKinds(FailuresOf(reports), reports)
  {
    if reports != [] {
      var prefix, last := reports[..|reports| - 1], reports[|reports| - 1];
      assert reports == prefix + [last];
      FailuresAreExact(prefix);
      forall k ensures k in FailuresOf(reports) <==> exists r :: r in reports && r.kind == k && r.status == Failed {
        if exists r :: r in prefix && r.kind == k && r.status == Failed {
          var r :| r in prefix && r.kind == k && r.status == Failed;
          assert r in reports;
        }
        assert last in reports;
      }
    }
  }

  /** A sound fragment is inserted under its 4-tuple and Identification, with the bytes from
      Frag. Start on, its options, its failed Kinds and its OCS use; the outcome is
      buffering, dropping, or one more pass over the rebuilt datagram. */
  lemma FragmentIsReassembled(d: seq<u8>, m: CacheState, limits: Limits, now: nat, crc: Crc) returns (failures: seq<OptionKind>)
    requires ReadHeaders(d).Ok?
    requires var v := ReadHeaders(d).value; v.UserData() == [] && Trusts(TrustOf(v)) && ParsedArea(v, crc).Ok?
    requires var po := ParsedArea(ReadHeaders(d).value, crc).value; po.frag.Some? && !po.fragmentFailed && !po.unsafeSeen
    ensures var v, po := ReadHeaders(d).value, ParsedArea(ReadHeaders(d).value, crc).value;
            var frag := po.frag.value;
            && FailedKinds(failures, po.reports)
            && v.UdpAt() + frag.fragStart <= |v.bytes|
            && var key := FragKey(v.ip.src, v.ip.dst, v.udp.srcPort, v.udp.dstPort, frag.identification);
               var proc := Processing(po.options, failures, Some(TrustOf(v) == OcsValid));
               var (n, out) := InsertFragment(m, limits, key, frag, v.bytes[v.UdpAt() + frag.fragStart..], proc, now);
               ProcessDatagram(d, m, limits, now, crc)
               == match out
                  case Incomplete => (Ok(Buffered), n)
                  case Abort(_) => (Ok(Dropped), n)
                  case Complete(c) =>
                    (var again := Rebuilt(v.ip, v.udp, c.udpLength, c.tail);
                     if again.None? then (Ok(Dropped), n)
                     else (Merge(c, Process(again.value, n, limits, now, crc, false).0), Process(again.value, n, limits, now, crc, false).1))
  {
    hide ReadHeaders, ReadOptions, ParsedArea, TrustOf, Plain, InsertFragment, Rebuilt, Merge, FailuresOf;
    var v := ReadHeaders(d).value;
    OptionsReadIffTrusted(v, crc);
    failures := FailuresOf(ParsedArea(v, crc).value.reports);
    FailuresAreExact(ParsedArea(v, crc).value.reports);
    FragmentDataIsInside(v, crc);
  }

  /** The pass over a rebuilt datagram, in full: as the first, except that a fragment inside
      it is dropped, and what is stored under its key too if it failed. */
  lemma SecondPassIsExact(d: seq<u8>, m: CacheState, limits: Limits, now: nat, crc: Crc)
    requires ReadHeaders(d).Ok?
    ensures var v := ReadHeaders(d).value;
            Process(d, m, limits, now, crc, false)
            == if !Trusts(TrustOf(v)) || ParsedArea(v, crc).Err? then (Ok(Plain(v)), m)
               else
                 var po, ocs := ParsedArea(v, crc).value, [OcsReport(TrustOf(v), FromDatagram)];
                 if po.frag.Some? && v.UserData() != [] then (Ok(Payload(v.UserData(), [], true, [], ocs)), m)
                 else if po.frag.Some? then
                   (Ok(Dropped), if po.fragmentFailed || po.unsafeSeen then m - {v.Key(po.frag.value)} else m)
                 else if po.unsafeSeen then (Ok(Payload([], [], true, po.reports, ocs)), m)
                 else (Ok(Payload(v.UserData(), po.options, true, po.reports, ocs)), m)
  {
    hide ReadHeaders, ReadOptions, ParsedArea, TrustOf, Plain;
    var v := ReadHeaders(d).value;
    OptionsReadIffTrusted(v, crc);
    if Trusts(TrustOf(v)) && ParsedArea(v, crc).Ok? {
      FailedMeansFrag(v, crc);
    }
  }

  // ---- withheld data ----

  /** The scan of a datagram comes to an option it may not ignore, an UNSAFE one or a FRAG
      of unknown format, with no error, short option or FRAG before it. */
  predicate WithholdsAt(items: seq<Item>, k: nat) {
    && k < |items| && (forall j :: 0 <= j < k ==> Passes(items, j, false)) && !Earlier(items, k, Frag)
    && items[k].Item? && !TooShort(items[k])
    && (IsUnsafe(items[k]) || (items[k].kind.Frag? && |items[k].value| != 8 && |items[k].value| != 10))
  }

  /** User data are withheld, and options with them, exactly when such an option is met;
      otherwise exactly the user data are delivered. The cache is left alone. */
  lemma DataWithheldIff(d: seq<u8>, m: CacheState, limits: Limits, now: nat, crc: Crc)
    requires ReadHeaders(d).Ok? && ReadHeaders(d).value.UserData() != [] && Trusts(TrustOf(ReadHeaders(d).value))
    ensures var v := ReadHeaders(d).value;
            var (r, n) := ProcessDatagram(d, m, limits, now, crc);
            && n == m && r.Ok? && r.value.Payload?
            && (r.value.data == [] <==> exists k: nat :: WithholdsAt(Items(OptionBytes(v), 0), k))
            && (r.value.data == [] ==> r.value.options == [])
            && (r.value.data != [] ==> r.value.data == v.UserData())
  {
    hide ReadHeaders, TrustOf, ProcessDatagram, Scan, Items, ReadOptions;
    var v := ReadHeaders(d).value;
    var items := Items(OptionBytes(v), 0);
    var user, c := v.UserData(), crc(v.UserData());
    DatagramAreaIsScanned(OptionBytes(v), user, OcsPos(v) + 2 - v.UdpAt(), c, 0);
    UnsafeIffWithheld(items, user, c);
    if ParsedArea(v, crc).Err? {
      UntrustedOptionsAreIgnored(d, m, limits, now, crc);
    } else {
      DatagramIsDelivered(d, m, limits, now, crc);
    }
  }

  lemma UnsafeIffWithheld(items: seq<Item>, user: seq<u8>, crc: u32)
    requires user != []
    ensures var r := Scan(items, START, user, false, crc);
            (r.Ok? && r.value.unsafeSeen && r.value.frag.None?) <==> exists k: nat :: WithholdsAt(items, k)
  {
    hide Scan, TooShort, DueOptions, DueReports;
    var k := FirstStop(items, |items|, false);
    if k == |items| {
      ScanToTheEnd(items, user, false, crc);
      forall j: nat ensures !WithholdsAt(items, j) {
        if j < |items| { assert Passes(items, j, false); }
      }
    } else {
      ScanStopsAt(items, k, user, false, crc);
      PassedAreItems(items, k, false);
      FragIffEarlier(items, k);
      forall j: nat ensures WithholdsAt(items, j) ==> j == k {
        if j < k { assert Passes(items, j, false); }
      }
      assert WithholdsAt(items, k) || !WithholdsAt(items, k);
    }
  }

  lemma {:induction false} FragIffEarlier(items: seq<Item>, k: nat)
    requires k <= |items| && forall j :: 0 <= j < k ==> Passes(items, j, false)
    ensures AllItems(items, k) && (FirstFrag(items, k).Some? <==> Earlier(items, k, Frag))
  {
    hide TooShort, DecodeFrag;
    PassedAreItems(items, k, false);
    if k > 0 {
      FragIffEarlier(items, k - 1);
      EarlierNext(items, k - 1, Frag);
      assert Passes(items, k - 1, false);
      DecodableFrag(items[k - 1].value);
    }
  }

  /** Without user data such a datagram delivers nothing but its reports. */
  lemma EmptyDatagramWithholds(d: seq<u8>, m: CacheState, limits: Limits, now: nat, crc: Crc, k: nat)
    requires ReadHeaders(d).Ok? && ReadHeaders(d).value.UserData() == [] && Trusts(TrustOf(ReadHeaders(d).value))
    requires WithholdsAt(Items(OptionBytes(ReadHeaders(d).value), 0), k)
    ensures var v := ReadHeaders(d).value;
            var items := Items(OptionBytes(v), 0);
            && AllItems(items, k)
            && ProcessDatagram(d, m, limits, now, crc)
               == (Ok(Payload([], [], true,
                              DueReports(items, k, false, crc([]))
                              + (if IsUnsafe(items[k]) then [OptionReport(items[k].kind, Failed, FromDatagram)] else []),
                              [OcsReport(TrustOf(v), FromDatagram)])), m)
  {
    hide ReadHeaders, TrustOf, ProcessDatagram, Scan, Items, ReadOptions, TooShort, DueOptions, DueReports;
    var v := ReadHeaders(d).value;
    var items := Items(OptionBytes(v), 0);
    PassedAreItems(items, k, false);
    NoFragBefore(items, k);
    NoFinalBefore(OptionBytes(v), k);
    DatagramAreaIsScanned(OptionBytes(v), [], OcsPos(v) + 2 - v.UdpAt(), crc([]), k);
    ScanStopsAt(items, k, [], false, crc([]));
    FragIffEarlier(items, k);
    assert DueReports(items, k, false, crc([])) + [] == DueReports(items, k, false, crc([]));
    DatagramIsDelivered(d, m, limits, now, crc);
  }

  lemma NoFragBefore(items: seq<Item>, k: nat)
    requires k <= |items| && AllItems(items, k) && !Earlier(items, k, Frag)
    ensures forall j :: 0 <= j < k ==> items[j].Item? && !items[j].kind.Frag?
  {
    forall j | 0 <= j < k ensures !items[j].kind.Frag? {
      assert !IsKind(items[j], Frag);
    }
  }

  lemma NoFinalBefore(area: seq<u8>, k: nat)
    requires WithholdsAt(Items(area, 0), k)
    ensures var it := Items(area, 0)[k]; Final(it) || (it.kind.Frag? && |it.value| != 8 && |it.value| != 10)
  {
  }


  // ---- complaints about headers ----

  /** Which complaint bad headers get: the first of these that applies. */
  lemma HeaderComplaints(d: seq<u8>)
    requires ReadHeaders(d).Err?
    ensures var e := ReadHeaders(d).error;
            if d == [] then e == Header(IpTruncated(1, 0))
            else if d[0] / 16 != 4 then e == Header(UnsupportedVersion(d[0] / 16))
            else if |d| < 20 then e == Header(IpTruncated(20, |d|))
            else if d[0] % 16 < 5 then e == Header(BadIhl(d[0] % 16))
            else if |d| < HeaderEnd(d) then e == Header(IpTruncated(HeaderEnd(d), |d|))
            else if !(HeaderEnd(d) <= Word(d[2], d[3]) <= |d|) then e == Header(BadIpLength(Word(d[2], d[3])))
            else if d[9] != 17 then e == Header(UnexpectedProtocol(d[9]))
            else if !IpOk(d) then e == Header(IpChecksumMismatch)
            else
              var at, end := HeaderEnd(d), Word(d[2], d[3]);
              if end < at + 8 then e == Header(UdpTruncated(end - at))
              else if Word(d[at + 4], d[at + 5]) < 8 then e == Header(UdpLengthInvalid(Word(d[at + 4], d[at + 5])))
              else if Word(d[at + 4], d[at + 5]) > end - at then e == UdpLengthExceedsIpPayload(Word(d[at + 4], d[at + 5]), end - at)
              else e.UdpChecksumMismatch? && e.actual == Word(d[at + 6], d[at + 7])
  {
    hide WordSum, Rep, CheckUdp;
    IpAcceptedIff(d);
    if ParseIp(d).Ok? {
      var at, end := HeaderEnd(d), Word(d[2], d[3]);
      var bytes := d[..end];
      assert bytes[at..] == d[at..end];
      var udp := ParseUdp(bytes[at..]);
      if udp.Ok? && udp.value.length <= end - at {
        CheckComplains(View(ParseIp(d).value, udp.value, bytes));
      }
    }
  }

  lemma CheckComplains(v: View)
    requires v.Valid() && CheckUdp(v).Err?
    ensures CheckUdp(v).error.UdpChecksumMismatch? && CheckUdp(v).error.actual == v.udp.checksum
  {
    hide UdpChecksum;
  }
}
