/** What the pipeline guarantees for every datagram and every cache. */
module PipelineFacts {
  import opened Bytes
  import opened OptionKinds
  import opened OptionParser
  import opened OptionChecksum
  import opened WireHeaders
  import opened OptionScan
  import opened ScanFacts
  import opened Reassembly
  import opened ReassemblyInvariant
  import opened ReassemblyRuns
  import opened Pipeline

  // ---- re-feeding a reassembled datagram ----

  /** A rebuilt datagram always passes the header, length and checksum checks. */
  lemma RebuiltIsReadable(ip: IpRepr, udp: UdpHeader, udpLength: u16, tail: seq<u8>)
    requires Rebuilt(ip, udp, udpLength, tail).Some?
    ensures var d := Rebuilt(ip, udp, udpLength, tail).value;
            && ReadHeaders(d) == Ok(View(IpRepr(ip.src, ip.dst, 5, 28 + |tail|),
                                         UdpHeader(udp.srcPort, udp.dstPort, udpLength, 0), d))
            && |d| == 28 + |tail| && d[28..] == tail
  {
    hide IpBytes, UdpBytes, UdpChecksum, ParseIp, ParseUdp;
    var ip', udp' := IpRepr(ip.src, ip.dst, 5, 28 + |tail|), UdpHeader(udp.srcPort, udp.dstPort, udpLength, 0);
    var d := Rebuilt(ip, udp, udpLength, tail).value;
    IpRoundTrip(ip', UdpBytes(udp') + tail);
    UdpRoundTrip(udp', tail);
    assert d[..28 + |tail|] == d && d[20..] == UdpBytes(udp') + tail;
    assert d[28..] == tail;
  }

  /** A second pass never errs, buffers or adds a partial; all it can do to the cache is
      to discard one key of its own 4-tuple. */
  lemma SecondPassIsTotal(d: seq<u8>, m: CacheState, limits: Limits, now: nat, crc: Crc)
    requires ReadHeaders(d).Ok?
    ensures var (r, n) := Process(d, m, limits, now, crc, false);
            && r.Ok? && !r.value.Buffered?
            && (n == m || exists k :: OfTuple(k, ReadHeaders(d).value) && n == m - {k})
  {
    hide ReadHeaders, ReadOptions;
    var v := ReadHeaders(d).value;
    match ReadOptions(v, crc)
    case NoOptions(_) =>
      NoOptionsKeepsData(v, crc);
    case Read(ocs, po) =>
      if po.frag.Some? {
        assert OfTuple(v.Key(po.frag.value), v);
      }
  }

  /** A completion of a reachable cache can be rebuilt exactly when it fits one IPv4
      packet. */
  lemma CompletionsAreRebuilt(m: CacheState, limits: Limits, key: FragKey, frag: FragOption, data: seq<u8>,
                              proc: Processing, now: nat, ip: IpRepr, udp: UdpHeader)
    requires CacheInv(m, limits)
    requires InsertFragment(m, limits, key, frag, data, proc, now).1.Complete?
    ensures var c := InsertFragment(m, limits, key, frag, data, proc, now).1.completion;
            Rebuilt(ip, udp, c.udpLength, c.tail).Some? <==> 28 + |c.tail| <= 0xFFFF
  {
    hide InsertFragment, InsertPartial, IpBytes, UdpBytes, PartialInv;
    InsertOnKey(m, limits, key, frag, data, proc, now);
    var f := Normalize(frag, |data|).value;
    var p := Current(m, key, now, limits.timeout);
    FreshIsConsistent(now, limits);
    CompletionIsCoherent(p, f, data, proc, limits);
  }

  /** The UDP Length of a completion covers at least the header and at most the tail. */
  lemma CompletionIsCoherent(p: PartialState, f: Normalized, data: seq<u8>, proc: Processing, limits: Limits)
    requires PartialInv(p, limits) && Admitted(f, data, limits)
    requires InsertPartial(p, f, data, proc, limits).Done?
    ensures var c := InsertPartial(p, f, data, proc, limits).completion;
            8 <= c.udpLength <= 8 + |c.tail|
  {
    hide IsExactDuplicate, NoteTerminal, Store, Overlaps, ToRawOptions, SegmentsOk, Within;
    NoteTerminalKeeps(p, f, data, proc, limits);
    var q := NoteTerminal(p, f, data, proc).value;
    PackingArgument(p.segments, f.start, f.end, limits.maxSize - 8);
    StoreKeeps(q, f, data, proc, limits);
    var t := Store(q, f, data, proc);
    WalkedLength(t.segments, 0, t.terminalEnd.value);
  }

  /** The pipeline fails on bad headers and on nothing else. */
  lemma OnlyHeadersFail(d: seq<u8>, m: CacheState, limits: Limits, now: nat, crc: Crc)
    ensures ProcessDatagram(d, m, limits, now, crc).0.Ok? <==> ReadHeaders(d).Ok?
    ensures ReadHeaders(d).Err? ==> ProcessDatagram(d, m, limits, now, crc) == (Err(ReadHeaders(d).error), m)
  {
    hide ReadHeaders, ReadOptions, Dispose, InsertFragment, Rebuilt;
    if ReadHeaders(d).Ok? {
      var v := ReadHeaders(d).value;
      var o := ReadOptions(v, crc);
      if o.Read? && Dispose(v, o.ocs, o.parsed, true).Reassemble? {
        var x := Dispose(v, o.ocs, o.parsed, true);
        var (n, out) := InsertFragment(m, limits, x.key, x.frag, x.data, x.proc, now);
        if out.Complete? {
          var again := Rebuilt(v.ip, v.udp, out.completion.udpLength, out.completion.tail);
          if again.Some? {
            RebuiltIsReadable(v.ip, v.udp, out.completion.udpLength, out.completion.tail);
            SecondPassIsTotal(again.value, n, limits, now, crc);
          }
        }
      }
    }
  }

  // ---- what a datagram can do to the cache ----

  predicate OfTuple(k: FragKey, v: View) {
    k.src == v.ip.src && k.dst == v.ip.dst && k.srcPort == v.udp.srcPort && k.dstPort == v.udp.dstPort
  }

  /** From `m` to `n`, keys outside one 4-tuple are at most lost to expiry. */
  ghost predicate OnlyExpiry(m: CacheState, n: CacheState, v: View, now: nat, timeout: nat) {
    forall k :: !OfTuple(k, v) ==>
      && (k in n ==> k in m && n[k] == m[k])
      && (k in m && k !in n ==> Expired(m[k], now, timeout))
  }

  lemma InsertionIsConfined(v: View, m: CacheState, limits: Limits, frag: FragOption, data: seq<u8>, proc: Processing, now: nat)
    ensures OnlyExpiry(m, InsertFragment(m, limits, v.Key(frag), frag, data, proc, now).0, v, now, limits.timeout)
  {
    hide InsertFragment;
    InsertRetention(m, limits, v.Key(frag), frag, data, proc, now);
  }

  /** A datagram affects the partials of other 4-tuples only through expiry. */
  lemma OtherTuplesOnlyExpire(d: seq<u8>, m: CacheState, limits: Limits, now: nat, crc: Crc)
    requires ReadHeaders(d).Ok?
    ensures OnlyExpiry(m, ProcessDatagram(d, m, limits, now, crc).1, ReadHeaders(d).value, now, limits.timeout)
  {
    hide ReadHeaders, ReadOptions, InsertFragment, Rebuilt;
    var v := ReadHeaders(d).value;
    var o := ReadOptions(v, crc);
    if o.Read? && Dispose(v, o.ocs, o.parsed, true).Reassemble? {
      var x := Dispose(v, o.ocs, o.parsed, true);
      InsertionIsConfined(v, m, limits, x.frag, x.data, x.proc, now);
      var (n, out) := InsertFragment(m, limits, x.key, x.frag, x.data, x.proc, now);
      if out.Complete? {
        var again := Rebuilt(v.ip, v.udp, out.completion.udpLength, out.completion.tail);
        if again.Some? {
          RebuiltIsReadable(v.ip, v.udp, out.completion.udpLength, out.completion.tail);
          SecondPassIsTotal(again.value, n, limits, now, crc);
        }
      }
    }
  }

  /** An area that makes the receiver withhold the user data: an UNSAFE option, or a
      FRAG of unknown format. */
  predicate Withholds(area: seq<u8>) {
    exists it :: it in Items(area, 0) && (IsUnsafe(it) || (it.Item? && it.kind.Frag? && DecodeFrag(it.value).None?))
  }

  /** The bytes behind the OCS. */
  function Area(v: View): Option<seq<u8>>
    requires v.Valid()
  {
    var l := LocateSurplus(v.ip, v.udp);
    if l.None? then None else Some(v.bytes[l.value.OcsAt() + 2..])
  }

  /** A datagram with user data leaves the cache alone, whatever its options say, and
      delivers that data, or no data because of an option it may not ignore. */
  lemma UserDataIsSelfContained(d: seq<u8>, m: CacheState, limits: Limits, now: nat, crc: Crc)
    requires ReadHeaders(d).Ok? && ReadHeaders(d).value.UserData() != []
    ensures var (r, n) := ProcessDatagram(d, m, limits, now, crc);
            && n == m && r.Ok? && r.value.Payload?
            && (r.value.data == ReadHeaders(d).value.UserData()
                || (r.value.data == [] && r.value.options == []
                    && Area(ReadHeaders(d).value).Some? && Withholds(Area(ReadHeaders(d).value).value)))
  {
    hide ReadHeaders, ReadOptions;
    var v := ReadHeaders(d).value;
    var o := ReadOptions(v, crc);
    match o
    case NoOptions(delivery) =>
      NoOptionsKeepsData(v, crc);
    case Read(ocs, po) =>
      ReadComesFromArea(v, crc);
      var area := Area(v).value;
      assert po.fragmentFailed ==> po.frag.Some? by {
        FailureNeedsFrag(Items(area, 0), START, v.UserData(), false, crc(v.UserData()));
      }
      if po.unsafeSeen && po.frag.None? {
        UnsafeHasACause(Items(area, 0), START, v.UserData(), false, crc(v.UserData()));
      }
  }

  /** The data of a sound fragment lies inside the datagram, so slicing it cannot fail. */
  lemma FragmentDataIsInside(v: View, crc: Crc)
    requires v.Valid() && v.UserData() == [] && ReadOptions(v, crc).Read?
    requires var po := ReadOptions(v, crc).parsed; po.frag.Some? && !po.fragmentFailed
    ensures v.UdpAt() + ReadOptions(v, crc).parsed.frag.value.fragStart <= |v.bytes|
  {
    hide ParseOptions, Verdict;
    var l := LocateSurplus(v.ip, v.udp).value;
    FragStartIsInside(v.bytes[l.OcsAt()..][2..], l.OcsAt() + 2 - v.UdpAt(), crc([]));
  }

  lemma NoOptionsKeepsData(v: View, crc: Crc)
    requires v.Valid() && ReadOptions(v, crc).NoOptions?
    ensures ReadOptions(v, crc).delivery.Payload? && ReadOptions(v, crc).delivery.data == v.UserData()
  {
    hide ParseOptions, Verdict, LocateSurplus;
  }

  lemma ReadComesFromArea(v: View, crc: Crc)
    requires v.Valid() && ReadOptions(v, crc).Read? && v.UserData() != []
    ensures Area(v).Some?
    ensures Scan(Items(Area(v).value, 0), START, v.UserData(), false, crc(v.UserData())) == Ok(ReadOptions(v, crc).parsed)
  {
    hide Scan, Items, Verdict;
    var l := LocateSurplus(v.ip, v.udp).value;
    assert v.bytes[l.OcsAt()..][2..] == v.bytes[l.OcsAt() + 2..];
  }

  lemma {:induction false} FailureNeedsFrag(items: seq<Item>, acc: Acc, userData: seq<u8>, inFragment: bool, crc: u32)
    requires Scan(items, acc, userData, inFragment, crc).Ok?
    ensures Scan(items, acc, userData, inFragment, crc).value.fragmentFailed ==>
              Scan(items, acc, userData, inFragment, crc).value.frag.Some?
    decreases items
  {
    hide DecodeFrag, Once;
    if items != [] && ScanStep(acc, items[0], userData, inFragment, crc).Go? {
      FailureNeedsFrag(items[1..], ScanStep(acc, items[0], userData, inFragment, crc).acc, userData, inFragment, crc);
    }
  }
}
