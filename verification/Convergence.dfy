/** What the compare-then-apply step guarantees about the kernel. */
module Convergence {
  import opened Texts
  import opened Collecting
  import opened Bits
  import opened Addresses
  import opened IpText
  import opened NftKeys
  import opened NftSets
  import opened NftRoundTrip
  import opened NftPorts
  import opened Fingerprints
  import opened Firewall

  /** Desired peer sets as a reconcile pass computes them: sorted canonical texts. */
  ghost predicate CanonicalPeers(s: PeerSets) {
    CanonicalIps(V4, s.peersV4) && CanonicalIps(V6, s.peersV6) &&
    CanonicalCidrs(V4, s.trustedV4) && CanonicalCidrs(V6, s.trustedV6)
  }

  /** No desired member ends at the top of its address space. */
  ghost predicate PeersBelowTop(s: PeerSets) {
    (forall m :: m in s.peersV4 ==> IpBelowTop(m)) && (forall m :: m in s.peersV6 ==> IpBelowTop(m)) &&
    (forall m :: m in s.trustedV4 ==> CidrBelowTop(m)) && (forall m :: m in s.trustedV6 ==> CidrBelowTop(m))
  }

  // ---- members never hold a separator ----------------------------------------

  lemma SortedMembers(ss: seq<string>)
    requires Members(ss)
    ensures Members(SortStrings(ss))
  {
    forall i | 0 <= i < |SortStrings(ss)| ensures Member(SortStrings(ss)[i]) {
      assert SortStrings(ss)[i] in multiset(ss);
    }
  }

  lemma CollectedMembers<A(!new)>(g: A -> Option<string>, xs: seq<A>)
    requires forall x :: x in xs && g(x).Some? ==> Member(g(x).value)
    ensures Members(Collect(g, xs))
  {
    forall i | 0 <= i < |Collect(g, xs)| ensures Member(Collect(g, xs)[i]) {
      CollectMembers(g, xs, Collect(g, xs)[i]);
    }
  }

  lemma IpsReadMembers(f: Family, es: seq<Element>)
    ensures Members(IpsRead(f, es))
  {
    var ps := PairUp(es, KeyLength(f), None);
    forall p | p in ps && IpDecoder(f)(p).Some? ensures Member(IpDecoder(f)(p).value) {
      TextRoundTrip(BytesToAddr(p.start, f).value);
    }
    CollectedMembers(IpDecoder(f), ps);
    SortedMembers(Collect(IpDecoder(f), ps));
  }

  lemma CidrsReadMembers(f: Family, es: seq<Element>)
    ensures Members(CidrsRead(f, es))
  {
    hide PrefixFromInterval, Text, BytesToAddr;
    var ps := PairUp(es, KeyLength(f), None);
    forall p | p in ps && CidrDecoder(f)(p).Some? ensures Member(CidrDecoder(f)(p).value) {
      CidrOfPairMember(f, p);
    }
    CollectedMembers(CidrDecoder(f), ps);
    SortedMembers(Collect(CidrDecoder(f), ps));
  }

  lemma CidrOfPairMember(f: Family, p: Pair)
    requires CidrOfPair(f, p).Some?
    ensures Member(CidrOfPair(f, p).value)
  {
    hide Text;
    var a, e := BytesToAddr(p.start, f).value, BytesToAddr(p.end, f).value;
    var bits := PrefixFromInterval(a.val, e.val, Width(f)).value;
    TextRoundTrip(a);
    DecimalRoundTrip(bits);
    DigitsFree(Decimal(bits), ',');
    DigitsFree(Decimal(bits), '|');
  }

  lemma PortsReadMembers(es: seq<Element>)
    ensures Members(PortsRead(es))
  {
    var ps := PairUp(es, 2, None);
    forall p | p in ps && PortDecoder(p).Some? ensures Member(PortDecoder(p).value) {
      PortOfPairMember(p);
    }
    CollectedMembers(PortDecoder, ps);
    SortedMembers(Collect(PortDecoder, ps));
  }

  lemma PortOfPairMember(p: Pair)
    requires PortDecoder(p).Some?
    ensures Member(PortDecoder(p).value)
  {
    hide Decimal;
    var lo, end := BytesToPort(p.start).value, BytesToPort(p.end).value;
    var hi: nat := if end == 0 then 65535 else end - 1;
    DecimalRoundTrip(lo);
    DecimalRoundTrip(hi);
    DigitsFree(Decimal(lo), ',');
    DigitsFree(Decimal(lo), '|');
    DigitsFree(Decimal(hi), ',');
    DigitsFree(Decimal(hi), '|');
  }

  lemma IpTextsAreMembers(f: Family, ips: seq<string>)
    requires CanonicalIps(f, ips)
    ensures Members(ips)
  {
    forall i | 0 <= i < |ips| ensures Member(ips[i]) {
      assert IsIpText(f, ips[i]);
      var a: Addr :| a.fam == f && !a.Is4In6() && Text(a) == ips[i];
      TextRoundTrip(a);
    }
  }

  lemma CidrTextsAreMembers(f: Family, cs: seq<string>)
    requires CanonicalCidrs(f, cs)
    ensures Members(cs)
  {
    forall i | 0 <= i < |cs| ensures Member(cs[i]) {
      assert IsCidrText(f, cs[i]);
      var p: Prefix :| p.addr.fam == f && p.bits >= 1 && Masked(p) == p && PrefixText(p) == cs[i];
      PrefixRoundTrip(p);
    }
  }

  lemma CanonicalMembers(s: PeerSets)
    requires CanonicalPeers(s)
    ensures PeerMembers(s)
  {
    hide Members, CanonicalIps, CanonicalCidrs;
    IpTextsAreMembers(V4, s.peersV4);
    IpTextsAreMembers(V6, s.peersV6);
    CidrTextsAreMembers(V4, s.trustedV4);
    CidrTextsAreMembers(V6, s.trustedV6);
  }

  lemma ObservedMembers(t: PeerTables, x: PeerFaults)
    requires PeersObserved(t, x).Some?
    ensures PeerMembers(PeersObserved(t, x).value)
  {
    hide Members, AddrSetRead, CidrSetRead;
    AddrSetReadMembers(V4, t.peersV4, x.peersV4);
    AddrSetReadMembers(V6, t.peersV6, x.peersV6);
    CidrSetReadMembers(V4, t.trustedV4, x.trustedV4);
    CidrSetReadMembers(V6, t.trustedV6, x.trustedV6);
  }

  lemma AddrSetReadMembers(f: Family, t: SetState, fault: ReadFault)
    ensures AddrSetRead(f, t, fault).Some? ==> Members(AddrSetRead(f, t, fault).value)
  {
    hide IpsRead;
    if t.Holding? { IpsReadMembers(f, t.elements); }
  }

  lemma CidrSetReadMembers(f: Family, t: SetState, fault: ReadFault)
    ensures CidrSetRead(f, t, fault).Some? ==> Members(CidrSetRead(f, t, fault).value)
  {
    hide CidrsRead;
    if t.Holding? { CidrsReadMembers(f, t.elements); }
  }

  // ---- the step --------------------------------------------------------------

  /** The step leaves the kernel alone exactly when every set was read and reads as desired. */
  lemma QuietExactlyWhenReadAsDesired(t: PeerTables, s: PeerSets, x: PeerFaults, fault: ApplyFault)
    requires PeerMembers(s)
    ensures PeersIfChanged(t, s, x, fault) == (t, false, true) <==> PeersObserved(t, x) == Some(s)
    ensures PeersIfChanged(t, s, x, fault).2 && !PeersIfChanged(t, s, x, fault).1 <==> PeersObserved(t, x) == Some(s)
  {
    hide PeersObserved, PeerFingerprint, PeersAfterApply;
    var observed := PeersObserved(t, x);
    if observed.Some? && PeerFingerprint(observed.value) == PeerFingerprint(s) {
      ObservedMembers(t, x);
      PeerFingerprintFaithful(observed.value, s);
    }
  }

  /** No set with something desired lost its members in the write. */
  predicate NothingLost(s: PeerSets, fault: ApplyFault) {
    fault.AddsLost? ==>
      (fault.first ==> s.peersV4 == []) && (fault.second ==> s.peersV6 == []) &&
      (fault.third ==> s.trustedV4 == []) && (fault.fourth ==> s.trustedV6 == [])
  }

  lemma NothingReadsEmpty(f: Family)
    ensures IpsRead(f, []) == [] && CidrsRead(f, []) == [] && PortsRead([]) == []
  {
  }

  /** What was written reads back as desired exactly when no member ends at the top and none was lost. */
  lemma WrittenReadsBack(s: PeerSets, fault: ApplyFault)
    requires CanonicalPeers(s)
    ensures PeersObserved(PeersWritten(s, fault), NO_PEER_FAULTS) == Some(s) <==> PeersBelowTop(s) && NothingLost(s, fault)
  {
    hide IpsRead, CidrsRead, IpIntervals, CidrIntervals, Flatten, CanonicalIps, CanonicalCidrs;
    NothingReadsEmpty(V4);
    NothingReadsEmpty(V6);
    IpCodecIdentity(V4, s.peersV4);
    IpCodecIdentity(V6, s.peersV6);
    CidrCodecIdentity(V4, s.trustedV4);
    CidrCodecIdentity(V6, s.trustedV6);
  }

  lemma NothingLostInPlainWrite(s: PeerSets, fault: ApplyFault)
    ensures !fault.AddsLost? ==> PeersWritten(s, fault) == EncodedPeers(s)
  {
    hide EncodedPeers;
  }

  /** Convergence. From any kernel contents a step that writes leaves exactly the encoding of the desired
      sets, lost members aside, and on that kernel the next step writes nothing exactly when no member ends
      at the top and none was lost. */
  lemma ApplyThenQuiet(t: PeerTables, s: PeerSets, x: PeerFaults, fault: ApplyFault, later: ApplyFault)
    requires CanonicalPeers(s)
    requires PeersIfChanged(t, s, x, fault).1
    ensures PeersIfChanged(t, s, x, fault).0 == PeersWritten(s, fault)
    ensures !fault.AddsLost? ==> PeersWritten(s, fault) == EncodedPeers(s)
    ensures PeersIfChanged(PeersWritten(s, fault), s, NO_PEER_FAULTS, later) == (PeersWritten(s, fault), false, true)
            <==> PeersBelowTop(s) && NothingLost(s, fault)
  {
    hide Flatten, IpIntervals, CidrIntervals, PeersObserved, EncodedPeers, PeersWritten;
    hide PeerFingerprint, CanonicalPeers, PeersBelowTop, NothingLost, PeerMembers;
    NothingLostInPlainWrite(s, fault);
    CanonicalMembers(s);
    WrittenReadsBack(s, fault);
    QuietExactlyWhenReadAsDesired(PeersWritten(s, fault), s, NO_PEER_FAULTS, later);
  }

  lemma WrittenHolds(s: PeerSets, fault: ApplyFault)
    ensures PeersHold(PeersWritten(s, fault), s, fault)
  {
    hide HoldsIps, HoldsCidrs, Flatten, IpIntervals, CidrIntervals;
    IpsHeld(V4, s.peersV4);
    IpsHeld(V6, s.peersV6);
    CidrsHeld(V4, s.trustedV4);
    CidrsHeld(V6, s.trustedV6);
  }

  /** The step from any kernel: when every set was read and reads as desired it does nothing; otherwise it
      writes, which succeeds when no call fails, or only creating a set would have and none is missing, and
      then every set matches exactly what is desired of it. */
  lemma StepExactly(t: PeerTables, s: PeerSets, x: PeerFaults, fault: ApplyFault)
    requires PeerMembers(s)
    ensures var (left, changed, ok) := PeersIfChanged(t, s, x, fault);
      && (PeersObserved(t, x) == Some(s) ==> left == t && !changed && ok)
      && (PeersObserved(t, x) != Some(s) ==>
            (changed <==> ok) &&
            (ok <==> fault.NoFault? || fault.AddsLost? ||
                     ((fault.CreateFails? || fault.CreateCommitFails?) && t.peersV4.Holding? && t.peersV6.Holding? &&
                      t.trustedV4.Holding? && t.trustedV6.Holding?)) &&
            (ok ==> PeersHold(left, s, fault)))
  {
    hide PeersObserved, PeerFingerprint, PeersHold, PeersWritten, PeerMembers;
    QuietExactlyWhenReadAsDesired(t, s, x, fault);
    WrittenHolds(s, fault);
  }

  /** Over a kernel the encoder wrote for some canonical sets clear of the top, a "not changed" answer
      means the kernel holds exactly the desired sets. */
  lemma QuietMeansEqual(written: PeerSets, s: PeerSets, fault: ApplyFault)
    requires CanonicalPeers(written) && PeersBelowTop(written) && PeerMembers(s)
    ensures PeersIfChanged(EncodedPeers(written), s, NO_PEER_FAULTS, fault) == (EncodedPeers(written), false, true)
            <==> written == s
  {
    WrittenReadsBack(written, NoFault);
    QuietExactlyWhenReadAsDesired(EncodedPeers(written), s, NO_PEER_FAULTS, fault);
  }

  /** After a write, an address matches a peer or trusted set exactly when a desired member names it. */
  lemma WrittenPeersDenote(s: PeerSets, a: Addr)
    ensures var t := EncodedPeers(s);
      && (a.fam == V4 ==> (Matches(t.peersV4.elements, 4, a.val) <==> exists m :: m in s.peersV4 && IpNames(m, a)))
      && (a.fam == V6 ==> (Matches(t.peersV6.elements, 16, a.val) <==> exists m :: m in s.peersV6 && IpNames(m, a)))
      && (a.fam == V4 ==> (Matches(t.trustedV4.elements, 4, a.val) <==> exists m :: m in s.trustedV4 && CidrNames(m, a)))
      && (a.fam == V6 ==> (Matches(t.trustedV6.elements, 16, a.val) <==> exists m :: m in s.trustedV6 && CidrNames(m, a)))
  {
    hide Matches, Flatten, IpIntervals, CidrIntervals, IpNames, CidrNames;
    if a.fam == V4 {
      IpsDenote(V4, s.peersV4, a);
      CidrsDenote(V4, s.trustedV4, a);
    } else {
      IpsDenote(V6, s.peersV6, a);
      CidrsDenote(V6, s.trustedV6, a);
    }
  }

  /** The interval [0, 2) in an IPv4 set, which is no single address. */
  function ForeignRange(): (iv: Interval)
    ensures |iv.start| == 4 == |iv.end| && Number(iv.start) == 0 && Number(iv.end) == 2
  {
    Pow2Values();
    NumberOfBytes(0, 4);
    NumberOfBytes(2, 4);
    Interval(Bytes(0, 4), Bytes(2, 4), 0)
  }

  lemma ForeignRangeSkipped()
    ensures IpsRead(V4, Flatten([ForeignRange()])) == []
    ensures Matches(Flatten([ForeignRange()]), 4, 0)
  {
    hide ForeignRange, Text;
    var ivs := [ForeignRange()];
    PairUpFlatten(ivs, 4);
    MatchesFlatten(ivs, 4, 0);
    assert ivs[0] in ivs && InInterval(ivs[0], 0);
    var p := AsPair(ForeignRange());
    assert Pairs(ivs) == [p];
    assert IpDecoder(V4)(p) == None;
    assert [p][1..] == [];
  }

  /** Divergence the comparison cannot see: a foreign range [0, 2) in the IPv4 peer set is skipped by the
      reader, so with nothing desired the step stays quiet although the set matches address 0. */
  lemma ForeignRangeUnseen(fault: ApplyFault)
    ensures var t := PeerTables(Holding(Flatten([ForeignRange()])), Absent, Absent, Absent);
      && PeersIfChanged(t, PeerSets([], [], [], []), NO_PEER_FAULTS, fault) == (t, false, true)
      && Matches(t.peersV4.elements, 4, 0)
  {
    ForeignRangeSkipped();
    hide ForeignRange, Matches, IpsRead, Flatten;
  }

  // ---- tenant ports ----------------------------------------------------------

  lemma PortsObservedMembers(t: TablePair, x: PortFaults)
    requires PortsObserved(t, x).Some?
    ensures Members(PortsObserved(t, x).value.tcp) && Members(PortsObserved(t, x).value.udp)
  {
    hide PortSetRead, Members;
    PortSetReadMembers(t.first, x.tcp);
    PortSetReadMembers(t.second, x.udp);
  }

  lemma PortSetReadMembers(t: SetState, fault: ReadFault)
    ensures PortSetRead(t, fault).Some? ==> Members(PortSetRead(t, fault).value)
  {
    hide PortsRead;
    if t.Holding? { PortsReadMembers(t.elements); }
  }

  lemma PortsQuietExactlyWhenReadAsDesired(t: TablePair, s: PortSets, x: PortFaults, fault: ApplyFault)
    requires Members(s.tcp) && Members(s.udp)
    ensures PortsIfChanged(t, s, x, fault) == (t, false, true) <==> PortsObserved(t, x) == Some(s)
  {
    hide PortsObserved, PortsFingerprint, PairAfterApply;
    var observed := PortsObserved(t, x);
    if observed.Some? && PortsFingerprint(observed.value) == PortsFingerprint(s) {
      PortsObservedMembers(t, x);
      PortsFingerprintFaithful(observed.value, s);
    }
  }

  predicate NoPortsLost(s: PortSets, fault: ApplyFault) {
    fault.AddsLost? ==> (fault.first ==> s.tcp == []) && (fault.second ==> s.udp == [])
  }

  /** Convergence of the port sets: from any kernel, after a writing step the next one is quiet exactly
      when every desired string is the canonical spelling of its ports and none was lost. */
  lemma PortsApplyThenQuiet(t: TablePair, s: PortSets, x: PortFaults, fault: ApplyFault, later: ApplyFault)
    requires Sorted(s.tcp) && Sorted(s.udp) && Members(s.tcp) && Members(s.udp)
    requires PortsIfChanged(t, s, x, fault).1
    ensures PortsIfChanged(t, s, x, fault).0 == PairWritten(EncodedPorts(s), fault)
    ensures var left := PairWritten(EncodedPorts(s), fault);
      PortsIfChanged(left, s, NO_PORT_FAULTS, later) == (left, false, true)
      <==> (forall m :: m in s.tcp + s.udp ==> CanonicalPort(m)) && NoPortsLost(s, fault)
  {
    hide PortsRead, Flatten, PortIntervals, PortsFingerprint, CanonicalPort, Sorted, Members;
    NothingReadsEmpty(V4);
    PortCodecIdentity(s.tcp);
    PortCodecIdentity(s.udp);
    PortsQuietExactlyWhenReadAsDesired(PairWritten(EncodedPorts(s), fault), s, NO_PORT_FAULTS, later);
  }

  lemma WrittenPortsHold(s: PortSets, fault: ApplyFault)
    ensures PortsHold(PairWritten(EncodedPorts(s), fault), s, fault)
  {
    hide HoldsPorts, Flatten, PortIntervals;
    PortsHeld(s.tcp);
    PortsHeld(s.udp);
  }

  /** The same for the port sets. */
  lemma PortsStepExactly(t: TablePair, s: PortSets, x: PortFaults, fault: ApplyFault)
    requires Members(s.tcp) && Members(s.udp)
    ensures var (left, changed, ok) := PortsIfChanged(t, s, x, fault);
      && (PortsObserved(t, x) == Some(s) ==> left == t && !changed && ok)
      && (PortsObserved(t, x) != Some(s) ==>
            (changed <==> ok) &&
            (ok <==> fault.NoFault? || fault.AddsLost? ||
                     ((fault.CreateFails? || fault.CreateCommitFails?) && t.first.Holding? && t.second.Holding?)) &&
            (ok ==> PortsHold(left, s, fault)))
  {
    hide PortsObserved, PortsFingerprint, PortsHold, PairWritten, EncodedPorts, Members;
    PortsQuietExactlyWhenReadAsDesired(t, s, x, fault);
    WrittenPortsHold(s, fault);
  }
}
