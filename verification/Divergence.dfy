/** What the kernel may hold when the compare-then-apply step stays quiet, for kernels written by anybody. */
module Divergence {
  import opened Texts
  import opened Collecting
  import opened Bits
  import opened Addresses
  import opened IpText
  import opened NftKeys
  import opened NftSets
  import opened NftRoundTrip
  import opened NftPorts
  import opened Fingerprints
  import opened Firewall
  import opened Convergence

  // ---- what a set matches and what is read of it -----------------------------

  /** The value lies in a pair that the reader makes nothing of. */
  ghost predicate Skipped(decode: Pair -> Option<string>, es: seq<Element>, len: nat, x: nat) {
    exists p :: p in PairUp(es, len, None) && decode(p) == None && InPair(p, x)
  }

  lemma ReadMembers(decode: Pair -> Option<string>, es: seq<Element>, len: nat, s: string)
    ensures s in SortStrings(Collect(decode, PairUp(es, len, None)))
            <==> exists p :: p in PairUp(es, len, None) && decode(p) == Some(s)
  {
    hide PairUp, Collect, SortStrings;
    var read := Collect(decode, PairUp(es, len, None));
    CollectMembers(decode, PairUp(es, len, None), s);
    assert s in SortStrings(read) <==> s in multiset(SortStrings(read));
    assert s in read <==> s in multiset(read);
  }

  /** A pair read as an address holds that address and no other. */
  lemma IpPairHolds(f: Family, p: Pair, a: Addr)
    requires a.fam == f && IpOfPair(f, p).Some?
    ensures InPair(p, a.val) <==> IpOfPair(f, p) == Some(Text(a))
  {
    hide Text, AddrBytes, Pow2;
    var start := BytesToAddr(p.start, f).value;
    if Text(start) == Text(a) { TextInjective(start, a); }
  }

  /** Any address set matches the addresses that are read of it and those in pairs the reader skips. */
  lemma AddrSetDenotes(f: Family, es: seq<Element>, a: Addr)
    requires a.fam == f
    ensures Matches(es, KeyLength(f), a.val)
            <==> Text(a) in IpsRead(f, es) || Skipped(IpDecoder(f), es, KeyLength(f), a.val)
  {
    hide PairUp, Collect, SortStrings, IpOfPair, InPair, Text;
    ReadMembers(IpDecoder(f), es, KeyLength(f), Text(a));
    forall p | p in PairUp(es, KeyLength(f), None) && IpDecoder(f)(p).Some?
      ensures InPair(p, a.val) <==> IpDecoder(f)(p) == Some(Text(a))
    {
      IpPairHolds(f, p, a);
    }
  }

  /** The pair is no block: nothing is read of it, or a length that does not fit its start. */
  predicate NoBlock(f: Family, p: Pair) {
    match CidrOfPair(f, p)
    case Some(c) => ParsePrefix(c).None? || Masked(ParsePrefix(c).value) != ParsePrefix(c).value
    case None => true
  }

  ghost predicate InNoBlock(f: Family, es: seq<Element>, x: nat) {
    exists p :: p in PairUp(es, KeyLength(f), None) && NoBlock(f, p) && InPair(p, x)
  }

  lemma NothingInNoBlock(f: Family, x: nat)
    ensures !InNoBlock(f, [], x)
  {
  }

  /** What is read of a pair as a CIDR: a prefix from its start, as large as the pair. */
  lemma CidrPairParts(f: Family, p: Pair) returns (q: Prefix)
    requires CidrOfPair(f, p).Some?
    ensures CidrOfPair(f, p) == Some(PrefixText(q)) && q.addr.fam == f && q.bits >= 1
    ensures Number(p.start) == q.addr.val && Number(p.end) == q.addr.val + BlockSize(q)
  {
    hide Text, Decimal, PrefixFromInterval, Pow2;
    var start, end := BytesToAddr(p.start, f).value, BytesToAddr(p.end, f).value;
    LengthInRange(start.val, end.val, Width(f));
    var bits := PrefixFromInterval(start.val, end.val, Width(f)).value;
    PrefixFromIntervalExact(start.val, end.val, Width(f), bits);
    q := RawPrefix.Prefix(start, bits);
  }

  lemma LengthInRange(start: nat, end: nat, totalBits: nat)
    requires PrefixFromInterval(start, end, totalBits).Some?
    ensures start < end && PrefixFromInterval(start, end, totalBits).value <= totalBits
  {
    BitLenPositive(end - start);
  }

  /** A pair that is a block is read as the canonical text of its addresses. */
  lemma CidrPairHolds(f: Family, p: Pair, a: Addr)
    requires a.fam == f && !NoBlock(f, p)
    ensures IsCidrText(f, CidrOfPair(f, p).value)
    ensures InPair(p, a.val) <==> CidrNames(CidrOfPair(f, p).value, a)
  {
    hide CidrOfPair, PrefixText, Masked, Covers, BlockSize, Number;
    var q := CidrPairParts(f, p);
    PrefixRoundTrip(q);
    CoversInterval(q, a);
  }

  /** Any CIDR set matches the addresses of the canonical texts read of it and those in pairs that are no
      block. */
  lemma CidrSetDenotes(f: Family, es: seq<Element>, a: Addr)
    requires a.fam == f
    ensures Matches(es, KeyLength(f), a.val)
            <==> (exists c :: c in CidrsRead(f, es) && IsCidrText(f, c) && CidrNames(c, a)) || InNoBlock(f, es, a.val)
  {
    hide PairUp, Collect, SortStrings, CidrOfPair, InPair, Masked, CidrNames, ParsePrefix, IsCidrText;
    if p :| p in PairUp(es, KeyLength(f), None) && InPair(p, a.val) && !NoBlock(f, p) {
      CidrPairHolds(f, p, a);
      ReadMembers(CidrDecoder(f), es, KeyLength(f), CidrOfPair(f, p).value);
    }
    if c :| c in CidrsRead(f, es) && IsCidrText(f, c) && CidrNames(c, a) {
      ReadMembers(CidrDecoder(f), es, KeyLength(f), c);
      var p :| p in PairUp(es, KeyLength(f), None) && CidrDecoder(f)(p) == Some(c);
      CidrTextIsBlock(f, c);
      CidrPairHolds(f, p, a);
    }
  }

  lemma CidrTextIsBlock(f: Family, c: string)
    requires IsCidrText(f, c)
    ensures ParsePrefix(c).Some? && Masked(ParsePrefix(c).value) == ParsePrefix(c).value
  {
    var p: Prefix :| p.addr.fam == f && p.bits >= 1 && Masked(p) == p && PrefixText(p) == c;
    PrefixRoundTrip(p);
  }

  /** A range that starts at port zero, which the decoder reads and no port string names. */
  ghost predicate FromZero(es: seq<Element>, x: nat) {
    exists p :: p in PairUp(es, 2, None) && Number(p.start) == 0 && InPair(p, x)
  }

  lemma PortPairHolds(p: Pair, x: nat)
    requires |p.start| == 2 && |p.end| == 2 && x <= 65535
    ensures Number(p.start) > 0 ==>
              (InPair(p, x) <==> PortDecoder(p).Some? && PortNames(PortDecoder(p).value, x))
    ensures Number(p.start) == 0 && PortDecoder(p).Some? ==> !PortNames(PortDecoder(p).value, x)
  {
    hide PortText, PortsNamed, PortNames;
    BytesToPortNumber(p.start);
    BytesToPortNumber(p.end);
    var lo, end := Number(p.start), Number(p.end);
    if PortDecoder(p).Some? {
      PortNamesRead(PortDecoder(p).value, x);
      var hi := if end == 0 then 65535 else end - 1;
      if lo > 0 { PortTextParses(Ports(lo, hi)); } else { ZeroIsNoPort(hi); }
    }
  }

  lemma ZeroIsNoPort(hi: nat)
    ensures PortsNamed(PortText(Ports(0, hi))) == None
  {
    var s := PortText(Ports(0, hi));
    DecimalRoundTrip(hi);
    ZeroText();
    assert s[0] == '0' && IsDigit(s[|s| - 1]);
    TrimOfTight(IsBlank, s);
    if hi != 0 {
      FirstDashAt("0", Decimal(hi));
      assert s == "0" + ['-'] + Decimal(hi) && s[..1] == "0";
    }
  }

  lemma ZeroText()
    ensures Decimal(0) == "0" && PortValue("0") == None
    ensures FirstDash("0") == None
  {
    assert "0"[1..] == "";
    assert "0"[..0] == "";
  }

  /** Any port set matches the ports that are named by what is read of it and those in ranges from zero. */
  lemma PortSetDenotes(es: seq<Element>, x: nat)
    requires x <= 65535
    ensures Matches(es, 2, x) <==> (exists s :: s in PortsRead(es) && PortNames(s, x)) || FromZero(es, x)
  {
    hide PairUp, Collect, SortStrings, InPair, PortNames, PortDecoder, Number;
    if p :| p in PairUp(es, 2, None) && InPair(p, x) && Number(p.start) > 0 {
      PortPairHolds(p, x);
      ReadMembers(PortDecoder, es, 2, PortDecoder(p).value);
    }
    if s :| s in PortsRead(es) && PortNames(s, x) {
      ReadMembers(PortDecoder, es, 2, s);
      var p :| p in PairUp(es, 2, None) && PortDecoder(p) == Some(s);
      PortPairHolds(p, x);
    }
  }

  // ---- a quiet step over any kernel ------------------------------------------

  function Elements(t: SetState): seq<Element> { if t.Holding? then t.elements else [] }

  lemma AbsentMatchesNothing(len: nat, x: nat)
    ensures !Matches([], len, x)
  {
  }

  /** One address set that was read as the desired list: it is empty when the lookup missed, and otherwise
      the set matches what is desired and what the reader skips. */
  lemma ReadAddrSetDenotes(f: Family, t: SetState, fault: ReadFault, desired: seq<string>, a: Addr)
    requires a.fam == f && AddrSetRead(f, t, fault) == Some(desired)
    ensures fault.LookupMisses? ==> desired == []
    ensures !fault.LookupMisses? ==>
              (Matches(Elements(t), KeyLength(f), a.val)
               <==> Text(a) in desired || Skipped(IpDecoder(f), Elements(t), KeyLength(f), a.val))
  {
    hide IpsRead, Skipped, Text;
    AbsentMatchesNothing(KeyLength(f), a.val);
    AddrSetDenotes(f, Elements(t), a);
  }

  lemma ReadCidrSetDenotes(f: Family, t: SetState, fault: ReadFault, desired: seq<string>, a: Addr)
    requires a.fam == f && CidrSetRead(f, t, fault) == Some(desired) && CanonicalCidrs(f, desired)
    ensures fault.LookupMisses? ==> desired == []
    ensures !fault.LookupMisses? ==>
              (Matches(Elements(t), KeyLength(f), a.val)
               <==> (exists c :: c in desired && CidrNames(c, a)) || InNoBlock(f, Elements(t), a.val))
  {
    hide CidrsRead, InNoBlock, CidrNames, IsCidrText;
    AbsentMatchesNothing(KeyLength(f), a.val);
    CidrSetDenotes(f, Elements(t), a);
    NothingInNoBlock(f, a.val);
  }

  lemma ReadPortSetDenotes(t: SetState, fault: ReadFault, desired: seq<string>, x: nat)
    requires x <= 65535 && PortSetRead(t, fault) == Some(desired)
    ensures fault.LookupMisses? ==> desired == []
    ensures !fault.LookupMisses? ==>
              (Matches(Elements(t), 2, x) <==> (exists s :: s in desired && PortNames(s, x)) || FromZero(Elements(t), x))
  {
    hide PortsRead, PortNames;
    AbsentMatchesNothing(2, x);
    PortSetDenotes(Elements(t), x);
  }

  function PeerTable(t: PeerTables, f: Family): SetState { if f.V4? then t.peersV4 else t.peersV6 }

  function TrustedTable(t: PeerTables, f: Family): SetState { if f.V4? then t.trustedV4 else t.trustedV6 }

  function PeerList(s: PeerSets, f: Family): seq<string> { if f.V4? then s.peersV4 else s.peersV6 }

  function TrustedList(s: PeerSets, f: Family): seq<string> { if f.V4? then s.trustedV4 else s.trustedV6 }

  function PeerRead(x: PeerFaults, f: Family): ReadFault { if f.V4? then x.peersV4 else x.peersV6 }

  function TrustedRead(x: PeerFaults, f: Family): ReadFault { if f.V4? then x.trustedV4 else x.trustedV6 }

  /** What the peer sets match while the step stays quiet, for every kernel and every fault of reading: a
      set whose lookup missed has nothing desired and may match anything it holds; any other one matches
      what is desired, and exactly the addresses in skipped pairs besides. */
  lemma QuietPeersDenote(t: PeerTables, s: PeerSets, x: PeerFaults, fault: ApplyFault, a: Addr)
    requires CanonicalPeers(s) && PeersIfChanged(t, s, x, fault) == (t, false, true)
    ensures var held := Elements(PeerTable(t, a.fam));
      if PeerRead(x, a.fam).LookupMisses? then PeerList(s, a.fam) == []
      else Matches(held, KeyLength(a.fam), a.val)
           <==> Text(a) in PeerList(s, a.fam) || Skipped(IpDecoder(a.fam), held, KeyLength(a.fam), a.val)
  {
    hide AddrSetRead, CidrSetRead, Skipped, PeersIfChanged, CanonicalPeers, PeerMembers;
    CanonicalMembers(s);
    QuietExactlyWhenReadAsDesired(t, s, x, fault);
    ReadAddrSetDenotes(a.fam, PeerTable(t, a.fam), PeerRead(x, a.fam), PeerList(s, a.fam), a);
  }

  /** The same for the trusted sets, where the reader is blind to pairs that are no block. */
  lemma QuietTrustedDenote(t: PeerTables, s: PeerSets, x: PeerFaults, fault: ApplyFault, a: Addr)
    requires CanonicalPeers(s) && PeersIfChanged(t, s, x, fault) == (t, false, true)
    ensures var held := Elements(TrustedTable(t, a.fam));
      if TrustedRead(x, a.fam).LookupMisses? then TrustedList(s, a.fam) == []
      else Matches(held, KeyLength(a.fam), a.val)
           <==> (exists c :: c in TrustedList(s, a.fam) && CidrNames(c, a)) || InNoBlock(a.fam, held, a.val)
  {
    hide AddrSetRead, CidrSetRead, CidrNames, InNoBlock, PeersIfChanged, CanonicalIps, CanonicalCidrs, PeerMembers;
    CanonicalMembers(s);
    QuietExactlyWhenReadAsDesired(t, s, x, fault);
    ReadCidrSetDenotes(a.fam, TrustedTable(t, a.fam), TrustedRead(x, a.fam), TrustedList(s, a.fam), a);
  }

  /** The same for the port sets, where the blind spot is a range from port zero. */
  lemma QuietPortsDenote(t: TablePair, s: PortSets, x: PortFaults, fault: ApplyFault, port: nat)
    requires port <= 65535 && Members(s.tcp) && Members(s.udp) && PortsIfChanged(t, s, x, fault) == (t, false, true)
    ensures if x.tcp.LookupMisses? then s.tcp == []
            else Matches(Elements(t.first), 2, port)
                 <==> (exists m :: m in s.tcp && PortNames(m, port)) || FromZero(Elements(t.first), port)
    ensures if x.udp.LookupMisses? then s.udp == []
            else Matches(Elements(t.second), 2, port)
                 <==> (exists m :: m in s.udp && PortNames(m, port)) || FromZero(Elements(t.second), port)
  {
    hide PortSetRead, PortNames, FromZero, PortsIfChanged, Matches, Members;
    PortsQuietExactlyWhenReadAsDesired(t, s, x, fault);
    ReadPortSetDenotes(t.first, x.tcp, s.tcp, port);
    ReadPortSetDenotes(t.second, x.udp, s.udp, port);
  }

  // ---- a missed lookup -------------------------------------------------------

  function SeenAs(t: SetState, fault: ReadFault): SetState { if fault.LookupMisses? then Absent else t }

  function Found(fault: ReadFault): ReadFault { if fault.LookupMisses? then ReadOk else fault }

  /** The tables with every set absent whose lookup misses. */
  function AsSeen(t: PeerTables, x: PeerFaults): PeerTables {
    PeerTables(SeenAs(t.peersV4, x.peersV4), SeenAs(t.peersV6, x.peersV6), SeenAs(t.trustedV4, x.trustedV4),
               SeenAs(t.trustedV6, x.trustedV6))
  }

  function AllFound(x: PeerFaults): PeerFaults {
    PeerFaults(x.openFails, Found(x.peersV4), Found(x.peersV6), Found(x.trustedV4), Found(x.trustedV6))
  }

  /** A lookup that fails forces no write, whatever the set holds: the step is quiet if and only if it would
      be with every such set absent. */
  lemma MissedLookupIsQuiet(t: PeerTables, s: PeerSets, x: PeerFaults, fault: ApplyFault)
    requires CanonicalPeers(s)
    ensures PeersIfChanged(t, s, x, fault) == (t, false, true) <==> PeersObserved(AsSeen(t, x), AllFound(x)) == Some(s)
  {
    hide CidrsRead, IpsRead, PeersIfChanged, CanonicalPeers, PeerMembers;
    CanonicalMembers(s);
    QuietExactlyWhenReadAsDesired(t, s, x, fault);
  }

  /** For instance over any elements at all, with nothing desired. */
  lemma MissedLookupUnseen(es: seq<Element>, fault: ApplyFault)
    ensures var t := PeerTables(Holding(es), Absent, Absent, Absent);
      PeersIfChanged(t, PeerSets([], [], [], []), NO_PEER_FAULTS.(peersV4 := LookupMisses), fault) == (t, false, true)
  {
    hide PeersIfChanged;
    var s := PeerSets([], [], [], []);
    MissedLookupIsQuiet(PeerTables(Holding(es), Absent, Absent, Absent), s, NO_PEER_FAULTS.(peersV4 := LookupMisses), fault);
  }
}
