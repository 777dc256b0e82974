/** The kernel sets, the writer over them, and the compare-then-apply step. */
module Firewall {
  import opened Texts
  import opened Bits
  import opened Addresses
  import opened NftKeys
  import opened NftSets
  import opened NftRoundTrip
  import opened NftPorts
  import opened Fingerprints
  import opened Blocklists

  // ---- kernel state ----------------------------------------------------------

  /** One named set: not created yet, or holding elements. */
  datatype SetState = Absent | Holding(elements: seq<Element>)

  function Created(t: SetState): SetState { if t.Absent? then Holding([]) else t }

  datatype PeerTables = PeerTables(peersV4: SetState, peersV6: SetState, trustedV4: SetState, trustedV6: SetState) {
    predicate AnyAbsent() { peersV4.Absent? || peersV6.Absent? || trustedV4.Absent? || trustedV6.Absent? }

    function AllCreated(): PeerTables {
      PeerTables(Created(peersV4), Created(peersV6), Created(trustedV4), Created(trustedV6))
    }
  }

  datatype TablePair = TablePair(first: SetState, second: SetState) {
    predicate AnyAbsent() { first.Absent? || second.Absent? }

    function AllCreated(): TablePair { TablePair(Created(first), Created(second)) }
  }

  /** Where a write can go wrong: opening the connection, queueing or committing the creation of missing
      sets, looking the sets up again, queueing the members of some sets, committing the members. Each
      commit is one kernel transaction. An error of queueing members is discarded, so those sets are flushed
      and stay empty in a write that succeeds; a pair of sets has the first two. */
  datatype ApplyFault =
    | NoFault
    | OpenFails
    | CreateFails
    | CreateCommitFails
    | LookupFails
    | AddsLost(first: bool, second: bool, third: bool, fourth: bool)
    | CommitFails

  datatype Stage = Refused | OnlyCreated | Written

  /** How far a write gets; the creation faults only strike when a set is missing. */
  function StageOf(anyAbsent: bool, fault: ApplyFault): Stage {
    match fault
    case OpenFails => Refused
    case CreateFails => if anyAbsent then Refused else Written
    case CreateCommitFails => if anyAbsent then Refused else Written
    case LookupFails => OnlyCreated
    case CommitFails => OnlyCreated
    case AddsLost(_, _, _, _) => Written
    case NoFault => Written
  }

  function Added(lost: bool, t: SetState): SetState { if lost then Holding([]) else t }

  function EncodedPeers(s: PeerSets): PeerTables {
    PeerTables(Holding(Flatten(IpIntervals(V4, s.peersV4))), Holding(Flatten(IpIntervals(V6, s.peersV6))),
               Holding(Flatten(CidrIntervals(V4, s.trustedV4))), Holding(Flatten(CidrIntervals(V6, s.trustedV6))))
  }

  function EncodedPorts(s: PortSets): TablePair {
    TablePair(Holding(Flatten(PortIntervals(s.tcp))), Holding(Flatten(PortIntervals(s.udp))))
  }

  function EncodedBans(bl: Blocklist): TablePair {
    TablePair(Holding(Flatten(BanIntervals(V4, FamilyBans(bl, V4)))), Holding(Flatten(BanIntervals(V6, FamilyBans(bl, V6)))))
  }

  /** The tables that a write which succeeds leaves. */
  function PeersWritten(s: PeerSets, fault: ApplyFault): PeerTables {
    var e := EncodedPeers(s);
    if fault.AddsLost? then
      PeerTables(Added(fault.first, e.peersV4), Added(fault.second, e.peersV6), Added(fault.third, e.trustedV4),
                 Added(fault.fourth, e.trustedV6))
    else e
  }

  function PairWritten(encoded: TablePair, fault: ApplyFault): TablePair {
    if fault.AddsLost? then TablePair(Added(fault.first, encoded.first), Added(fault.second, encoded.second)) else encoded
  }

  function PeersAfterApply(t: PeerTables, s: PeerSets, fault: ApplyFault): PeerTables {
    match StageOf(t.AnyAbsent(), fault)
    case Refused => t
    case OnlyCreated => t.AllCreated()
    case Written => PeersWritten(s, fault)
  }

  function PairAfterApply(t: TablePair, encoded: TablePair, fault: ApplyFault): TablePair {
    match StageOf(t.AnyAbsent(), fault)
    case Refused => t
    case OnlyCreated => t.AllCreated()
    case Written => PairWritten(encoded, fault)
  }

  // ---- what a write leaves, told from what the sets match --------------------

  /** The set matches exactly the addresses of its family that the texts name. */
  ghost predicate HoldsIps(t: SetState, f: Family, ips: seq<string>) {
    t.Holding? &&
    forall a: Addr :: a.fam == f ==> (Matches(t.elements, KeyLength(f), a.val) <==> exists s :: s in ips && IpNames(s, a))
  }

  ghost predicate HoldsCidrs(t: SetState, f: Family, cs: seq<string>) {
    t.Holding? &&
    forall a: Addr :: a.fam == f ==> (Matches(t.elements, KeyLength(f), a.val) <==> exists c :: c in cs && CidrNames(c, a))
  }

  /** The set matches exactly the ports that the strings name. */
  ghost predicate HoldsPorts(t: SetState, ps: seq<string>) {
    t.Holding? && forall x: nat :: x <= 65535 ==> (Matches(t.elements, 2, x) <==> exists s :: s in ps && PortNames(s, x))
  }

  /** The set matches exactly the addresses of its family that a prefix with time left covers, the last
      address under the whole space aside. */
  ghost predicate HoldsBans(t: SetState, f: Family, ps: seq<Prefix>, ttls: seq<int>) {
    t.Holding? &&
    forall a: Addr :: a.fam == f ==>
      (Matches(t.elements, KeyLength(f), a.val) <==>
       exists i :: 0 <= i < |ps| && i < |ttls| && ttls[i] > 0 && ps[i].addr.fam == f && Covers(ps[i], a) &&
                   !(ps[i].bits == 0 && a.val + 1 == Pow2(Width(f))))
  }

  /** Every set matches exactly what is desired of it, except that a set whose members were lost is empty. */
  ghost predicate PeersHold(t: PeerTables, s: PeerSets, fault: ApplyFault) {
    && (if fault.AddsLost? && fault.first then t.peersV4 == Holding([]) else HoldsIps(t.peersV4, V4, s.peersV4))
    && (if fault.AddsLost? && fault.second then t.peersV6 == Holding([]) else HoldsIps(t.peersV6, V6, s.peersV6))
    && (if fault.AddsLost? && fault.third then t.trustedV4 == Holding([]) else HoldsCidrs(t.trustedV4, V4, s.trustedV4))
    && (if fault.AddsLost? && fault.fourth then t.trustedV6 == Holding([]) else HoldsCidrs(t.trustedV6, V6, s.trustedV6))
  }

  ghost predicate PortsHold(t: TablePair, s: PortSets, fault: ApplyFault) {
    && (if fault.AddsLost? && fault.first then t.first == Holding([]) else HoldsPorts(t.first, s.tcp))
    && (if fault.AddsLost? && fault.second then t.second == Holding([]) else HoldsPorts(t.second, s.udp))
  }

  ghost predicate BansHold(t: TablePair, bl: Blocklist, fault: ApplyFault) {
    && (if fault.AddsLost? && fault.first then t.first == Holding([]) else HoldsBans(t.first, V4, bl.v4, bl.ttl4))
    && (if fault.AddsLost? && fault.second then t.second == Holding([]) else HoldsBans(t.second, V6, bl.v6, bl.ttl6))
  }

  /** As it was, or created empty where it was missing. */
  predicate KeptOrCreated(before: SetState, after: SetState) {
    after == if before.Absent? then Holding([]) else before
  }

  /** As it was, or at most created empty. */
  predicate AtMostCreated(before: SetState, after: SetState) { after == before || KeptOrCreated(before, after) }

  lemma IpsHeld(f: Family, ips: seq<string>)
    ensures HoldsIps(Holding(Flatten(IpIntervals(f, ips))), f, ips)
  {
    hide Matches, Flatten, IpIntervals, IpNames;
    forall a: Addr | a.fam == f
      ensures Matches(Flatten(IpIntervals(f, ips)), KeyLength(f), a.val) <==> exists s :: s in ips && IpNames(s, a)
    {
      IpsDenote(f, ips, a);
    }
  }

  lemma CidrsHeld(f: Family, cs: seq<string>)
    ensures HoldsCidrs(Holding(Flatten(CidrIntervals(f, cs))), f, cs)
  {
    hide Matches, Flatten, CidrIntervals, CidrNames;
    forall a: Addr | a.fam == f
      ensures Matches(Flatten(CidrIntervals(f, cs)), KeyLength(f), a.val) <==> exists c :: c in cs && CidrNames(c, a)
    {
      CidrsDenote(f, cs, a);
    }
  }

  lemma PortsHeld(ps: seq<string>)
    ensures HoldsPorts(Holding(Flatten(PortIntervals(ps))), ps)
  {
    hide Matches, Flatten, PortIntervals, PortNames;
    forall x: nat | x <= 65535
      ensures Matches(Flatten(PortIntervals(ps)), 2, x) <==> exists s :: s in ps && PortNames(s, x)
    {
      PortsDenote(ps, x);
    }
  }

  lemma BansHeld(f: Family, ps: seq<Prefix>, ttls: seq<int>)
    ensures HoldsBans(Holding(Flatten(BanIntervals(f, Bans(ps, ttls)))), f, ps, ttls)
  {
    hide Matches, Flatten, BanIntervals, Covers, Pow2;
    var bs := Bans(ps, ttls);
    forall a: Addr | a.fam == f
      ensures Matches(Flatten(BanIntervals(f, bs)), KeyLength(f), a.val) <==>
              exists i :: 0 <= i < |ps| && i < |ttls| && ttls[i] > 0 && ps[i].addr.fam == f && Covers(ps[i], a) &&
                          !(ps[i].bits == 0 && a.val + 1 == Pow2(Width(f)))
    {
      BansDenote(f, bs, a);
      if b :| b in bs && Drops(f, b, a) {
        var i :| 0 <= i < |bs| && bs[i] == b;
        assert i < |ttls| && ttls[i] == b.ttl;
      }
      if i :| 0 <= i < |ps| && i < |ttls| && ttls[i] > 0 && ps[i].addr.fam == f && Covers(ps[i], a) &&
              !(ps[i].bits == 0 && a.val + 1 == Pow2(Width(f))) {
        assert bs[i] in bs && Drops(f, bs[i], a);
      }
    }
  }

  // ---- reading back ----------------------------------------------------------

  /** A read can miss the set at lookup, which reads as an empty set, or fail on its elements. */
  datatype ReadFault = ReadOk | LookupMisses | ElementsFail

  function AddrSetRead(f: Family, t: SetState, fault: ReadFault): Option<seq<string>> {
    if t.Absent? || fault.LookupMisses? then Some([])
    else if fault.ElementsFail? then None
    else Some(IpsRead(f, t.elements))
  }

  function CidrSetRead(f: Family, t: SetState, fault: ReadFault): Option<seq<string>> {
    if t.Absent? || fault.LookupMisses? then Some([])
    else if fault.ElementsFail? then None
    else Some(CidrsRead(f, t.elements))
  }

  function PortSetRead(t: SetState, fault: ReadFault): Option<seq<string>> {
    if t.Absent? || fault.LookupMisses? then Some([])
    else if fault.ElementsFail? then None
    else Some(PortsRead(t.elements))
  }

  datatype PeerFaults = PeerFaults(openFails: bool, peersV4: ReadFault, peersV6: ReadFault, trustedV4: ReadFault, trustedV6: ReadFault)

  datatype PortFaults = PortFaults(openFails: bool, tcp: ReadFault, udp: ReadFault)

  const NO_PEER_FAULTS := PeerFaults(false, ReadOk, ReadOk, ReadOk, ReadOk)

  const NO_PORT_FAULTS := PortFaults(false, ReadOk, ReadOk)

  /** The peer sets as read from the kernel; none when any read fails. */
  function PeersObserved(t: PeerTables, x: PeerFaults): Option<PeerSets> {
    if x.openFails then None
    else
      match (AddrSetRead(V4, t.peersV4, x.peersV4), AddrSetRead(V6, t.peersV6, x.peersV6),
             CidrSetRead(V4, t.trustedV4, x.trustedV4), CidrSetRead(V6, t.trustedV6, x.trustedV6))
      case (Some(a), Some(b), Some(c), Some(d)) => Some(PeerSets(a, b, c, d))
      case _ => None
  }

  function PortsObserved(t: TablePair, x: PortFaults): Option<PortSets> {
    if x.openFails then None
    else
      match (PortSetRead(t.first, x.tcp), PortSetRead(t.second, x.udp))
      case (Some(a), Some(b)) => Some(PortSets(a, b))
      case _ => None
  }

  /** Opening the connection failed, or listing the elements of a set that was found. */
  predicate PeerReadFails(t: PeerTables, x: PeerFaults) {
    x.openFails || (t.peersV4.Holding? && x.peersV4.ElementsFail?) || (t.peersV6.Holding? && x.peersV6.ElementsFail?) ||
    (t.trustedV4.Holding? && x.trustedV4.ElementsFail?) || (t.trustedV6.Holding? && x.trustedV6.ElementsFail?)
  }

  predicate PortReadFails(t: TablePair, x: PortFaults) {
    x.openFails || (t.first.Holding? && x.tcp.ElementsFail?) || (t.second.Holding? && x.udp.ElementsFail?)
  }

  lemma PeerReadFailsExactly(t: PeerTables, x: PeerFaults)
    ensures PeersObserved(t, x).None? <==> PeerReadFails(t, x)
  {
    hide IpsRead, CidrsRead;
  }

  lemma PortReadFailsExactly(t: TablePair, x: PortFaults)
    ensures PortsObserved(t, x).None? <==> PortReadFails(t, x)
  {
    hide PortsRead;
  }

  // ---- the writer ------------------------------------------------------------

  /** realApplier over its kernel. */
  class Applier {
    var peers: PeerTables
    var ports: TablePair
    var crowdsec: TablePair

    constructor ()
      ensures peers == PeerTables(Absent, Absent, Absent, Absent)
      ensures ports == TablePair(Absent, Absent) && crowdsec == TablePair(Absent, Absent)
    {
      peers := PeerTables(Absent, Absent, Absent, Absent);
      ports := TablePair(Absent, Absent);
      crowdsec := TablePair(Absent, Absent);
    }

    /** applyPeerSets. */
    method ApplyPeerSets(s: PeerSets, fault: ApplyFault) returns (ok: bool)
      modifies this`peers
      ensures peers == PeersAfterApply(old(peers), s, fault)
      ensures ok <==> StageOf(old(peers).AnyAbsent(), fault) == Written
      ensures ok <==> fault.NoFault? || fault.AddsLost? ||
                      ((fault.CreateFails? || fault.CreateCommitFails?) && old(peers).peersV4.Holding? &&
                       old(peers).peersV6.Holding? && old(peers).trustedV4.Holding? && old(peers).trustedV6.Holding?)
      ensures ok ==> PeersHold(peers, s, fault)
      ensures fault.LookupFails? || fault.CommitFails? ==>
                && KeptOrCreated(old(peers).peersV4, peers.peersV4) && KeptOrCreated(old(peers).peersV6, peers.peersV6)
                && KeptOrCreated(old(peers).trustedV4, peers.trustedV4) && KeptOrCreated(old(peers).trustedV6, peers.trustedV6)
      ensures !ok && !fault.LookupFails? && !fault.CommitFails? ==> peers == old(peers)
    {
      hide Flatten, IpIntervals, CidrIntervals, HoldsIps, HoldsCidrs;
      if fault.OpenFails? {
        return false;
      }
      var createdAny := false;
      if peers.peersV4.Absent? {
        if fault.CreateFails? { return false; }
        createdAny := true;
      }
      if peers.peersV6.Absent? {
        if fault.CreateFails? { return false; }
        createdAny := true;
      }
      if peers.trustedV4.Absent? {
        if fault.CreateFails? { return false; }
        createdAny := true;
      }
      if peers.trustedV6.Absent? {
        if fault.CreateFails? { return false; }
        createdAny := true;
      }
      if createdAny {
        if fault.CreateCommitFails? {
          return false;
        }
        peers := peers.AllCreated();
      }
      if fault.LookupFails? {
        return false;
      }
      var p4 := IpsToElements(s.peersV4, V4);
      var p6 := IpsToElements(s.peersV6, V6);
      var t4 := CidrsToElements(s.trustedV4, V4);
      var t6 := CidrsToElements(s.trustedV6, V6);
      if fault.CommitFails? {
        return false;
      }
      if fault.AddsLost? {
        p4 := if fault.first then [] else p4;
        p6 := if fault.second then [] else p6;
        t4 := if fault.third then [] else t4;
        t6 := if fault.fourth then [] else t6;
      }
      peers := PeerTables(Holding(p4), Holding(p6), Holding(t4), Holding(t6));
      IpsHeld(V4, s.peersV4);
      IpsHeld(V6, s.peersV6);
      CidrsHeld(V4, s.trustedV4);
      CidrsHeld(V6, s.trustedV6);
      return true;
    }

    /** applyTenantPorts. */
    method ApplyTenantPorts(s: PortSets, fault: ApplyFault) returns (ok: bool)
      modifies this`ports
      ensures ports == PairAfterApply(old(ports), EncodedPorts(s), fault)
      ensures ok <==> StageOf(old(ports).AnyAbsent(), fault) == Written
      ensures ok <==> fault.NoFault? || fault.AddsLost? ||
                      ((fault.CreateFails? || fault.CreateCommitFails?) && old(ports).first.Holding? && old(ports).second.Holding?)
      ensures ok ==> PortsHold(ports, s, fault)
      ensures fault.LookupFails? || fault.CommitFails? ==>
                KeptOrCreated(old(ports).first, ports.first) && KeptOrCreated(old(ports).second, ports.second)
      ensures !ok && !fault.LookupFails? && !fault.CommitFails? ==> ports == old(ports)
    {
      hide Flatten, PortIntervals, HoldsPorts;
      if fault.OpenFails? {
        return false;
      }
      var createdAny := ports.first.Absent? || ports.second.Absent?;
      if createdAny {
        if fault.CreateFails? || fault.CreateCommitFails? {
          return false;
        }
        ports := ports.AllCreated();
      }
      if fault.LookupFails? {
        return false;
      }
      var tcp := PortsToElements(s.tcp);
      var udp := PortsToElements(s.udp);
      if fault.CommitFails? {
        return false;
      }
      if fault.AddsLost? {
        tcp := if fault.first then [] else tcp;
        udp := if fault.second then [] else udp;
      }
      ports := TablePair(Holding(tcp), Holding(udp));
      PortsHeld(s.tcp);
      PortsHeld(s.udp);
      return true;
    }

    /** applyCrowdsecBlocklist. */
    method ApplyCrowdsecBlocklist(bl: Blocklist, fault: ApplyFault) returns (ok: bool)
      modifies this`crowdsec
      ensures crowdsec == PairAfterApply(old(crowdsec), EncodedBans(bl), fault)
      ensures ok <==> StageOf(old(crowdsec).AnyAbsent(), fault) == Written
      ensures ok <==> fault.NoFault? || fault.AddsLost? ||
                      ((fault.CreateFails? || fault.CreateCommitFails?) && old(crowdsec).first.Holding? && old(crowdsec).second.Holding?)
      ensures ok ==> BansHold(crowdsec, bl, fault)
      ensures fault.LookupFails? || fault.CommitFails? ==>
                KeptOrCreated(old(crowdsec).first, crowdsec.first) && KeptOrCreated(old(crowdsec).second, crowdsec.second)
      ensures !ok && !fault.LookupFails? && !fault.CommitFails? ==> crowdsec == old(crowdsec)
    {
      hide Flatten, BanIntervals, HoldsBans;
      if fault.OpenFails? {
        return false;
      }
      var createdAny := crowdsec.first.Absent? || crowdsec.second.Absent?;
      if createdAny {
        if fault.CreateFails? || fault.CreateCommitFails? {
          return false;
        }
        crowdsec := crowdsec.AllCreated();
      }
      if fault.LookupFails? {
        return false;
      }
      var v4 := CrowdsecPrefixesToElements(bl.v4, bl.ttl4, V4);
      var v6 := CrowdsecPrefixesToElements(bl.v6, bl.ttl6, V6);
      if fault.CommitFails? {
        return false;
      }
      if fault.AddsLost? {
        v4 := if fault.first then [] else v4;
        v6 := if fault.second then [] else v6;
      }
      crowdsec := TablePair(Holding(v4), Holding(v6));
      BansHeld(V4, bl.v4, bl.ttl4);
      BansHeld(V6, bl.v6, bl.ttl6);
      return true;
    }

    /** readAddrSet. */
    method ReadAddrSet(t: SetState, f: Family, fault: ReadFault) returns (r: Option<seq<string>>)
      ensures r == AddrSetRead(f, t, fault)
    {
      if t.Absent? || fault.LookupMisses? {
        return Some([]);
      }
      if fault.ElementsFail? {
        return None;
      }
      var out := ReadAddrElements(t.elements, f);
      return Some(out);
    }

    /** readCidrSet. */
    method ReadCidrSet(t: SetState, f: Family, fault: ReadFault) returns (r: Option<seq<string>>)
      ensures r == CidrSetRead(f, t, fault)
    {
      if t.Absent? || fault.LookupMisses? {
        return Some([]);
      }
      if fault.ElementsFail? {
        return None;
      }
      var out := ReadCidrElements(t.elements, f);
      return Some(out);
    }

    /** readPortSet. */
    method ReadPortSet(t: SetState, fault: ReadFault) returns (r: Option<seq<string>>)
      ensures r == PortSetRead(t, fault)
    {
      if t.Absent? || fault.LookupMisses? {
        return Some([]);
      }
      if fault.ElementsFail? {
        return None;
      }
      var out := ReadPortElements(t.elements);
      return Some(out);
    }

    /** observePeerFingerprint. */
    method ObservePeerFingerprint(x: PeerFaults) returns (r: Option<string>)
      ensures r == (match PeersObserved(peers, x) case Some(s) => Some(PeerFingerprint(s)) case None => None)
    {
      if x.openFails {
        return None;
      }
      var p4 := ReadAddrSet(peers.peersV4, V4, x.peersV4);
      if p4.None? { return None; }
      var p6 := ReadAddrSet(peers.peersV6, V6, x.peersV6);
      if p6.None? { return None; }
      var t4 := ReadCidrSet(peers.trustedV4, V4, x.trustedV4);
      if t4.None? { return None; }
      var t6 := ReadCidrSet(peers.trustedV6, V6, x.trustedV6);
      if t6.None? { return None; }
      return Some(PeerFingerprint(PeerSets(p4.value, p6.value, t4.value, t6.value)));
    }

    /** observeTenantPortsFingerprint. */
    method ObservePortsFingerprint(x: PortFaults) returns (r: Option<string>)
      ensures r == (match PortsObserved(ports, x) case Some(s) => Some(PortsFingerprint(s)) case None => None)
    {
      if x.openFails {
        return None;
      }
      var tcp := ReadPortSet(ports.first, x.tcp);
      if tcp.None? { return None; }
      var udp := ReadPortSet(ports.second, x.udp);
      if udp.None? { return None; }
      return Some(PortsFingerprint(PortSets(tcp.value, udp.value)));
    }

    /** applyPeersIfChanged: compare fingerprints, write when they differ or the read failed. */
    method ApplyPeersIfChanged(s: PeerSets, x: PeerFaults, fault: ApplyFault) returns (changed: bool, ok: bool)
      modifies this`peers
      ensures (peers, changed, ok) == PeersIfChanged(old(peers), s, x, fault)
      ensures fault.NoFault? ==> ok
      ensures changed ==> ok && PeersHold(peers, s, fault)
      ensures !changed && ok ==> peers == old(peers) && !PeerReadFails(old(peers), x)
    {
      hide PeerFingerprint, PeersHold, HoldsIps, HoldsCidrs, AddrSetRead, CidrSetRead;
      PeerReadFailsExactly(peers, x);
      var desired := PeerFingerprint(s);
      var observed := ObservePeerFingerprint(x);
      if observed == Some(desired) {
        return false, true;
      }
      ok := ApplyPeerSets(s, fault);
      changed := ok;
    }

    /** applyTenantPortsIfChanged. */
    method ApplyPortsIfChanged(s: PortSets, x: PortFaults, fault: ApplyFault) returns (changed: bool, ok: bool)
      modifies this`ports
      ensures (ports, changed, ok) == PortsIfChanged(old(ports), s, x, fault)
      ensures fault.NoFault? ==> ok
      ensures changed ==> ok && PortsHold(ports, s, fault)
      ensures !changed && ok ==> ports == old(ports) && !PortReadFails(old(ports), x)
    {
      hide PortsFingerprint, PortsHold, HoldsPorts, PortSetRead;
      PortReadFailsExactly(ports, x);
      var desired := PortsFingerprint(s);
      var observed := ObservePortsFingerprint(x);
      if observed == Some(desired) {
        return false, true;
      }
      ok := ApplyTenantPorts(s, fault);
      changed := ok;
    }
  }

  // ---- compare-then-apply as a function of the kernel ------------------------

  /** The kernel after the step, whether it was rewritten, and whether the step succeeded. */
  function PeersIfChanged(t: PeerTables, s: PeerSets, x: PeerFaults, fault: ApplyFault): (PeerTables, bool, bool) {
    var observed := PeersObserved(t, x);
    if observed.Some? && PeerFingerprint(observed.value) == PeerFingerprint(s) then (t, false, true)
    else
      var ok := StageOf(t.AnyAbsent(), fault) == Written;
      (PeersAfterApply(t, s, fault), ok, ok)
  }

  function PortsIfChanged(t: TablePair, s: PortSets, x: PortFaults, fault: ApplyFault): (TablePair, bool, bool) {
    var observed := PortsObserved(t, x);
    if observed.Some? && PortsFingerprint(observed.value) == PortsFingerprint(s) then (t, false, true)
    else
      var ok := StageOf(t.AnyAbsent(), fault) == Written;
      (PairAfterApply(t, EncodedPorts(s), fault), ok, ok)
  }
}
