/** One pass of the peer reconcile loop: sources in, desired sets and per-object actions out. */
module PeerReconcile {
  import opened Texts
  import opened Collecting
  import opened Addresses
  import opened IpText
  import opened Validation
  import opened NftKeys
  import opened NftSets
  import opened NftRoundTrip
  import opened Fingerprints
  import opened Firewall
  import opened Convergence
  import opened CrowdsecInput

  // ---- objects ---------------------------------------------------------------

  const SECOND: int := 1_000_000_000

  /** A ClusterPendingPeer. Times are nanoseconds; a missing creation time is the zero timestamp, a missing
      time-to-live takes the schema default, and claimedAt is none when absent or unparseable. */
  datatype PendingPeer = PendingPeer(name: string, ip: Option<string>, ttlSeconds: Option<int>, created: Option<int>,
                                     claimedAt: Option<int>)

  datatype TrustedRange = TrustedRange(name: string, cidr: Option<string>)

  ghost predicate UniqueNames(ps: seq<PendingPeer>) {
    forall i, j :: 0 <= i < j < |ps| ==> ps[i].name != ps[j].name
  }

  function Ttl(p: PendingPeer): int { SECOND * (if p.ttlSeconds.Some? then p.ttlSeconds.value else 1800) }

  /** The accepted address of a pending peer. */
  function PeerAddress(p: PendingPeer): Option<Canonical> {
    if p.ip.None? || p.ip.value == "" then None else ParseBareIP(p.ip.value)
  }

  /** Past its time: a claimed peer after the grace, an unclaimed one after its time-to-live; a peer without
      a creation time counts as created now. */
  predicate PastTime(p: PendingPeer, now: int, grace: int) {
    if p.claimedAt.Some? then now > p.claimedAt.value + grace
    else now > (if p.created.Some? then p.created.value else now) + Ttl(p)
  }

  predicate Expired(p: PendingPeer, now: int, grace: int) { PeerAddress(p).Some? && PastTime(p, now, grace) }

  /** The peer contributes its address to the peer sets. */
  predicate Active(p: PendingPeer, now: int, grace: int) { PeerAddress(p).Some? && !PastTime(p, now, grace) }

  function BareText(p: PendingPeer): string
    requires PeerAddress(p).Some?
  {
    StripPrefix(PeerAddress(p).value.text)
  }

  predicate ToClaim(p: PendingPeer, now: int, grace: int, nodeIps: set<string>) {
    Active(p, now, grace) && p.claimedAt.None? && BareText(p) in nodeIps
  }

  datatype Action = Patch(name: string) | Claim(name: string) | Delete(name: string)

  /** The one thing a pass does with a pending peer. */
  function ActionOf(p: PendingPeer, now: int, grace: int, nodeIps: set<string>): (a: Action)
    ensures a.name == p.name
  {
    if Expired(p, now, grace) then Delete(p.name)
    else if ToClaim(p, now, grace, nodeIps) then Claim(p.name)
    else Patch(p.name)
  }

  // ---- set computation -------------------------------------------------------

  function NodeIp(f: Family): NodeAddress -> Option<string> {
    (na: NodeAddress) =>
      if na.kind != InternalIP then None
      else match ParseAddr(na.address)
        case Some(a) => if Unmap(a).fam == f then Some(Text(Unmap(a))) else None
        case None => None
  }

  function NodeIps(f: Family, ns: seq<Node>): seq<string> {
    if ns == [] then [] else NodeIps(f, ns[..|ns| - 1]) + Collect(NodeIp(f), ns[|ns| - 1].addresses)
  }

  function ActiveIp(f: Family, now: int, grace: int): PendingPeer -> Option<string> {
    (p: PendingPeer) => if Active(p, now, grace) && PeerAddress(p).value.fam == f then Some(BareText(p)) else None
  }

  function TrustedText(f: Family): TrustedRange -> Option<string> {
    (t: TrustedRange) =>
      if t.cidr.None? || t.cidr.value == "" then None
      else match ParseIPOrCIDR(t.cidr.value)
        case Some(c) => if c.fam == f then Some(c.text) else None
        case None => None
  }

  /** The list is the sorted duplicate-free list of these members. */
  ghost predicate SortedSetOf(out: seq<string>, members: seq<string>) {
    Sorted(out) && Distinct(out) && forall s :: s in out <==> s in members
  }

  /** The inner loop of splitInternalIPs, over the addresses of one node. */
  method SplitAddresses(addrs: seq<NodeAddress>) returns (v4: seq<string>, v6: seq<string>)
    ensures v4 == Collect(NodeIp(V4), addrs) && v6 == Collect(NodeIp(V6), addrs)
  {
    hide Text, Unmap, ParseAddr;
    v4, v6 := [], [];
    for j := 0 to |addrs|
      invariant v4 == Collect(NodeIp(V4), addrs[..j]) && v6 == Collect(NodeIp(V6), addrs[..j])
    {
      assert addrs[..j + 1] == addrs[..j] + [addrs[j]];
      CollectAppend(NodeIp(V4), addrs[..j], addrs[j]);
      CollectAppend(NodeIp(V6), addrs[..j], addrs[j]);
      if addrs[j].kind != InternalIP {
        continue;
      }
      var parsed := ParseAddr(addrs[j].address);
      if parsed.None? {
        continue;
      }
      var a := Unmap(parsed.value);
      if a.Is4() {
        v4 := v4 + [Text(a)];
      } else {
        v6 := v6 + [Text(a)];
      }
    }
    assert addrs[..|addrs|] == addrs;
  }

  /** splitInternalIPs. */
  method SplitInternalIPs(ns: seq<Node>) returns (v4: seq<string>, v6: seq<string>)
    ensures v4 == SortStrings(NodeIps(V4, ns)) && v6 == SortStrings(NodeIps(V6, ns))
  {
    hide NodeIp;
    v4, v6 := [], [];
    for i := 0 to |ns|
      invariant v4 == NodeIps(V4, ns[..i]) && v6 == NodeIps(V6, ns[..i])
    {
      var a4, a6 := SplitAddresses(ns[i].addresses);
      assert ns[..i + 1][..i] == ns[..i];
      v4, v6 := v4 + a4, v6 + a6;
    }
    assert ns[..|ns|] == ns;
    v4, v6 := SortStrings(v4), SortStrings(v6);
  }

  /** uniqueSorted. */
  method UniqueSorted(ss: seq<string>) returns (out: seq<string>)
    ensures SortedSetOf(out, ss)
  {
    if ss == [] {
      return ss;
    }
    var seen: set<string>;
    seen, out := {}, [];
    for i := 0 to |ss|
      invariant Distinct(out)
      invariant forall s :: s in out <==> s in ss[..i]
      invariant forall s :: s in seen <==> s in out
    {
      assert ss[..i + 1] == ss[..i] + [ss[i]];
      if ss[i] in seen {
        continue;
      }
      seen := seen + {ss[i]};
      out := out + [ss[i]];
    }
    assert ss[..|ss|] == ss;
    SortKeepsSet(out);
    out := SortStrings(out);
  }

  lemma SortKeepsSet(ss: seq<string>)
    requires Distinct(ss)
    ensures Distinct(SortStrings(ss))
    ensures forall s :: s in SortStrings(ss) <==> s in ss
  {
    var r := SortStrings(ss);
    forall s ensures s in r <==> s in ss {
      assert s in multiset(r) <==> s in multiset(ss);
    }
    forall s ensures multiset(r)[s] <= 1 {
      DistinctCount(ss, s);
    }
    CountsMakeDistinct(r);
  }

  function ExpiredName(now: int, grace: int): PendingPeer -> Option<string> {
    (p: PendingPeer) => if Expired(p, now, grace) then Some(p.name) else None
  }

  function ClaimName(now: int, grace: int, nodeIps: set<string>): PendingPeer -> Option<string> {
    (p: PendingPeer) => if ToClaim(p, now, grace, nodeIps) then Some(p.name) else None
  }

  function PatchName(now: int, grace: int): PendingPeer -> Option<string> {
    (p: PendingPeer) => if Expired(p, now, grace) then None else Some(p.name)
  }

  /** Selecting from uniquely named objects yields no name twice. */
  lemma {:induction false} NamesDistinct(sel: PendingPeer -> Option<string>, ps: seq<PendingPeer>)
    requires UniqueNames(ps) && forall p :: p in ps && sel(p).Some? ==> sel(p) == Some(p.name)
    ensures Distinct(Collect(sel, ps))
  {
    if ps != [] {
      NamesDistinct(sel, ps[1..]);
      CollectMembers(sel, ps[1..], ps[0].name);
      assert ps[0] in ps;
    }
  }

  /** What the loop over the pending peers gathers. */
  datatype Gathered = Gathered(v4: seq<string>, v6: seq<string>, expired: seq<string>, toClaim: seq<string>,
                               patches: map<string, PendingPeer>)

  /** What the loop gathers, told from the objects: the addresses asked for in time, by family; the names of
      the accepted objects out of time; those of the unclaimed ones in time whose address is a node's; and as
      patches all names but the expired. */
  ghost predicate GatheredByObject(g: Gathered, ps: seq<PendingPeer>, now: int, grace: int, nodeIps: set<string>) {
    && (forall s :: s in g.v4 <==> exists p, a: Addr :: p in ps && AsksFor(p, a) && InTime(p, now, grace) && a.fam == V4 && s == Text(a))
    && (forall s :: s in g.v6 <==> exists p, a: Addr :: p in ps && AsksFor(p, a) && InTime(p, now, grace) && a.fam == V6 && s == Text(a))
    && (forall n :: n in g.expired <==> exists p, a :: p in ps && p.name == n && AsksFor(p, a) && !InTime(p, now, grace))
    && (forall n :: n in g.toClaim <==>
          exists p, a :: p in ps && p.name == n && AsksFor(p, a) && InTime(p, now, grace) && p.claimedAt.None? && Text(a) in nodeIps)
    && (forall n :: n in g.patches <==>
          exists p :: p in ps && p.name == n && forall a :: AsksFor(p, a) ==> InTime(p, now, grace))
  }

  lemma ActiveIpByObject(f: Family, ps: seq<PendingPeer>, now: int, grace: int, s: string)
    ensures s in Collect(ActiveIp(f, now, grace), ps) <==>
            exists p, a: Addr :: p in ps && AsksFor(p, a) && InTime(p, now, grace) && a.fam == f && s == Text(a)
  {
    hide Collect, PeerAddress, BareText, Text, AsksFor;
    CollectMembers(ActiveIp(f, now, grace), ps, s);
    if p :| p in ps && ActiveIp(f, now, grace)(p) == Some(s) {
      var a := AskedAddress(p);
      AcceptedAsks(p, a);
    }
    if p, a: Addr :| p in ps && AsksFor(p, a) && InTime(p, now, grace) && a.fam == f && s == Text(a) {
      AcceptedAsks(p, a);
      assert ActiveIp(f, now, grace)(p) == Some(s);
    }
  }

  lemma NamesByObject(ps: seq<PendingPeer>, now: int, grace: int, nodeIps: set<string>, n: string)
    ensures n in Collect(ExpiredName(now, grace), ps) <==>
            exists p, a :: p in ps && p.name == n && AsksFor(p, a) && !InTime(p, now, grace)
    ensures n in Collect(ClaimName(now, grace, nodeIps), ps) <==>
            exists p, a :: p in ps && p.name == n && AsksFor(p, a) && InTime(p, now, grace) && p.claimedAt.None? && Text(a) in nodeIps
    ensures n in Collect(PatchName(now, grace), ps) <==>
            exists p :: p in ps && p.name == n && forall a :: AsksFor(p, a) ==> InTime(p, now, grace)
  {
    hide Collect, PeerAddress, BareText, Text, AsksFor;
    CollectMembers(ExpiredName(now, grace), ps, n);
    CollectMembers(ClaimName(now, grace, nodeIps), ps, n);
    CollectMembers(PatchName(now, grace), ps, n);
    forall p, a ensures AsksFor(p, a) ==> PeerAddress(p).Some? && BareText(p) == Text(a) {
      AcceptedAsks(p, a);
    }
    forall p | PeerAddress(p).Some? ensures exists a :: AsksFor(p, a) {
      var a := AskedAddress(p);
    }
  }

  lemma GatheredExactly(g: Gathered, ps: seq<PendingPeer>, now: int, grace: int, nodeIps: set<string>)
    requires g.v4 == Collect(ActiveIp(V4, now, grace), ps) && g.v6 == Collect(ActiveIp(V6, now, grace), ps)
    requires g.expired == Collect(ExpiredName(now, grace), ps)
    requires g.toClaim == Collect(ClaimName(now, grace, nodeIps), ps)
    requires forall n :: n in g.patches <==> n in Collect(PatchName(now, grace), ps)
    ensures GatheredByObject(g, ps, now, grace, nodeIps)
  {
    hide Collect, AsksFor, InTime, Text, ActiveIp, ExpiredName, ClaimName, PatchName;
    forall f, s
      ensures s in Collect(ActiveIp(f, now, grace), ps) <==>
              exists p, a: Addr :: p in ps && AsksFor(p, a) && InTime(p, now, grace) && a.fam == f && s == Text(a)
    {
      ActiveIpByObject(f, ps, now, grace, s);
    }
    forall n
      ensures n in g.expired <==> exists p, a :: p in ps && p.name == n && AsksFor(p, a) && !InTime(p, now, grace)
      ensures n in g.toClaim <==>
              exists p, a :: p in ps && p.name == n && AsksFor(p, a) && InTime(p, now, grace) && p.claimedAt.None? && Text(a) in nodeIps
      ensures n in g.patches <==> exists p :: p in ps && p.name == n && forall a :: AsksFor(p, a) ==> InTime(p, now, grace)
    {
      NamesByObject(ps, now, grace, nodeIps, n);
    }
  }

  /** The loop over the pending peers. */
  method GatherPending(ps: seq<PendingPeer>, now: int, grace: int, nodeIps: set<string>) returns (g: Gathered)
    ensures g.v4 == Collect(ActiveIp(V4, now, grace), ps) && g.v6 == Collect(ActiveIp(V6, now, grace), ps)
    ensures g.expired == Collect(ExpiredName(now, grace), ps)
    ensures g.toClaim == Collect(ClaimName(now, grace, nodeIps), ps)
    ensures forall n :: n in g.patches <==> n in Collect(PatchName(now, grace), ps)
    ensures GatheredByObject(g, ps, now, grace, nodeIps)
  {
    hide ParseBareIP, StripPrefix, Ttl, Collect, GatheredByObject;
    CollectEmpty(ActiveIp(V4, now, grace));
    CollectEmpty(ActiveIp(V6, now, grace));
    CollectEmpty(ExpiredName(now, grace));
    CollectEmpty(ClaimName(now, grace, nodeIps));
    CollectEmpty(PatchName(now, grace));
    var v4, v6, expired, toClaim: seq<string> := [], [], [], [];
    var patches: map<string, PendingPeer> := map[];
    for i := 0 to |ps|
      invariant v4 == Collect(ActiveIp(V4, now, grace), ps[..i]) && v6 == Collect(ActiveIp(V6, now, grace), ps[..i])
      invariant expired == Collect(ExpiredName(now, grace), ps[..i])
      invariant toClaim == Collect(ClaimName(now, grace, nodeIps), ps[..i])
      invariant forall n :: n in patches <==> n in Collect(PatchName(now, grace), ps[..i])
    {
      var cpp := ps[i];
      assert ps[..i + 1] == ps[..i] + [cpp];
      CollectAppend(ActiveIp(V4, now, grace), ps[..i], cpp);
      CollectAppend(ActiveIp(V6, now, grace), ps[..i], cpp);
      CollectAppend(ExpiredName(now, grace), ps[..i], cpp);
      CollectAppend(ClaimName(now, grace, nodeIps), ps[..i], cpp);
      CollectAppend(PatchName(now, grace), ps[..i], cpp);
      if cpp.ip.None? || cpp.ip.value == "" {
        patches := patches[cpp.name := cpp];
        continue;
      }
      var parsed := ParseBareIP(cpp.ip.value);
      if parsed.None? {
        patches := patches[cpp.name := cpp];
        continue;
      }
      var bareIp := StripPrefix(parsed.value.text);
      var ct := if cpp.created.Some? then cpp.created.value else now;
      var expiresAt := ct + Ttl(cpp);
      if cpp.claimedAt.Some? {
        if now > cpp.claimedAt.value + grace {
          expired := expired + [cpp.name];
          continue;
        }
      } else if now > expiresAt {
        expired := expired + [cpp.name];
        continue;
      }
      if parsed.value.fam == V4 {
        v4 := v4 + [bareIp];
      } else {
        v6 := v6 + [bareIp];
      }
      if cpp.claimedAt.None? {
        if bareIp in nodeIps {
          toClaim := toClaim + [cpp.name];
        }
      }
      patches := patches[cpp.name := cpp];
    }
    assert ps[..|ps|] == ps;
    g := Gathered(v4, v6, expired, toClaim, patches);
    GatheredExactly(g, ps, now, grace, nodeIps);
  }

  /** The loop over the trusted ranges. */
  method GatherTrusted(ts: seq<TrustedRange>) returns (v4: seq<string>, v6: seq<string>)
    ensures v4 == Collect(TrustedText(V4), ts) && v6 == Collect(TrustedText(V6), ts)
  {
    hide ParseIPOrCIDR;
    v4, v6 := [], [];
    for i := 0 to |ts|
      invariant v4 == Collect(TrustedText(V4), ts[..i]) && v6 == Collect(TrustedText(V6), ts[..i])
    {
      assert ts[..i + 1] == ts[..i] + [ts[i]];
      CollectAppend(TrustedText(V4), ts[..i], ts[i]);
      CollectAppend(TrustedText(V6), ts[..i], ts[i]);
      if ts[i].cidr.None? || ts[i].cidr.value == "" {
        continue;
      }
      var parsed := ParseIPOrCIDR(ts[i].cidr.value);
      if parsed.None? {
        continue;
      }
      if parsed.value.fam == V4 {
        v4 := v4 + [parsed.value.text];
      } else {
        v6 := v6 + [parsed.value.text];
      }
    }
    assert ts[..|ts|] == ts;
  }

  /** The closing loops: patches for all but the claimed, then claims, then deletes. */
  method Act(g: Gathered) returns (actions: seq<Action>)
    requires Distinct(g.expired) && Distinct(g.toClaim)
    ensures Distinct(actions)
    ensures forall n :: Patch(n) in actions <==> n in g.patches && n !in g.toClaim
    ensures forall n :: Claim(n) in actions <==> n in g.toClaim
    ensures forall n :: Delete(n) in actions <==> n in g.expired
  {
    actions := [];
    var left := g.patches.Keys;
    while left != {}
      invariant left <= g.patches.Keys
      invariant Distinct(actions)
      invariant forall a :: a in actions ==> a.Patch?
      invariant forall n :: Patch(n) in actions <==> n in g.patches && n !in left && n !in g.toClaim
    {
      var name :| name in left;
      left := left - {name};
      if name in g.toClaim {
        continue;
      }
      actions := actions + [Patch(name)];
    }
    ghost var patched := actions;
    for i := 0 to |g.toClaim|
      invariant Distinct(actions)
      invariant forall a :: a in actions <==> a in patched || (a.Claim? && a.name in g.toClaim[..i])
    {
      actions := actions + [Claim(g.toClaim[i])];
    }
    ghost var claimed := actions;
    assert g.toClaim[..|g.toClaim|] == g.toClaim;
    for i := 0 to |g.expired|
      invariant Distinct(actions)
      invariant forall a :: a in actions <==> a in claimed || (a.Delete? && a.name in g.expired[..i])
    {
      actions := actions + [Delete(g.expired[i])];
    }
    assert g.expired[..|g.expired|] == g.expired;
  }

  // ---- pending peers, told from the objects ----------------------------------

  /** The object asks for this address: its ip field, trimmed, reads as the address, mapped or not. */
  ghost predicate AsksFor(p: PendingPeer, a: Addr) {
    p.ip.Some? && ParseAddr(TrimSpace(p.ip.value)).Some? && Unmap(ParseAddr(TrimSpace(p.ip.value)).value) == a
  }

  /** A claimed peer lives for the grace after its claim; another for its time-to-live, half an hour when
      none is given, after its creation, or from now on when that is missing. */
  ghost predicate InTime(p: PendingPeer, now: int, grace: int) {
    if p.claimedAt.Some? then now <= p.claimedAt.value + grace
    else now <= (if p.created.Some? then p.created.value else now)
                + 1_000_000_000 * (if p.ttlSeconds.Some? then p.ttlSeconds.value else 1800)
  }

  /** Some node has the address, mapped or not, as an internal one. */
  ghost predicate OnNode(a: Addr, ns: seq<Node>) {
    exists n, na :: n in ns && na in n.addresses && na.kind == InternalIP && ParseAddr(na.address).Some? &&
                    Unmap(ParseAddr(na.address).value) == a
  }

  function NodeIpSet(ns: seq<Node>): set<string> { set s | s in NodeIps(V4, ns) + NodeIps(V6, ns) }

  lemma {:induction false} NodeIpsMembers(f: Family, ns: seq<Node>, s: string)
    ensures s in NodeIps(f, ns) <==>
            exists n, na :: n in ns && na in n.addresses && NodeIp(f)(na) == Some(s)
  {
    hide NodeIp;
    if ns != [] {
      var init, last := ns[..|ns| - 1], ns[|ns| - 1];
      NodeIpsMembers(f, init, s);
      CollectMembers(NodeIp(f), last.addresses, s);
      assert forall n :: n in ns <==> n in init || n == last;
    }
  }

  lemma AcceptedAsks(p: PendingPeer, a: Addr)
    ensures AsksFor(p, a) <==> PeerAddress(p).Some? && PeerAddress(p).value.fam == a.fam && BareText(p) == Text(a)
  {
    hide TrimSpace, Text, Unmap, ParseAddr, StripPrefix;
    if PeerAddress(p).Some? {
      BareTextOfAccepted(p.ip.value);
      if BareText(p) == Text(a) { TextInjective(a, Unmap(ParseAddr(TrimSpace(p.ip.value)).value)); }
    } else {
      NothingReadsAsNothing();
    }
  }

  lemma NothingReadsAsNothing()
    ensures TrimSpace("") == "" && ParseAddr("").None?
  {
    if ParseAddr("").Some? { ParsedVisible(""); }
  }

  /** An accepted peer asks for one address. */
  lemma AskedAddress(p: PendingPeer) returns (a: Addr)
    requires PeerAddress(p).Some?
    ensures AsksFor(p, a)
  {
    hide TrimSpace, Text, Unmap, ParseAddr, StripPrefix;
    BareTextOfAccepted(p.ip.value);
    a := Unmap(ParseAddr(TrimSpace(p.ip.value)).value);
  }

  lemma OnNodeExactly(a: Addr, ns: seq<Node>)
    ensures Text(a) in NodeIpSet(ns) <==> OnNode(a, ns)
    ensures Text(a) in NodeIps(a.fam, ns) <==> OnNode(a, ns)
  {
    hide NodeIps, Text, Unmap, ParseAddr;
    forall f ensures Text(a) in NodeIps(f, ns) ==> OnNode(a, ns) {
      NodeIpsMembers(f, ns, Text(a));
      if n, na :| n in ns && na in n.addresses && NodeIp(f)(na) == Some(Text(a)) {
        TextInjective(a, Unmap(ParseAddr(na.address).value));
      }
    }
    if n, na :| n in ns && na in n.addresses && na.kind == InternalIP && ParseAddr(na.address).Some? &&
                Unmap(ParseAddr(na.address).value) == a {
      assert NodeIp(a.fam)(na) == Some(Text(a));
      NodeIpsMembers(a.fam, ns, Text(a));
    }
  }

  /** What a pass does with a pending peer: it deletes an accepted one whose time is over, claims an accepted
      one in time that is unclaimed and on a node, and patches the status of every other. */
  lemma ActionByObject(p: PendingPeer, now: int, grace: int, ns: seq<Node>)
    ensures ActionOf(p, now, grace, NodeIpSet(ns)) == Delete(p.name) <==> exists a :: AsksFor(p, a) && !InTime(p, now, grace)
    ensures ActionOf(p, now, grace, NodeIpSet(ns)) == Claim(p.name)
            <==> p.claimedAt.None? && InTime(p, now, grace) && exists a :: AsksFor(p, a) && OnNode(a, ns)
  {
    hide PeerAddress, AsksFor, OnNode, StripPrefix, NodeIpSet, Text;
    forall a ensures AsksFor(p, a) ==> PeerAddress(p).Some? && BareText(p) == Text(a) {
      AcceptedAsks(p, a);
      hide BareText;
    }
    forall a ensures Text(a) in NodeIpSet(ns) <==> OnNode(a, ns) {
      OnNodeExactly(a, ns);
    }
    if PeerAddress(p).Some? {
      var a := AskedAddress(p);
    }
  }

  /** The actions of a pass, told from the objects: which peers it claims, which it deletes, and that it
      patches the status of all others. */
  ghost predicate ActsByObject(actions: seq<Action>, ps: seq<PendingPeer>, now: int, grace: int, ns: seq<Node>) {
    && (forall n :: Claim(n) in actions <==>
          exists p, a :: p in ps && p.name == n && AsksFor(p, a) && OnNode(a, ns) && p.claimedAt.None? && InTime(p, now, grace))
    && (forall n :: Delete(n) in actions <==>
          exists p, a :: p in ps && p.name == n && AsksFor(p, a) && !InTime(p, now, grace))
    && (forall n :: Patch(n) in actions <==>
          (exists p :: p in ps && p.name == n) && Claim(n) !in actions && Delete(n) !in actions)
  }

  lemma ActionsByObject(ps: seq<PendingPeer>, now: int, grace: int, ns: seq<Node>, actions: seq<Action>)
    requires UniqueNames(ps)
    requires forall a :: a in actions <==> exists p :: p in ps && a == ActionOf(p, now, grace, NodeIpSet(ns))
    ensures ActsByObject(actions, ps, now, grace, ns)
  {
    hide AsksFor, OnNode, InTime, ActionOf, NodeIpSet;
    assert forall p, q :: p in ps && q in ps && p.name == q.name ==> p == q;
    forall p | p in ps
      ensures var act := ActionOf(p, now, grace, NodeIpSet(ns));
        && (act == Delete(p.name) || act == Claim(p.name) || act == Patch(p.name))
        && (act == Delete(p.name) <==> exists a :: AsksFor(p, a) && !InTime(p, now, grace))
        && (act == Claim(p.name) <==> p.claimedAt.None? && InTime(p, now, grace) && exists a :: AsksFor(p, a) && OnNode(a, ns))
    {
      ActionByObject(p, now, grace, ns);
      assert ActionOf(p, now, grace, NodeIpSet(ns)).name == p.name;
    }
  }

  // ---- the pass --------------------------------------------------------------

  /** The desired sets of a pass over these objects. */
  ghost predicate IsDesired(d: PeerSets, now: int, grace: int, ns: seq<Node>, ts: seq<TrustedRange>, ps: seq<PendingPeer>) {
    && SortedSetOf(d.peersV4, NodeIps(V4, ns) + Collect(ActiveIp(V4, now, grace), ps))
    && SortedSetOf(d.peersV6, NodeIps(V6, ns) + Collect(ActiveIp(V6, now, grace), ps))
    && SortedSetOf(d.trustedV4, Collect(TrustedText(V4), ts))
    && SortedSetOf(d.trustedV6, Collect(TrustedText(V6), ts))
  }

  datatype Outcome = Outcome(desired: PeerSets, actions: seq<Action>)

  lemma SortedSame(out: seq<string>, unsorted: seq<string>, rest: seq<string>)
    requires SortedSetOf(out, SortStrings(unsorted) + rest)
    ensures SortedSetOf(out, unsorted + rest)
  {
    forall s ensures s in SortStrings(unsorted) <==> s in unsorted {
      assert s in multiset(SortStrings(unsorted)) <==> s in multiset(unsorted);
    }
  }

  /** reconcileOnce: none when a lister or the kernel write failed, and then no object is touched. */
  method ReconcileOnce(applier: Applier, now: int, grace: int, nodes: Option<seq<Node>>, trusted: Option<seq<TrustedRange>>,
                       pending: Option<seq<PendingPeer>>, x: PeerFaults, fault: ApplyFault) returns (r: Option<Outcome>)
    requires pending.Some? ==> UniqueNames(pending.value)
    modifies applier`peers
    ensures nodes.None? || trusted.None? || pending.None? ==> r.None? && applier.peers == old(applier.peers)
    ensures nodes.Some? && trusted.Some? && pending.Some? ==>
              exists d :: IsDesired(d, now, grace, nodes.value, trusted.value, pending.value) &&
                          applier.peers == PeersIfChanged(old(applier.peers), d, x, fault).0 &&
                          (r.Some? <==> PeersIfChanged(old(applier.peers), d, x, fault).2) &&
                          (r.Some? ==> r.value.desired == d)
    ensures nodes.Some? && trusted.Some? && pending.Some? && fault.NoFault? ==> r.Some?
    ensures r.Some? ==>
              nodes.Some? && pending.Some? && Distinct(r.value.actions) &&
              forall a :: a in r.value.actions <==>
                exists p :: p in pending.value && a == ActionOf(p, now, grace, NodeIpSet(nodes.value))
    ensures r.Some? ==> nodes.Some? && pending.Some? && ActsByObject(r.value.actions, pending.value, now, grace, nodes.value)
  {
    hide SortedSetOf, NodeIp, ActiveIp, TrustedText, PeersIfChanged, Expired, ToClaim, Collect, NodeIps, ActsByObject, ActionOf;
    hide PeersHold, PeerReadFails, SortStrings, Distinct, GatheredByObject;
    if nodes.None? || trusted.None? || pending.None? {
      return None;
    }
    var peerV4, peerV6 := SplitInternalIPs(nodes.value);
    var nodeIps := (set s | s in peerV4) + (set s | s in peerV6);
    NodeIpSetOfSorted(nodes.value, peerV4, peerV6, nodeIps);
    var g := GatherPending(pending.value, now, grace, nodeIps);
    var trustedV4, trustedV6 := GatherTrusted(trusted.value);
    var allV4 := UniqueSorted(peerV4 + g.v4);
    var allV6 := UniqueSorted(peerV6 + g.v6);
    SortedSame(allV4, NodeIps(V4, nodes.value), g.v4);
    SortedSame(allV6, NodeIps(V6, nodes.value), g.v6);
    trustedV4 := UniqueSorted(trustedV4);
    trustedV6 := UniqueSorted(trustedV6);
    var desired := PeerSets(allV4, allV6, trustedV4, trustedV6);
    assert IsDesired(desired, now, grace, nodes.value, trusted.value, pending.value);
    var changed, ok := applier.ApplyPeersIfChanged(desired, x, fault);
    if !ok {
      return None;
    }
    GatheredNames(pending.value, now, grace, nodeIps);
    var actions := Act(g);
    ActionsMatch(pending.value, now, grace, nodeIps, g, actions);
    ActionsByObject(pending.value, now, grace, nodes.value, actions);
    return Some(Outcome(desired, actions));
  }

  lemma NodeIpSetOfSorted(ns: seq<Node>, v4: seq<string>, v6: seq<string>, ips: set<string>)
    requires v4 == SortStrings(NodeIps(V4, ns)) && v6 == SortStrings(NodeIps(V6, ns))
    requires ips == (set s | s in v4) + (set s | s in v6)
    ensures ips == NodeIpSet(ns)
  {
    hide NodeIps;
    forall s ensures s in v4 <==> s in NodeIps(V4, ns) {
      assert s in multiset(v4) <==> s in multiset(NodeIps(V4, ns));
    }
    forall s ensures s in v6 <==> s in NodeIps(V6, ns) {
      assert s in multiset(v6) <==> s in multiset(NodeIps(V6, ns));
    }
  }

  lemma GatheredNames(ps: seq<PendingPeer>, now: int, grace: int, nodeIps: set<string>)
    requires UniqueNames(ps)
    ensures Distinct(Collect(ExpiredName(now, grace), ps)) && Distinct(Collect(ClaimName(now, grace, nodeIps), ps))
  {
    hide Expired, ToClaim;
    NamesDistinct(ExpiredName(now, grace), ps);
    NamesDistinct(ClaimName(now, grace, nodeIps), ps);
  }

  lemma ActionsMatch(ps: seq<PendingPeer>, now: int, grace: int, nodeIps: set<string>, g: Gathered, actions: seq<Action>)
    requires UniqueNames(ps)
    requires g.expired == Collect(ExpiredName(now, grace), ps)
    requires g.toClaim == Collect(ClaimName(now, grace, nodeIps), ps)
    requires forall n :: n in g.patches <==> n in Collect(PatchName(now, grace), ps)
    requires forall n :: Patch(n) in actions <==> n in g.patches && n !in g.toClaim
    requires forall n :: Claim(n) in actions <==> n in g.toClaim
    requires forall n :: Delete(n) in actions <==> n in g.expired
    ensures forall a :: a in actions <==> exists p :: p in ps && a == ActionOf(p, now, grace, nodeIps)
  {
    assert forall p, q :: p in ps && q in ps && p.name == q.name ==> p == q;
    assert forall p :: ToClaim(p, now, grace, nodeIps) ==> !Expired(p, now, grace);
    hide Expired, ToClaim, Collect;
    forall a ensures a in actions <==> exists p :: p in ps && a == ActionOf(p, now, grace, nodeIps) {
      CollectMembers(ExpiredName(now, grace), ps, a.name);
      CollectMembers(ClaimName(now, grace, nodeIps), ps, a.name);
      CollectMembers(PatchName(now, grace), ps, a.name);
      match a
      case Patch(n) =>
      case Claim(n) =>
      case Delete(n) =>
    }
  }

  // ---- what a pass guarantees ------------------------------------------------

  /** Each listed pending peer is the subject of exactly one action. */
  lemma ExactlyOneAction(ps: seq<PendingPeer>, now: int, grace: int, nodeIps: set<string>, actions: seq<Action>, p: PendingPeer)
    requires UniqueNames(ps) && Distinct(actions) && p in ps
    requires forall a :: a in actions <==> exists q :: q in ps && a == ActionOf(q, now, grace, nodeIps)
    ensures multiset(actions)[ActionOf(p, now, grace, nodeIps)] == 1
    ensures forall a :: a in actions && a.name == p.name ==> a == ActionOf(p, now, grace, nodeIps)
  {
    hide Expired, ToClaim;
    DistinctCount(actions, ActionOf(p, now, grace, nodeIps));
  }

  /** The desired sets a pass computes are canonical, whatever the objects hold. */
  lemma DesiredIsCanonical(d: PeerSets, now: int, grace: int, ns: seq<Node>, ts: seq<TrustedRange>, ps: seq<PendingPeer>)
    requires IsDesired(d, now, grace, ns, ts, ps)
    ensures CanonicalPeers(d)
  {
    hide NodeIps, Collect, IsIpText, IsCidrText;
    forall f, s | s in NodeIps(f, ns) + Collect(ActiveIp(f, now, grace), ps) ensures IsIpText(f, s) {
      PeerMemberIsIpText(f, now, grace, ns, ps, s);
    }
    forall f, s | s in Collect(TrustedText(f), ts) ensures IsCidrText(f, s) {
      TrustedMemberIsCidrText(f, ts, s);
    }
  }

  lemma PeerMemberIsIpText(f: Family, now: int, grace: int, ns: seq<Node>, ps: seq<PendingPeer>, s: string)
    requires s in NodeIps(f, ns) + Collect(ActiveIp(f, now, grace), ps)
    ensures IsIpText(f, s)
  {
    hide PastTime, ParseBareIP, StripPrefix;
    if s in NodeIps(f, ns) {
      NodeIpsMembers(f, ns, s);
    } else {
      CollectMembers(ActiveIp(f, now, grace), ps, s);
      var p :| p in ps && ActiveIp(f, now, grace)(p) == Some(s);
      BareTextOfAccepted(p.ip.value);
    }
  }

  lemma TrustedMemberIsCidrText(f: Family, ts: seq<TrustedRange>, s: string)
    requires s in Collect(TrustedText(f), ts)
    ensures IsCidrText(f, s)
  {
    hide ParseIPOrCIDR, IsCidrText;
    CollectMembers(TrustedText(f), ts, s);
    var t :| t in ts && TrustedText(f)(t) == Some(s);
    AcceptedRangeIsCanonical(t.cidr.value);
  }

  /** The desired lists are determined by the objects. */
  lemma DesiredUnique(d: PeerSets, e: PeerSets, now: int, grace: int, ns: seq<Node>, ts: seq<TrustedRange>, ps: seq<PendingPeer>)
    requires IsDesired(d, now, grace, ns, ts, ps) && IsDesired(e, now, grace, ns, ts, ps)
    ensures d == e
  {
    hide NodeIps, Collect;
    SortedSetUnique(d.peersV4, e.peersV4);
    SortedSetUnique(d.peersV6, e.peersV6);
    SortedSetUnique(d.trustedV4, e.trustedV4);
    SortedSetUnique(d.trustedV6, e.trustedV6);
  }

  /** The address is an internal address of some node, or a pending peer in its time asks for it. */
  ghost predicate IsPeer(a: Addr, now: int, grace: int, ns: seq<Node>, ps: seq<PendingPeer>) {
    OnNode(a, ns) || exists p :: p in ps && AsksFor(p, a) && InTime(p, now, grace)
  }

  /** A pass that wrote leaves peer sets that match exactly the node addresses and the active pending
      addresses, the last address of a family aside. */
  lemma PassInstallsPeers(d: PeerSets, now: int, grace: int, ns: seq<Node>, ts: seq<TrustedRange>, ps: seq<PendingPeer>, a: Addr)
    requires IsDesired(d, now, grace, ns, ts, ps)
    ensures (exists s :: s in (if a.fam == V4 then d.peersV4 else d.peersV6) && IpNames(s, a))
            <==> IsPeer(a, now, grace, ns, ps) && !IsLast(a)
  {
    hide NodeIps, Collect, PastTime, ParseBareIP, StripPrefix;
    var f := a.fam;
    var members := NodeIps(f, ns) + Collect(ActiveIp(f, now, grace), ps);
    TextRoundTrip(a);
    if s :| s in members && IpNames(s, a) {
      PeerMemberIsIpText(f, now, grace, ns, ps, s);
      IpTextNames(f, s, a);
      MemberIsPeer(a, now, grace, ns, ps);
    }
    if IsPeer(a, now, grace, ns, ps) && !IsLast(a) {
      PeerIsMember(a, now, grace, ns, ps);
      PeerMemberIsIpText(f, now, grace, ns, ps, Text(a));
      IpTextNames(f, Text(a), a);
      assert Text(a) in members && IpNames(Text(a), a);
    }
  }

  /** Among canonical texts only its own text names an address. */
  lemma IpTextNames(f: Family, s: string, a: Addr)
    requires IsIpText(f, s) && a.fam == f
    ensures IpNames(s, a) ==> s == Text(a)
    ensures s == Text(a) && !IsLast(a) ==> IpNames(s, a)
  {
    hide Text;
    var b: Addr :| b.fam == f && !b.Is4In6() && Text(b) == s;
    TextRoundTrip(b);
    TextRoundTrip(a);
  }

  lemma MemberIsPeer(a: Addr, now: int, grace: int, ns: seq<Node>, ps: seq<PendingPeer>)
    requires Text(a) in NodeIps(a.fam, ns) + Collect(ActiveIp(a.fam, now, grace), ps)
    ensures IsPeer(a, now, grace, ns, ps)
  {
    hide NodeIps, Collect, PeerAddress, BareText, Text, OnNode, AsksFor;
    OnNodeExactly(a, ns);
    CollectMembers(ActiveIp(a.fam, now, grace), ps, Text(a));
    if p :| p in ps && ActiveIp(a.fam, now, grace)(p) == Some(Text(a)) {
      AcceptedAsks(p, a);
    }
  }

  lemma PeerIsMember(a: Addr, now: int, grace: int, ns: seq<Node>, ps: seq<PendingPeer>)
    requires IsPeer(a, now, grace, ns, ps)
    ensures Text(a) in NodeIps(a.fam, ns) + Collect(ActiveIp(a.fam, now, grace), ps)
  {
    hide NodeIps, Collect, PeerAddress, BareText, Text, OnNode, AsksFor;
    OnNodeExactly(a, ns);
    CollectMembers(ActiveIp(a.fam, now, grace), ps, Text(a));
    if p :| p in ps && AsksFor(p, a) && InTime(p, now, grace) {
      AcceptedAsks(p, a);
      assert ActiveIp(a.fam, now, grace)(p) == Some(Text(a));
    }
  }

  /** What the kernel matches after a pass wrote its desired sets: an address is in the peer set of its
      family exactly when it is a node address or an active pending address, the last address aside. */
  lemma PassMatchesPeers(d: PeerSets, now: int, grace: int, ns: seq<Node>, ts: seq<TrustedRange>, ps: seq<PendingPeer>, a: Addr)
    requires IsDesired(d, now, grace, ns, ts, ps)
    ensures var t := EncodedPeers(d);
      Matches((if a.fam == V4 then t.peersV4 else t.peersV6).elements, KeyLength(a.fam), a.val)
      <==> IsPeer(a, now, grace, ns, ps) && !IsLast(a)
  {
    hide IsDesired, Matches, Flatten, IpIntervals, CidrIntervals, IpNames, IsPeer;
    WrittenPeersDenote(d, a);
    PassInstallsPeers(d, now, grace, ns, ts, ps, a);
  }

  /** The address is one that the CIDR text of a trusted range stands for. */
  ghost predicate IsTrusted(a: Addr, ts: seq<TrustedRange>) {
    exists t :: t in ts && t.cidr.Some? && RangeNames(t.cidr.value, a)
  }

  lemma TrustedTextNames(a: Addr, t: TrustedRange)
    ensures TrustedText(a.fam)(t).Some? && CidrNames(TrustedText(a.fam)(t).value, a)
            <==> t.cidr.Some? && RangeNames(t.cidr.value, a)
  {
    hide CidrNames, ParseIPOrCIDR, RangeNames;
    if t.cidr.Some? {
      RangeNamesExactly(t.cidr.value, a);
      EmptyNamesNothing(a);
    }
  }

  lemma EmptyNamesNothing(a: Addr)
    ensures !RangeNames("", a)
  {
    if ParsePrefix("").Some? { PrefixParsedVisible(""); }
  }

  /** A desired range names an address if and only if the CIDR text of some trusted range stands for it. */
  lemma PassInstallsTrusted(d: PeerSets, now: int, grace: int, ns: seq<Node>, ts: seq<TrustedRange>, ps: seq<PendingPeer>, a: Addr)
    requires IsDesired(d, now, grace, ns, ts, ps)
    ensures (exists m :: m in (if a.fam == V4 then d.trustedV4 else d.trustedV6) && CidrNames(m, a)) <==> IsTrusted(a, ts)
  {
    hide CidrNames, TrustedText, RangeNames, NodeIps, Collect;
    var members := if a.fam == V4 then d.trustedV4 else d.trustedV6;
    if m :| m in members && CidrNames(m, a) {
      assert m in Collect(TrustedText(a.fam), ts);
      CollectMembers(TrustedText(a.fam), ts, m);
      var t :| t in ts && TrustedText(a.fam)(t) == Some(m);
      TrustedTextNames(a, t);
    }
    if t :| t in ts && t.cidr.Some? && RangeNames(t.cidr.value, a) {
      TrustedTextNames(a, t);
      CollectMembers(TrustedText(a.fam), ts, TrustedText(a.fam)(t).value);
    }
  }

  /** The same for the trusted sets: an address matches exactly when an accepted range names it. */
  lemma PassMatchesTrusted(d: PeerSets, now: int, grace: int, ns: seq<Node>, ts: seq<TrustedRange>, ps: seq<PendingPeer>, a: Addr)
    requires IsDesired(d, now, grace, ns, ts, ps)
    ensures var t := EncodedPeers(d);
      Matches((if a.fam == V4 then t.trustedV4 else t.trustedV6).elements, KeyLength(a.fam), a.val) <==> IsTrusted(a, ts)
  {
    hide IsDesired, Matches, Flatten, IpIntervals, CidrIntervals, CidrNames, IsTrusted;
    WrittenPeersDenote(d, a);
    PassInstallsTrusted(d, now, grace, ns, ts, ps, a);
  }

  /** A pass in which no write fails succeeds from any kernel, missing sets included: either all four sets
      were read and read as desired, and stay as they are, or they match exactly the addresses of nodes and
      of pending peers in time, the last one of a family aside, and those of the trusted ranges. */
  lemma FaultFreePass(d: PeerSets, now: int, grace: int, ns: seq<Node>, ts: seq<TrustedRange>, ps: seq<PendingPeer>, t: PeerTables,
                      x: PeerFaults, a: Addr)
    requires IsDesired(d, now, grace, ns, ts, ps)
    ensures var (left, changed, ok) := PeersIfChanged(t, d, x, NoFault);
      var peers, trusted := if a.fam == V4 then left.peersV4 else left.peersV6, if a.fam == V4 then left.trustedV4 else left.trustedV6;
      && ok
      && (!changed ==> left == t && PeersObserved(t, x) == Some(d))
      && (changed ==> peers.Holding? && trusted.Holding?)
      && (changed ==> (Matches(peers.elements, KeyLength(a.fam), a.val) <==> IsPeer(a, now, grace, ns, ps) && !IsLast(a)))
      && (changed ==> (Matches(trusted.elements, KeyLength(a.fam), a.val) <==> IsTrusted(a, ts)))
  {
    DesiredIsCanonical(d, now, grace, ns, ts, ps);
    CanonicalMembers(d);
    hide IsDesired, Matches, PeersIfChanged, PeersObserved, PeerMembers, IpNames, CidrNames, IsPeer, IsTrusted, CanonicalPeers;
    StepExactly(t, d, x, NoFault);
    PassInstallsPeers(d, now, grace, ns, ts, ps, a);
    PassInstallsTrusted(d, now, grace, ns, ts, ps, a);
  }

  /** A pass that wrote, followed by a pass over the same objects at a time when the same peers are active,
      on an untouched kernel: the second writes nothing exactly when no desired member ends at the top and
      none was lost in the first write. */
  lemma SecondPassQuiet(d: PeerSets, e: PeerSets, now: int, later: int, grace: int, ns: seq<Node>, ts: seq<TrustedRange>,
                        ps: seq<PendingPeer>, t: PeerTables, x: PeerFaults, fault: ApplyFault, fault': ApplyFault)
    requires IsDesired(d, now, grace, ns, ts, ps) && IsDesired(e, later, grace, ns, ts, ps)
    requires forall p :: p in ps ==> Active(p, now, grace) == Active(p, later, grace)
    requires PeersIfChanged(t, d, x, fault).1
    ensures var left := PeersIfChanged(t, d, x, fault).0;
      PeersIfChanged(left, e, NO_PEER_FAULTS, fault') == (left, false, true) <==> PeersBelowTop(d) && NothingLost(d, fault)
  {
    hide PeersIfChanged, PeersWritten, EncodedPeers, PeersBelowTop, NothingLost, NodeIps, SortedSetOf;
    SameActive(V4, now, later, grace, ps);
    SameActive(V6, now, later, grace, ps);
    assert IsDesired(e, now, grace, ns, ts, ps);
    hide IsDesired;
    DesiredUnique(d, e, now, grace, ns, ts, ps);
    DesiredIsCanonical(d, now, grace, ns, ts, ps);
    ApplyThenQuiet(t, d, x, fault, fault');
  }

  lemma {:induction false} SameActive(f: Family, now: int, later: int, grace: int, ps: seq<PendingPeer>)
    requires forall p :: p in ps ==> Active(p, now, grace) == Active(p, later, grace)
    ensures Collect(ActiveIp(f, now, grace), ps) == Collect(ActiveIp(f, later, grace), ps)
  {
    hide Active;
    if ps != [] {
      assert ps[0] in ps;
      SameActive(f, now, later, grace, ps[1..]);
    }
  }
}
