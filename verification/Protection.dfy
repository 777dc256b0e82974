/** Whether what the peer pass trusts is also what the blocklist must never drop. */
module Protection {
  import opened Texts
  import opened Collecting
  import opened Addresses
  import opened IpText
  import opened Validation
  import opened Blocklists
  import opened CrowdsecInput
  import opened CrowdsecFilter
  import opened CrowdsecLoop
  import opened PeerReconcile

  // ---- one trusted range -----------------------------------------------------

  /** The exclusions that a cluster with one trusted range and nothing else gets. */
  function OnlyRange(raw: string): ExclusionSet { Split(Sources("", [], [Some(raw)], [])) }

  /** The blocklist side reads the text as a prefix, untrimmed, and leaves its family alone. */
  predicate ReadByBoth(raw: string) { ParsePrefix(raw).Some? && !ParsePrefix(raw).value.addr.Is4In6() }

  lemma OneSource(raw: string)
    ensures Sources("", [], [Some(raw)], []) == match ParseCIDRSafely(raw) case Some(e) => [e] case None => []
  {
    hide Collect, ParseCIDRSafely, ParsePending;
    CollectEmpty(ParseCIDRSafely);
    CollectOne(ParseTrusted, Some(raw));
    CollectEmpty(ParsePending);
  }

  lemma OnlyRangeExcludes(raw: string, a: Addr)
    ensures Excluded(OnlyRange(raw), a) <==> ParseCIDRSafely(raw).Some? && Covers(ParseCIDRSafely(raw).value, a)
  {
    hide ParseCIDRSafely, Covers, Sources, Split;
    var ps := Sources("", [], [Some(raw)], []);
    OneSource(raw);
    if Excluded(OnlyRange(raw), a) {
      var e :| e in FamilyExclusions(OnlyRange(raw), a.fam) && Covers(e, a);
      SplitMembers(ps, e);
      CoversFamily(e, a);
    }
    if ParseCIDRSafely(raw).Some? && Covers(ParseCIDRSafely(raw).value, a) {
      SplitMembers(ps, ParseCIDRSafely(raw).value);
      CoversFamily(ParseCIDRSafely(raw).value, a);
    }
  }

  /** An address that a trusted range stands for is excluded by that range if and only if the text is a
      prefix without blanks around it, over addresses that are not mapped. */
  lemma TrustedIsExcludedExactly(raw: string, a: Addr)
    requires RangeNames(raw, a)
    ensures Excluded(OnlyRange(raw), a) <==> ReadByBoth(raw)
  {
    hide Covers, ParsePrefix, ParseAddr, UnmapPrefix, TrimSpace, Unmap, Excluded, OnlyRange;
    OnlyRangeExcludes(raw, a);
    if ParsePrefix(raw).Some? {
      var p := ParsePrefix(raw).value;
      PrefixParsedVisible(raw);
      VisibleTrims(raw);
      CoversFamily(p, a);
      if p.addr.Is4In6() {
        UnmappedFamily(p);
        CoversFamily(UnmapPrefix(p), a);
      } else {
        UnmapPrefixIdentity(p);
      }
    }
  }

  lemma UnmappedFamily(p: Prefix)
    requires p.addr.Is4In6()
    ensures p.addr.fam == V6 && UnmapPrefix(p).addr.fam == V4
  {
    UnmapPrefixDenotes(p, 0);
  }

  /** A trusted bare address, which the peer pass installs as a single host, is excluded by nothing. */
  lemma BareTrustedEscapes(a: Addr)
    requires !a.Is4In6()
    ensures RangeNames(Text(a), a) && !Excluded(OnlyRange(Text(a)), a)
  {
    hide Text, Covers, Unmap, Excluded, OnlyRange;
    TextRoundTrip(a);
    TextVisible(a);
    VisibleTrims(Text(a));
    BareIsNoPrefix(a);
    UnmapUnmapped(a);
    TrustedIsExcludedExactly(Text(a), a);
  }

  lemma BareIsNoPrefix(a: Addr)
    ensures ParsePrefix(Text(a)) == None
  {
    hide Text;
    TextRoundTrip(a);
    SplitOnFree(Text(a), '/');
  }

  lemma BareExcludesNothing(a: Addr)
    ensures OnlyRange(Text(a)) == ExclusionSet([], [])
  {
    hide Text, ParsePrefix, Sources, Collect;
    BareIsNoPrefix(a);
    OneSource(Text(a));
    CollectEmpty(InFamily(V4));
    CollectEmpty(InFamily(V6));
  }

  lemma NothingContains(p: Prefix)
    ensures !Contained(p, [])
  {
  }

  lemma UnmapUnmapped(a: Addr)
    requires !a.Is4In6()
    ensures Unmap(a) == a
  {
  }

  function HostBan(a: Addr, ttl: int): Blocklist {
    if a.fam.V4? then Blocklist([HostPrefix(a)], [], [ttl], []) else Blocklist([], [HostPrefix(a)], [], [ttl])
  }

  /** So a ban on an address that is trusted as a bare address goes through the filter into the kernel. */
  lemma BareTrustedIsDropped(a: Addr, ttl: int, out: Blocklist)
    requires !a.Is4In6() && ttl > 0
    requires Pipeline(HostBan(a, ttl), OnlyRange(Text(a)), out)
    ensures RangeNames(Text(a), a) && Dropped(out, a)
  {
    hide CapOutcome, Kept, Contained, Dropped, Text, Covers, OnlyRange, Excluded, RangeNames;
    BareTrustedEscapes(a);
    var b := Ban(HostPrefix(a), ttl);
    var exs := FamilyExclusions(OnlyRange(Text(a)), a.fam);
    assert FamilyBans(HostBan(a, ttl), a.fam) == [b];
    BareExcludesNothing(a);
    NothingContains(b.prefix);
    KeptIsShorter([b], exs);
    PipelineConserves([b], exs, FamilyBans(out, a.fam));
    assert b in [b];
    HostCovers(a, a);
    BanDropsAddress(out, b, a);
  }

  // ---- the whole cluster -----------------------------------------------------

  function RangeTexts(ts: seq<TrustedRange>): (r: seq<Option<string>>)
    ensures |r| == |ts| && forall i :: 0 <= i < |ts| ==> r[i] == ts[i].cidr
  {
    seq(|ts|, i requires 0 <= i < |ts| => ts[i].cidr)
  }

  function PeerTexts(ps: seq<PendingPeer>): (r: seq<Option<string>>)
    ensures |r| == |ps| && forall i :: 0 <= i < |ps| ==> r[i] == ps[i].ip
  {
    seq(|ps|, i requires 0 <= i < |ps| => ps[i].ip)
  }

  /** What buildExclusionSet makes of the objects that the peer pass reads. */
  function ClusterExclusions(serviceCidr: string, ns: seq<Node>, ts: seq<TrustedRange>, ps: seq<PendingPeer>): ExclusionSet {
    Split(Sources(serviceCidr, ns, RangeTexts(ts), PeerTexts(ps)))
  }

  /** Every address in the peer sets is excluded from the blocklist. */
  lemma PeersAreExcluded(serviceCidr: string, ns: seq<Node>, ts: seq<TrustedRange>, ps: seq<PendingPeer>, now: int, grace: int,
                         a: Addr)
    requires IsPeer(a, now, grace, ns, ps)
    ensures Excluded(ClusterExclusions(serviceCidr, ns, ts, ps), a)
  {
    hide Excluded, Split, Sources, InTime, Text, ParseAddr, Unmap, TrimSpace;
    if OnNode(a, ns) {
      var n, na :| n in ns && na in n.addresses && na.kind == InternalIP && ParseAddr(na.address).Some? &&
                   Unmap(ParseAddr(na.address).value) == a;
      NodeAddressesExcluded(serviceCidr, ns, RangeTexts(ts), PeerTexts(ps), n, na);
    } else {
      var p :| p in ps && AsksFor(p, a) && InTime(p, now, grace);
      var i :| 0 <= i < |ps| && ps[i] == p;
      assert PeerTexts(ps)[i] == p.ip;
      PendingPeersExcluded(serviceCidr, ns, RangeTexts(ts), PeerTexts(ps), p.ip.value);
    }
  }

  /** An address in the trusted sets is excluded when some range that stands for it is read by both sides;
      TrustedIsExcludedExactly says that a range read otherwise contributes nothing for it. */
  lemma TrustedAreExcluded(serviceCidr: string, ns: seq<Node>, ts: seq<TrustedRange>, ps: seq<PendingPeer>, t: TrustedRange,
                           a: Addr)
    requires t in ts && t.cidr.Some? && RangeNames(t.cidr.value, a) && ReadByBoth(t.cidr.value)
    ensures IsTrusted(a, ts) && Excluded(ClusterExclusions(serviceCidr, ns, ts, ps), a)
  {
    hide Excluded, Split, Sources, Covers, ParsePrefix, RangeNames, UnmapPrefix, OnlyRange;
    var raw := t.cidr.value;
    TrustedIsExcludedExactly(raw, a);
    OnlyRangeExcludes(raw, a);
    var i :| 0 <= i < |ts| && ts[i] == t;
    assert RangeTexts(ts)[i] == Some(raw);
    TrustedRangesExcluded(serviceCidr, ns, RangeTexts(ts), PeerTexts(ps), raw, a);
  }

  /** With every range read by both sides, whatever the firewall accepts as peer or trusted is excluded. */
  lemma AcceptedAreExcluded(serviceCidr: string, ns: seq<Node>, ts: seq<TrustedRange>, ps: seq<PendingPeer>, now: int, grace: int,
                            a: Addr)
    requires IsPeer(a, now, grace, ns, ps) || IsTrusted(a, ts)
    requires forall t :: t in ts && t.cidr.Some? && ParseIPOrCIDR(t.cidr.value).Some? ==> ReadByBoth(t.cidr.value)
    ensures Excluded(ClusterExclusions(serviceCidr, ns, ts, ps), a)
  {
    hide Excluded, ClusterExclusions, IsPeer, RangeNames, ReadByBoth, ParseIPOrCIDR;
    if IsPeer(a, now, grace, ns, ps) {
      PeersAreExcluded(serviceCidr, ns, ts, ps, now, grace, a);
    } else {
      var t :| t in ts && t.cidr.Some? && RangeNames(t.cidr.value, a);
      RangeNamesExactly(t.cidr.value, a);
      TrustedAreExcluded(serviceCidr, ns, ts, ps, t, a);
    }
  }
}
