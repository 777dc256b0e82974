/** Where bans and exclusions come from: the decision stream and the cluster objects. */
module CrowdsecInput {
  import opened Texts
  import opened Collecting
  import opened Addresses
  import opened IpText
  import opened Blocklists
  import opened Validation

  /** Prefixes of one family with no mapped address among them. */
  ghost predicate Normal(f: Family, ps: seq<Prefix>) {
    forall p :: p in ps ==> p.addr.fam == f && !p.addr.Is4In6()
  }

  /** A bare address as a single-host prefix. */
  function HostPrefix(a: Addr): Prefix { RawPrefix.Prefix(a, Width(a.fam)) }

  // ---- decisions -------------------------------------------------------------

  /** parseLAPIValue: a bare address or a CIDR, unmapped. */
  function ParseLAPIValue(s: string): (r: Option<Prefix>)
    ensures r.Some? ==> !r.value.addr.Is4In6()
  {
    if '/' in s then
      (match ParsePrefix(s) case Some(p) => Some(UnmapPrefix(p)) case None => None)
    else
      (match ParseAddr(s) case Some(a) => Some(HostPrefix(Unmap(a))) case None => None)
  }

  /** Printed prefixes and addresses are accepted, unmapped; an address becomes a single host. */
  lemma LapiValueReads(p: Prefix, a: Addr)
    ensures ParseLAPIValue(PrefixText(p)) == Some(UnmapPrefix(p))
    ensures ParseLAPIValue(Text(a)) == Some(HostPrefix(Unmap(a)))
  {
    hide Text, ParseAddr, ParsePrefix, UnmapPrefix, Unmap;
    PrefixRoundTrip(p);
    assert PrefixText(p)[|Text(p.addr)|] == '/';
    TextRoundTrip(a);
  }

  /** A decision after JSON decoding; the duration is already parsed, none when malformed. */
  datatype Decision = Decision(value: string, kind: string, scope: string, duration: Option<int>)

  /** What a decision contributes: bans on addresses or ranges with time left. */
  function Accepted(d: Decision): (r: Option<Ban>)
    ensures r.Some? ==> !r.value.prefix.addr.Is4In6() && r.value.ttl > 0
  {
    if d.kind != "ban" || (d.scope != "Ip" && d.scope != "Range") then None
    else
      match ParseLAPIValue(d.value)
      case Some(p) => if d.duration.Some? && d.duration.value > 0 then Some(Ban(p, d.duration.value)) else None
      case None => None
  }

  function AcceptedOf(f: Family): Decision -> Option<Ban> {
    d => match Accepted(d) case Some(b) => if b.prefix.addr.fam == f then Some(b) else None case None => None
  }

  /** The decision bans the prefix for the time: of type "ban", on an address or a range, its duration still
      positive, its value a CIDR or a bare address, unmapped. */
  ghost predicate Orders(d: Decision, b: Ban) {
    && d.kind == "ban" && (d.scope == "Ip" || d.scope == "Range")
    && d.duration == Some(b.ttl) && b.ttl > 0
    && (if '/' in d.value then ParsePrefix(d.value).Some? && b.prefix == UnmapPrefix(ParsePrefix(d.value).value)
        else ParseAddr(d.value).Some? &&
             (var a := Unmap(ParseAddr(d.value).value); b.prefix == RawPrefix.Prefix(a, if a.fam.V4? then 32 else 128)))
  }

  lemma AcceptedExactly(d: Decision, b: Ban)
    ensures Accepted(d) == Some(b) <==> Orders(d, b)
  {
    hide ParseAddr, ParsePrefix, UnmapPrefix, Unmap;
  }

  lemma StreamExactly(ds: seq<Decision>, f: Family, b: Ban)
    ensures b in Collect(AcceptedOf(f), ds) <==> b.prefix.addr.fam == f && exists d :: d in ds && Orders(d, b)
  {
    hide Collect, Accepted, Orders;
    CollectMembers(AcceptedOf(f), ds, b);
    forall d ensures Accepted(d) == Some(b) <==> Orders(d, b) {
      AcceptedExactly(d, b);
    }
    if d :| d in ds && AcceptedOf(f)(d) == Some(b) {
      assert Orders(d, b);
    }
    if d :| b.prefix.addr.fam == f && d in ds && Orders(d, b) {
      assert AcceptedOf(f)(d) == Some(b);
    }
  }

  lemma NoBans()
    ensures Bans([], []) == []
  {
  }

  lemma BansAppend(ps: seq<Prefix>, ttls: seq<int>, p: Prefix, ttl: int)
    requires |ps| == |ttls|
    ensures Bans(ps + [p], ttls + [ttl]) == Bans(ps, ttls) + [Ban(p, ttl)]
  {
  }

  /** parseLAPIStream: the accepted decisions of each family, in order, index-aligned and unmapped. */
  method ParseLAPIStream(ds: seq<Decision>) returns (bl: Blocklist)
    ensures bl.Aligned()
    ensures FamilyBans(bl, V4) == Collect(AcceptedOf(V4), ds)
    ensures FamilyBans(bl, V6) == Collect(AcceptedOf(V6), ds)
    ensures Normal(V4, bl.v4) && Normal(V6, bl.v6)
    ensures forall f, b :: b in FamilyBans(bl, f) ==> b.ttl > 0
    ensures forall f, b :: b in FamilyBans(bl, f) <==> b.prefix.addr.fam == f && exists d :: d in ds && Orders(d, b)
  {
    hide ParseLAPIValue, Bans, Collect, Orders;
    CollectEmpty(AcceptedOf(V4));
    CollectEmpty(AcceptedOf(V6));
    NoBans();
    var v4: seq<Prefix>, ttl4: seq<int>, v6: seq<Prefix>, ttl6: seq<int> := [], [], [], [];
    for i := 0 to |ds|
      invariant |v4| == |ttl4| && Bans(v4, ttl4) == Collect(AcceptedOf(V4), ds[..i])
      invariant |v6| == |ttl6| && Bans(v6, ttl6) == Collect(AcceptedOf(V6), ds[..i])
    {
      var d := ds[i];
      assert ds[..i + 1] == ds[..i] + [d];
      CollectAppend(AcceptedOf(V4), ds[..i], d);
      CollectAppend(AcceptedOf(V6), ds[..i], d);
      if d.kind != "ban" {
        continue;
      }
      if d.scope != "Ip" && d.scope != "Range" {
        continue;
      }
      var parsed := ParseLAPIValue(d.value);
      if parsed.None? {
        continue;
      }
      if d.duration.None? || d.duration.value <= 0 {
        continue;
      }
      var p, ttl := parsed.value, d.duration.value;
      if p.addr.Is4() {
        BansAppend(v4, ttl4, p, ttl);
        v4, ttl4 := v4 + [p], ttl4 + [ttl];
      } else {
        BansAppend(v6, ttl6, p, ttl);
        v6, ttl6 := v6 + [p], ttl6 + [ttl];
      }
    }
    assert ds[..|ds|] == ds;
    StreamIsNormal(ds, V4, v4, ttl4);
    StreamIsNormal(ds, V6, v6, ttl6);
    StreamIsLive(ds);
    forall f, b ensures b in Collect(AcceptedOf(f), ds) <==> b.prefix.addr.fam == f && exists d :: d in ds && Orders(d, b) {
      StreamExactly(ds, f, b);
    }
    return Blocklist(v4, v6, ttl4, ttl6);
  }

  lemma StreamIsNormal(ds: seq<Decision>, f: Family, ps: seq<Prefix>, ttls: seq<int>)
    requires Bans(ps, ttls) == Collect(AcceptedOf(f), ds)
    ensures Normal(f, ps)
  {
    hide ParseLAPIValue;
    forall p | p in ps ensures p.addr.fam == f && !p.addr.Is4In6() {
      var i :| 0 <= i < |ps| && ps[i] == p;
      CollectMembers(AcceptedOf(f), ds, Bans(ps, ttls)[i]);
    }
  }

  lemma StreamIsLive(ds: seq<Decision>)
    ensures forall f, b :: b in Collect(AcceptedOf(f), ds) ==> b.ttl > 0
  {
    hide ParseLAPIValue, Collect;
    forall f, b | b in Collect(AcceptedOf(f), ds) ensures b.ttl > 0 {
      CollectMembers(AcceptedOf(f), ds, b);
    }
  }

  // ---- exclusions ------------------------------------------------------------

  datatype ExclusionSet = ExclusionSet(v4: seq<Prefix>, v6: seq<Prefix>)

  function FamilyExclusions(ex: ExclusionSet, f: Family): seq<Prefix> { if f.V4? then ex.v4 else ex.v6 }

  ghost predicate NormalExclusions(ex: ExclusionSet) { Normal(V4, ex.v4) && Normal(V6, ex.v6) }

  /** The address is covered by an exclusion of its family. */
  ghost predicate Excluded(ex: ExclusionSet, a: Addr) {
    exists e :: e in FamilyExclusions(ex, a.fam) && Covers(e, a)
  }

  /** parseCIDRSafely. */
  function ParseCIDRSafely(s: string): (r: Option<Prefix>)
    ensures r.Some? ==> !r.value.addr.Is4In6()
  {
    match ParsePrefix(s) case Some(p) => Some(UnmapPrefix(p)) case None => None
  }

  /** A bare address text as an excluded host. */
  function ParseHost(s: string): (r: Option<Prefix>)
    ensures r.Some? ==> !r.value.addr.Is4In6()
  {
    match ParseAddr(s) case Some(a) => Some(HostPrefix(Unmap(a))) case None => None
  }

  datatype AddressKind = InternalIP | ExternalIP | OtherKind

  datatype NodeAddress = NodeAddress(kind: AddressKind, address: string)

  datatype Node = Node(podCidr: string, podCidrs: seq<string>, addresses: seq<NodeAddress>)

  function PodCidrText(n: Node): string -> Option<string> {
    raw => var c := TrimSpace(raw); if c == "" || c == n.podCidr then None else Some(c)
  }

  function PodCidrTexts(n: Node): seq<string> {
    var c := TrimSpace(n.podCidr);
    (if c != "" then [c] else []) + Collect(PodCidrText(n), n.podCidrs)
  }

  /** podCIDRsFromNode: both fields trimmed, blanks and entries that repeat the single field dropped. */
  method PodCIDRsFromNode(n: Node) returns (out: seq<string>)
    ensures out == PodCidrTexts(n)
    ensures forall c :: c in out <==> c != "" && exists raw :: (raw == n.podCidr || raw in n.podCidrs) && c == TrimSpace(raw)
  {
    hide TrimSpace;
    out := [];
    var c := TrimSpace(n.podCidr);
    if c != "" {
      out := out + [c];
    }
    ghost var first := out;
    for i := 0 to |n.podCidrs|
      invariant out == first + Collect(PodCidrText(n), n.podCidrs[..i])
    {
      assert n.podCidrs[..i + 1] == n.podCidrs[..i] + [n.podCidrs[i]];
      CollectAppend(PodCidrText(n), n.podCidrs[..i], n.podCidrs[i]);
      var d := TrimSpace(n.podCidrs[i]);
      if d == "" || d == n.podCidr {
        continue;
      }
      out := out + [d];
    }
    assert n.podCidrs[..|n.podCidrs|] == n.podCidrs;
    forall c
      ensures c in out <==> c != "" && exists raw :: (raw == n.podCidr || raw in n.podCidrs) && c == TrimSpace(raw)
    {
      PodTextsExactly(n, c);
    }
  }

  function ParseNodeAddress(a: NodeAddress): (r: Option<Prefix>)
    ensures r.Some? ==> !r.value.addr.Is4In6()
  {
    if a.kind == InternalIP || a.kind == ExternalIP then ParseHost(a.address) else None
  }

  /** The text of a ClusterTrustedRange's CIDR, none when the spec lacks it. */
  function ParseTrusted(cidr: Option<string>): (r: Option<Prefix>)
    ensures r.Some? ==> !r.value.addr.Is4In6()
  {
    match cidr case Some(c) => ParseCIDRSafely(c) case None => None
  }

  /** The host of a ClusterPendingPeer's address, none when the spec lacks it or it is refused. */
  function ParsePending(ip: Option<string>): (r: Option<Prefix>)
    ensures r.Some? ==> !r.value.addr.Is4In6()
  {
    match ip
    case Some(s) => (match ParseBareIP(s) case Some(c) => ParseHost(StripPrefix(c.text)) case None => None)
    case None => None
  }

  function NodeSources(n: Node): seq<Prefix> {
    Collect(ParseCIDRSafely, PodCidrTexts(n)) + Collect(ParseNodeAddress, n.addresses)
  }

  function NodesSources(ns: seq<Node>): seq<Prefix> {
    if ns == [] then [] else NodesSources(ns[..|ns| - 1]) + NodeSources(ns[|ns| - 1])
  }

  /** A lister: absent, failing, or its objects. */
  datatype Listing<+T> = Unlisted | ListFails | Listed(items: seq<T>)

  function Items<T>(l: Listing<T>): seq<T> { if l.Listed? then l.items else [] }

  /** Every prefix that must not be dropped, in the order the builder meets them. */
  function Sources(serviceCidr: string, ns: seq<Node>, trusted: seq<Option<string>>, pending: seq<Option<string>>): seq<Prefix> {
    Collect(ParseCIDRSafely, if serviceCidr != "" then [serviceCidr] else []) + NodesSources(ns) +
    Collect(ParseTrusted, trusted) + Collect(ParsePending, pending)
  }

  function InFamily(f: Family): Prefix -> Option<Prefix> {
    (p: Prefix) => if p.addr.fam == f then Some(p) else None
  }

  function OfFamily(f: Family, ps: seq<Prefix>): seq<Prefix> { Collect(InFamily(f), ps) }

  function Split(ps: seq<Prefix>): ExclusionSet { ExclusionSet(OfFamily(V4, ps), OfFamily(V6, ps)) }

  lemma SplitMembers(ps: seq<Prefix>, e: Prefix)
    ensures e in FamilyExclusions(Split(ps), e.addr.fam) <==> e in ps
    ensures forall f :: e in FamilyExclusions(Split(ps), f) ==> e.addr.fam == f
  {
    CollectMembers(InFamily(V4), ps, e);
    CollectMembers(InFamily(V6), ps, e);
  }

  // ---- what is excluded, told from the objects -------------------------------

  /** The text reads as a range that the address, unmapped, lies in. */
  ghost predicate RangeCovers(text: string, a: Addr) {
    ParsePrefix(text).Some? && Covers(UnmapPrefix(ParsePrefix(text).value), a)
  }

  /** Some pod range of a node covers the address: the single field or one of the list, trimmed. */
  ghost predicate InPodRange(ns: seq<Node>, a: Addr) {
    exists n, raw :: n in ns && (raw == n.podCidr || raw in n.podCidrs) && RangeCovers(TrimSpace(raw), a)
  }

  /** The address is an internal or external one of a node. */
  ghost predicate IsNodeAddress(ns: seq<Node>, a: Addr) {
    exists n, na :: n in ns && na in n.addresses && (na.kind == InternalIP || na.kind == ExternalIP) &&
                    ParseAddr(na.address).Some? && Unmap(ParseAddr(na.address).value) == a
  }

  /** A trusted range, read as it is, covers the address. */
  ghost predicate InTrustedRange(trusted: seq<Option<string>>, a: Addr) {
    exists c :: Some(c) in trusted && RangeCovers(c, a)
  }

  /** A pending peer asks for the address. */
  ghost predicate IsPendingAddress(pending: seq<Option<string>>, a: Addr) {
    exists ip :: Some(ip) in pending && ParseAddr(TrimSpace(ip)).Some? && Unmap(ParseAddr(TrimSpace(ip)).value) == a
  }

  /** The address must not be dropped. */
  ghost predicate Shielded(serviceCidr: string, ns: seq<Node>, trusted: seq<Option<string>>, pending: seq<Option<string>>, a: Addr) {
    RangeCovers(serviceCidr, a) || InPodRange(ns, a) || IsNodeAddress(ns, a) || InTrustedRange(trusted, a) ||
    IsPendingAddress(pending, a)
  }

  /** The pod range texts of a node are its two fields, trimmed, without the blank ones. */
  lemma PodTextsExactly(n: Node, c: string)
    ensures c in PodCidrTexts(n) <==> c != "" && exists raw :: (raw == n.podCidr || raw in n.podCidrs) && c == TrimSpace(raw)
  {
    hide TrimBy;
    CollectMembers(PodCidrText(n), n.podCidrs, c);
    if raw :| c != "" && raw in n.podCidrs && c == TrimSpace(raw) {
      if c == n.podCidr {
        TrimTwice(IsSpace, raw);
      } else {
        assert PodCidrText(n)(raw) == Some(c);
      }
    }
  }

  lemma NoRangeInNothing(a: Addr)
    ensures !RangeCovers("", a)
  {
    if ParsePrefix("").Some? { PrefixParsedVisible(""); }
  }

  lemma {:induction false} NodesSourcesMembers(ns: seq<Node>, e: Prefix)
    ensures e in NodesSources(ns) <==> exists n :: n in ns && e in NodeSources(n)
  {
    hide NodeSources;
    if ns != [] {
      var init, last := ns[..|ns| - 1], ns[|ns| - 1];
      NodesSourcesMembers(init, e);
      assert forall n :: n in ns <==> n in init || n == last;
    }
  }

  lemma SomeCovers(ps: seq<Prefix>, a: Addr)
    ensures Excluded(Split(ps), a) <==> exists e :: e in ps && Covers(e, a)
  {
    hide Split, Covers;
    if e :| e in FamilyExclusions(Split(ps), a.fam) && Covers(e, a) {
      SplitMembers(ps, e);
    }
    if e :| e in ps && Covers(e, a) {
      SplitMembers(ps, e);
      CoversFamily(e, a);
    }
  }

  /** A source list covers an address when one of the objects it is made of does. */
  lemma CollectCovers<T(!new)>(parse: T -> Option<Prefix>, xs: seq<T>, a: Addr)
    ensures (exists e :: e in Collect(parse, xs) && Covers(e, a))
            <==> exists x :: x in xs && parse(x).Some? && Covers(parse(x).value, a)
  {
    hide Collect, Covers;
    if e :| e in Collect(parse, xs) && Covers(e, a) {
      CollectMembers(parse, xs, e);
      var x :| x in xs && parse(x) == Some(e);
    }
    if x :| x in xs && parse(x).Some? && Covers(parse(x).value, a) {
      CollectMembers(parse, xs, parse(x).value);
    }
  }

  lemma PodSources(n: Node, a: Addr)
    ensures (exists e :: e in Collect(ParseCIDRSafely, PodCidrTexts(n)) && Covers(e, a))
            <==> exists raw :: (raw == n.podCidr || raw in n.podCidrs) && RangeCovers(TrimSpace(raw), a)
  {
    hide TrimSpace, Collect, Covers, PodCidrTexts, ParsePrefix, UnmapPrefix;
    CollectCovers(ParseCIDRSafely, PodCidrTexts(n), a);
    if c :| c in PodCidrTexts(n) && ParseCIDRSafely(c).Some? && Covers(ParseCIDRSafely(c).value, a) {
      PodTextsExactly(n, c);
    }
    if raw :| (raw == n.podCidr || raw in n.podCidrs) && RangeCovers(TrimSpace(raw), a) {
      NoRangeInNothing(a);
      PodTextsExactly(n, TrimSpace(raw));
    }
  }

  lemma AddressSources(n: Node, a: Addr)
    ensures (exists e :: e in Collect(ParseNodeAddress, n.addresses) && Covers(e, a))
            <==> exists na :: na in n.addresses && (na.kind == InternalIP || na.kind == ExternalIP) &&
                              ParseAddr(na.address).Some? && Unmap(ParseAddr(na.address).value) == a
  {
    hide Collect, Covers, ParseAddr, Unmap;
    CollectCovers(ParseNodeAddress, n.addresses, a);
    forall b: Addr ensures Covers(HostPrefix(b), a) <==> a == b {
      HostCovers(b, a);
    }
  }

  lemma NodesCover(ns: seq<Node>, a: Addr)
    ensures (exists e :: e in NodesSources(ns) && Covers(e, a)) <==> InPodRange(ns, a) || IsNodeAddress(ns, a)
  {
    hide NodesSources, Collect, Covers, RangeCovers, TrimSpace, ParseAddr, Unmap, PodCidrTexts;
    if e :| e in NodesSources(ns) && Covers(e, a) {
      NodesSourcesMembers(ns, e);
      var n :| n in ns && e in NodeSources(n);
      PodSources(n, a);
      AddressSources(n, a);
    }
    if n, raw :| n in ns && (raw == n.podCidr || raw in n.podCidrs) && RangeCovers(TrimSpace(raw), a) {
      PodSources(n, a);
      var e :| e in Collect(ParseCIDRSafely, PodCidrTexts(n)) && Covers(e, a);
      NodesSourcesMembers(ns, e);
    }
    if n, na :| n in ns && na in n.addresses && (na.kind == InternalIP || na.kind == ExternalIP) &&
                ParseAddr(na.address).Some? && Unmap(ParseAddr(na.address).value) == a {
      AddressSources(n, a);
      var e :| e in Collect(ParseNodeAddress, n.addresses) && Covers(e, a);
      NodesSourcesMembers(ns, e);
    }
  }

  lemma ServiceCovers(serviceCidr: string, a: Addr)
    ensures (exists e :: e in Collect(ParseCIDRSafely, if serviceCidr != "" then [serviceCidr] else []) && Covers(e, a))
            <==> RangeCovers(serviceCidr, a)
  {
    hide Collect, Covers, ParsePrefix, UnmapPrefix;
    var service := if serviceCidr != "" then [serviceCidr] else [];
    CollectCovers(ParseCIDRSafely, service, a);
    NoRangeInNothing(a);
    if serviceCidr != "" { assert serviceCidr in service; }
  }

  lemma TrustedCover(trusted: seq<Option<string>>, a: Addr)
    ensures (exists e :: e in Collect(ParseTrusted, trusted) && Covers(e, a)) <==> InTrustedRange(trusted, a)
  {
    hide Collect, Covers, ParsePrefix, UnmapPrefix;
    CollectCovers(ParseTrusted, trusted, a);
    if c :| Some(c) in trusted && RangeCovers(c, a) {
      assert ParseTrusted(Some(c)).Some?;
    }
  }

  lemma UnmapTwice(b: Addr)
    ensures Unmap(Unmap(b)) == Unmap(b)
  {
  }

  lemma PendingParses(ip: string)
    ensures ParsePending(Some(ip)) ==
            (match ParseAddr(TrimSpace(ip)) case Some(b) => Some(HostPrefix(Unmap(b))) case None => None)
  {
    hide TrimSpace, ParseAddr, Unmap, StripPrefix, Text;
    if ParseBareIP(ip).Some? {
      BareTextOfAccepted(ip);
      TextRoundTrip(Unmap(ParseAddr(TrimSpace(ip)).value));
      UnmapTwice(ParseAddr(TrimSpace(ip)).value);
    }
  }

  lemma PendingHolds(ip: string, a: Addr)
    ensures ParsePending(Some(ip)).Some? && Covers(ParsePending(Some(ip)).value, a)
            <==> ParseAddr(TrimSpace(ip)).Some? && Unmap(ParseAddr(TrimSpace(ip)).value) == a
  {
    hide Covers, ParseAddr, Unmap, TrimSpace, ParsePending;
    PendingParses(ip);
    if ParseAddr(TrimSpace(ip)).Some? { HostCovers(Unmap(ParseAddr(TrimSpace(ip)).value), a); }
  }

  lemma PendingCover(pending: seq<Option<string>>, a: Addr)
    ensures (exists e :: e in Collect(ParsePending, pending) && Covers(e, a)) <==> IsPendingAddress(pending, a)
  {
    hide Collect, Covers, ParseAddr, Unmap, TrimSpace, ParseBareIP;
    CollectCovers(ParsePending, pending, a);
    if o :| o in pending && ParsePending(o).Some? && Covers(ParsePending(o).value, a) {
      assert o == Some(o.value);
      PendingHolds(o.value, a);
    }
    hide ParsePending;
    if ip :| Some(ip) in pending && ParseAddr(TrimSpace(ip)).Some? && Unmap(ParseAddr(TrimSpace(ip)).value) == a {
      PendingHolds(ip, a);
    }
  }

  /** An address is excluded if and only if the service range, a pod range of a node, a node address, a
      trusted range or a pending peer stands for it. */
  lemma ExcludedExactly(serviceCidr: string, ns: seq<Node>, trusted: seq<Option<string>>, pending: seq<Option<string>>, a: Addr)
    ensures Excluded(Split(Sources(serviceCidr, ns, trusted, pending)), a) <==> Shielded(serviceCidr, ns, trusted, pending, a)
  {
    hide Split, Excluded, Collect, Covers, NodesSources, RangeCovers, InPodRange, IsNodeAddress, InTrustedRange, IsPendingAddress;
    SomeCovers(Sources(serviceCidr, ns, trusted, pending), a);
    ServiceCovers(serviceCidr, a);
    NodesCover(ns, a);
    TrustedCover(trusted, a);
    PendingCover(pending, a);
  }

  /** The exclusionSet that buildExclusionSet grows through a pointer. */
  class ExclusionBuilder {
    var ex: ExclusionSet
    ghost var taken: seq<Prefix>

    ghost predicate Valid()
      reads this
    {
      ex == Split(taken)
    }

    constructor ()
      ensures Valid() && taken == []
    {
      ex := ExclusionSet([], []);
      taken := [];
    }

    /** appendToFamily after a parse; nothing when the text did not parse. */
    method Append(p: Option<Prefix>)
      requires Valid()
      modifies this
      ensures Valid() && taken == old(taken) + (match p case Some(e) => [e] case None => [])
    {
      if p.Some? {
        CollectAppend(InFamily(V4), taken, p.value);
        CollectAppend(InFamily(V6), taken, p.value);
        taken := taken + [p.value];
        if p.value.addr.Is4() {
          ex := ex.(v4 := ex.v4 + [p.value]);
        } else {
          ex := ex.(v6 := ex.v6 + [p.value]);
        }
      }
    }

    /** Append what each object of a list parses to. */
    method AppendAll<T>(parse: T -> Option<Prefix>, xs: seq<T>)
      requires Valid()
      modifies this
      ensures Valid() && taken == old(taken) + Collect(parse, xs)
    {
      hide Collect, Split;
      CollectEmpty(parse);
      for i := 0 to |xs|
        invariant Valid() && taken == old(taken) + Collect(parse, xs[..i])
      {
        assert xs[..i + 1] == xs[..i] + [xs[i]];
        CollectAppend(parse, xs[..i], xs[i]);
        Append(parse(xs[i]));
      }
      assert xs[..|xs|] == xs;
    }
  }

  /** The loop over the nodes. */
  method AppendNodes(b: ExclusionBuilder, ns: seq<Node>)
    requires b.Valid()
    modifies b
    ensures b.Valid() && b.taken == old(b.taken) + NodesSources(ns)
    ensures forall a :: Excluded(b.ex, a) <==> Excluded(old(b.ex), a) || InPodRange(ns, a) || IsNodeAddress(ns, a)
  {
    hide Excluded, InPodRange, IsNodeAddress;
    hide ParseCIDRSafely, ParseNodeAddress, PodCidrTexts, Split, Collect;
    for i := 0 to |ns|
      invariant b.Valid() && b.taken == old(b.taken) + NodesSources(ns[..i])
    {
      ghost var taken := b.taken;
      var texts := PodCIDRsFromNode(ns[i]);
      b.AppendAll(ParseCIDRSafely, texts);
      b.AppendAll(ParseNodeAddress, ns[i].addresses);
      assert b.taken == taken + NodeSources(ns[i]);
      assert ns[..i + 1][..i] == ns[..i];
    }
    assert ns[..|ns|] == ns;
    forall a: Addr ensures Excluded(b.ex, a) <==> Excluded(old(b.ex), a) || InPodRange(ns, a) || IsNodeAddress(ns, a) {
      MoreCovers(old(b.taken), ns, a);
    }
  }

  lemma MoreCovers(taken: seq<Prefix>, ns: seq<Node>, a: Addr)
    ensures Excluded(Split(taken + NodesSources(ns)), a) <==> Excluded(Split(taken), a) || InPodRange(ns, a) || IsNodeAddress(ns, a)
  {
    hide Split, Excluded, Covers, NodesSources, InPodRange, IsNodeAddress;
    SomeCovers(taken, a);
    SomeCovers(taken + NodesSources(ns), a);
    NodesCover(ns, a);
  }

  /** buildExclusionSet: none when a lister fails; otherwise exactly the parsed sources, by family. */
  method BuildExclusionSet(serviceCidr: string, nodes: Listing<Node>, trusted: Listing<Option<string>>,
                           pending: Listing<Option<string>>) returns (r: Option<ExclusionSet>)
    requires !nodes.Unlisted?
    ensures r.None? <==> nodes.ListFails? || trusted.ListFails? || pending.ListFails?
    ensures r.Some? ==> r.value == Split(Sources(serviceCidr, Items(nodes), Items(trusted), Items(pending)))
    ensures r.Some? ==> forall a :: Excluded(r.value, a) <==>
                                    Shielded(serviceCidr, (if nodes.Listed? then nodes.items else []),
                                             (if trusted.Listed? then trusted.items else []),
                                             (if pending.Listed? then pending.items else []), a)
  {
    hide Excluded, Shielded, ParseCIDRSafely, ParseTrusted, ParsePending, NodesSources, Split, Collect;
    var b := new ExclusionBuilder();
    var service := if serviceCidr != "" then [serviceCidr] else [];
    b.AppendAll(ParseCIDRSafely, service);
    assert b.taken == Collect(ParseCIDRSafely, service);
    if nodes.ListFails? {
      return None;
    }
    AppendNodes(b, Items(nodes));
    if trusted.ListFails? {
      return None;
    }
    b.AppendAll(ParseTrusted, Items(trusted));
    if pending.ListFails? {
      return None;
    }
    b.AppendAll(ParsePending, Items(pending));
    forall a: Addr
      ensures Excluded(b.ex, a) <==> Shielded(serviceCidr, Items(nodes), Items(trusted), Items(pending), a)
    {
      ExcludedExactly(serviceCidr, Items(nodes), Items(trusted), Items(pending), a);
    }
    return Some(b.ex);
  }

  // ---- what the sources guarantee --------------------------------------------

  lemma {:induction false} NodesSourcesUnmapped(ns: seq<Node>, e: Prefix)
    requires e in NodesSources(ns)
    ensures !e.addr.Is4In6()
  {
    var last := ns[|ns| - 1];
    if e in NodesSources(ns[..|ns| - 1]) {
      NodesSourcesUnmapped(ns[..|ns| - 1], e);
    } else {
      CollectMembers(ParseCIDRSafely, PodCidrTexts(last), e);
      CollectMembers(ParseNodeAddress, last.addresses, e);
    }
  }

  /** Built exclusions are unmapped and sorted into their families. */
  lemma BuiltIsNormal(serviceCidr: string, ns: seq<Node>, trusted: seq<Option<string>>, pending: seq<Option<string>>)
    ensures NormalExclusions(Split(Sources(serviceCidr, ns, trusted, pending)))
  {
    hide Sources;
    var ps := Sources(serviceCidr, ns, trusted, pending);
    forall f, e | e in OfFamily(f, ps) ensures e.addr.fam == f && !e.addr.Is4In6() {
      CollectMembers(InFamily(f), ps, e);
      SourceIsUnmapped(serviceCidr, ns, trusted, pending, e);
    }
    assert Normal(V4, OfFamily(V4, ps)) && Normal(V6, OfFamily(V6, ps));
  }

  lemma SourceIsUnmapped(serviceCidr: string, ns: seq<Node>, trusted: seq<Option<string>>, pending: seq<Option<string>>,
                         e: Prefix)
    requires e in Sources(serviceCidr, ns, trusted, pending)
    ensures !e.addr.Is4In6()
  {
    hide ParseCIDRSafely, ParseTrusted, ParsePending, NodesSources;
    CollectMembers(ParseCIDRSafely, if serviceCidr != "" then [serviceCidr] else [], e);
    CollectMembers(ParseTrusted, trusted, e);
    CollectMembers(ParsePending, pending, e);
    if e in NodesSources(ns) { NodesSourcesUnmapped(ns, e); }
  }

  /** Every internal or external address of every node is excluded. */
  lemma NodeAddressesExcluded(serviceCidr: string, ns: seq<Node>, trusted: seq<Option<string>>, pending: seq<Option<string>>,
                              n: Node, na: NodeAddress)
    requires n in ns && na in n.addresses && na.kind != OtherKind && ParseAddr(na.address).Some?
    ensures Excluded(Split(Sources(serviceCidr, ns, trusted, pending)), Unmap(ParseAddr(na.address).value))
  {
    hide Unmap, Sources, Split, ParseAddr, Excluded, RangeCovers;
    ExcludedExactly(serviceCidr, ns, trusted, pending, Unmap(ParseAddr(na.address).value));
  }

  /** Every address of a well-formed trusted range is excluded. */
  lemma TrustedRangesExcluded(serviceCidr: string, ns: seq<Node>, trusted: seq<Option<string>>, pending: seq<Option<string>>,
                              cidr: string, a: Addr)
    requires Some(cidr) in trusted && ParsePrefix(cidr).Some? && Covers(UnmapPrefix(ParsePrefix(cidr).value), a)
    ensures Excluded(Split(Sources(serviceCidr, ns, trusted, pending)), a)
  {
    hide Sources, Split, Excluded, UnmapPrefix, Covers;
    assert RangeCovers(cidr, a);
    ExcludedExactly(serviceCidr, ns, trusted, pending, a);
  }

  /** Every accepted pending address is excluded. */
  lemma PendingPeersExcluded(serviceCidr: string, ns: seq<Node>, trusted: seq<Option<string>>, pending: seq<Option<string>>,
                             ip: string)
    requires Some(ip) in pending && ParseBareIP(ip).Some?
    ensures ParseAddr(TrimSpace(ip)).Some?
    ensures Excluded(Split(Sources(serviceCidr, ns, trusted, pending)), Unmap(ParseAddr(TrimSpace(ip)).value))
  {
    hide Sources, Split, Excluded, TrimSpace, ParseAddr, Unmap;
    BareTextOfAccepted(ip);
    ExcludedExactly(serviceCidr, ns, trusted, pending, Unmap(ParseAddr(TrimSpace(ip)).value));
  }
}
