/** The parsed ban list and its kernel encoding. */
module Blocklists {
  import opened Texts
  import opened Collecting
  import opened Addresses
  import opened NftKeys
  import opened NftRoundTrip

  /** crowdsecBlocklist: prefixes and remaining times (nanoseconds), index-aligned per family. */
  datatype Blocklist = Blocklist(v4: seq<Prefix>, v6: seq<Prefix>, ttl4: seq<int>, ttl6: seq<int>) {
    predicate Aligned() { |v4| == |ttl4| && |v6| == |ttl6| }
  }

  const EMPTY_BLOCKLIST := Blocklist([], [], [], [])

  datatype Ban = Ban(prefix: Prefix, ttl: int)

  /** The pairs of a prefix list and a time list; a missing time counts as zero. */
  function Bans(ps: seq<Prefix>, ttls: seq<int>): (bs: seq<Ban>)
    ensures |bs| == |ps|
    ensures forall i :: 0 <= i < |ps| ==> bs[i] == Ban(ps[i], if i < |ttls| then ttls[i] else 0)
  {
    seq(|ps|, i requires 0 <= i < |ps| => Ban(ps[i], if i < |ttls| then ttls[i] else 0))
  }

  function FamilyBans(bl: Blocklist, f: Family): seq<Ban> {
    if f.V4? then Bans(bl.v4, bl.ttl4) else Bans(bl.v6, bl.ttl6)
  }

  function Prefixes(bs: seq<Ban>): (ps: seq<Prefix>)
    ensures |ps| == |bs| && forall i :: 0 <= i < |bs| ==> ps[i] == bs[i].prefix
  {
    seq(|bs|, i requires 0 <= i < |bs| => bs[i].prefix)
  }

  function Ttls(bs: seq<Ban>): (ts: seq<int>)
    ensures |ts| == |bs| && forall i :: 0 <= i < |bs| ==> ts[i] == bs[i].ttl
  {
    seq(|bs|, i requires 0 <= i < |bs| => bs[i].ttl)
  }

  lemma BansOfParts(bs: seq<Ban>)
    ensures Bans(Prefixes(bs), Ttls(bs)) == bs
  {
  }

  /** Seven days in nanoseconds, the longest kernel timeout. */
  const MAX_TIMEOUT: int := 604_800_000_000_000

  /** One ban as a timed interval; none for the other family or without time left. */
  function BanInterval(f: Family, b: Ban): (r: Option<Interval>)
    ensures r.Some? ==> |r.value.start| == KeyLength(f) == |r.value.end|
    ensures r.Some? ==> 0 < r.value.timeout <= MAX_TIMEOUT && r.value.timeout <= b.ttl
  {
    if b.prefix.addr.fam != f || b.ttl <= 0 then None
    else
      var p := Masked(b.prefix);
      Some(Interval(AddrBytes(p.addr), EndKey(p.addr, p.bits), if b.ttl > MAX_TIMEOUT then MAX_TIMEOUT else b.ttl))
  }

  function BanEncoder(f: Family): Ban -> Option<Interval> { b => BanInterval(f, b) }

  function BanIntervals(f: Family, bs: seq<Ban>): seq<Interval> { Collect(BanEncoder(f), bs) }

  /** The ban has time left in this family, and the element opens its block for that time, at most seven days. */
  ghost predicate Opens(f: Family, p: Prefix, ttl: int, e: Element) {
    p.addr.fam == f && ttl > 0 && !e.intervalEnd && e.key == AddrBytes(Masked(p).addr) &&
    e.timeout == if ttl <= 604_800_000_000_000 then ttl else 604_800_000_000_000
  }

  lemma {:induction false} FlattenMembers(ivs: seq<Interval>, e: Element)
    ensures e in Flatten(ivs) <==>
            exists iv :: iv in ivs && (e == Element(iv.start, false, iv.timeout) || e == Element(iv.end, true, 0))
  {
    if ivs != [] {
      var init, last := ivs[..|ivs| - 1], ivs[|ivs| - 1];
      FlattenMembers(init, e);
      FlattenAppend(init, last);
      assert ivs == init + [last];
    }
  }

  lemma BanOpens(f: Family, b: Ban, e: Element)
    ensures Opens(f, b.prefix, b.ttl, e) <==>
            BanInterval(f, b).Some? && e == Element(BanInterval(f, b).value.start, false, BanInterval(f, b).value.timeout)
  {
    hide AddrBytes, Masked, EndKey;
  }

  /** The opening elements of a written ban list are those of its live bans. */
  lemma OpeningsExactly(f: Family, ps: seq<Prefix>, ttls: seq<int>, e: Element)
    requires !e.intervalEnd
    ensures e in Flatten(BanIntervals(f, Bans(ps, ttls))) <==>
            exists i :: 0 <= i < |ps| && i < |ttls| && Opens(f, ps[i], ttls[i], e)
  {
    hide BanInterval, Opens, Flatten;
    var bs := Bans(ps, ttls);
    FlattenMembers(BanIntervals(f, bs), e);
    if iv :| iv in BanIntervals(f, bs) && e == Element(iv.start, false, iv.timeout) {
      CollectMembers(BanEncoder(f), bs, iv);
      var b :| b in bs && BanEncoder(f)(b) == Some(iv);
      var i :| 0 <= i < |bs| && bs[i] == b;
      BanOpens(f, b, e);
      LiveHasTime(f, ps, ttls, i, e);
    }
    if i :| 0 <= i < |ps| && i < |ttls| && Opens(f, ps[i], ttls[i], e) {
      assert bs[i] in bs;
      BanOpens(f, bs[i], e);
      CollectMembers(BanEncoder(f), bs, BanInterval(f, bs[i]).value);
    }
  }

  lemma LiveHasTime(f: Family, ps: seq<Prefix>, ttls: seq<int>, i: nat, e: Element)
    requires i < |ps| && Opens(f, Bans(ps, ttls)[i].prefix, Bans(ps, ttls)[i].ttl, e)
    ensures i < |ttls|
  {
  }

  /** crowdsecPrefixesToElements. */
  method CrowdsecPrefixesToElements(ps: seq<Prefix>, ttls: seq<int>, f: Family) returns (out: seq<Element>)
    ensures out == Flatten(BanIntervals(f, Bans(ps, ttls)))
    ensures forall e :: e in out && !e.intervalEnd <==> exists i :: 0 <= i < |ps| && i < |ttls| && Opens(f, ps[i], ttls[i], e)
  {
    hide Masked, AddrBytes, EndKey, Collect, Flatten, Opens;
    CollectEmpty(BanEncoder(f));
    FlattenEmpty();
    out := [];
    ghost var bs := Bans(ps, ttls);
    for i := 0 to |ps|
      invariant out == Flatten(BanIntervals(f, bs[..i]))
    {
      assert bs[..i + 1] == bs[..i] + [bs[i]];
      CollectAppend(BanEncoder(f), bs[..i], bs[i]);
      ghost var ivs := BanIntervals(f, bs[..i]);
      assert ivs + [] == ivs;
      if ps[i].addr.Is4() != f.V4? {
        continue;
      }
      var p := Masked(ps[i]);
      var end := NextNetwork(p.addr, p.bits);
      if end.None? {
        continue;
      }
      var ttl := 0;
      if i < |ttls| {
        ttl := ttls[i];
      }
      if ttl <= 0 {
        continue;
      }
      if ttl > MAX_TIMEOUT {
        ttl := MAX_TIMEOUT;
      }
      out := out + [Element(AddrBytes(p.addr), false, ttl), Element(end.value, true, 0)];
      FlattenAppend(ivs, Interval(AddrBytes(p.addr), end.value, ttl));
    }
    assert bs[..|bs|] == bs;
    forall e ensures e in out && !e.intervalEnd <==> exists i :: 0 <= i < |ps| && i < |ttls| && Opens(f, ps[i], ttls[i], e) {
      OpensNoEnd(f, ps, ttls, e);
      if !e.intervalEnd { OpeningsExactly(f, ps, ttls, e); }
    }
  }

  lemma OpensNoEnd(f: Family, ps: seq<Prefix>, ttls: seq<int>, e: Element)
    ensures forall p, ttl :: Opens(f, p, ttl, e) ==> !e.intervalEnd
  {
  }

  /** The ban reaches the kernel and covers the address; a ban on the whole space spares its last one. */
  predicate Drops(f: Family, b: Ban, a: Addr) {
    b.prefix.addr.fam == f && b.ttl > 0 && Covers(b.prefix, a) && !(b.prefix.bits == 0 && IsLast(a))
  }

  lemma BanIntervalDrops(f: Family, b: Ban, a: Addr)
    requires a.fam == f
    ensures Drops(f, b, a) <==> BanInterval(f, b).Some? && InInterval(BanInterval(f, b).value, a.val)
  {
    hide AddrBytes, EndKey, Covers;
    if b.prefix.addr.fam == f {
      BlockInSpace(b.prefix);
      NetworkInterval(Masked(b.prefix), a);
      CoversMasked(b.prefix, a);
    }
  }

  lemma BanIntervalsSized(f: Family, bs: seq<Ban>)
    ensures Sized(BanIntervals(f, bs), KeyLength(f))
  {
    forall iv | iv in BanIntervals(f, bs) ensures |iv.start| == KeyLength(f) == |iv.end| {
      CollectMembers(BanEncoder(f), bs, iv);
    }
  }

  /** The written drop set matches exactly the addresses its live bans cover. */
  lemma BansDenote(f: Family, bs: seq<Ban>, a: Addr)
    requires a.fam == f
    ensures Matches(Flatten(BanIntervals(f, bs)), KeyLength(f), a.val) <==> exists b :: b in bs && Drops(f, b, a)
  {
    hide BanInterval, Drops, Flatten;
    var ivs := BanIntervals(f, bs);
    BanIntervalsSized(f, bs);
    MatchesFlatten(ivs, KeyLength(f), a.val);
    if iv :| iv in ivs && InInterval(iv, a.val) {
      CollectMembers(BanEncoder(f), bs, iv);
      var b :| b in bs && BanEncoder(f)(b) == Some(iv);
      BanIntervalDrops(f, b, a);
    }
    if b :| b in bs && Drops(f, b, a) {
      BanIntervalDrops(f, b, a);
      CollectMembers(BanEncoder(f), bs, BanEncoder(f)(b).value);
    }
  }
}
