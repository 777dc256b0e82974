/** Exclusion filter, element cap and self-protect alarm over a ban list. */
module CrowdsecFilter {
  import opened Texts
  import opened Collecting
  import opened Addresses
  import opened IpText
  import opened Blocklists
  import opened CrowdsecInput

  // ---- exclusion -------------------------------------------------------------

  /** Some exclusion contains the prefix. */
  predicate Contained(p: Prefix, exs: seq<Prefix>) {
    exists i :: 0 <= i < |exs| && PrefixContainsOrEquals(exs[i], p)
  }

  /** The inner loop over the exclusions, with its early exit. */
  method FindExclusion(p: Prefix, exs: seq<Prefix>) returns (found: bool)
    ensures found == Contained(p, exs)
  {
    for i := 0 to |exs|
      invariant forall j :: 0 <= j < i ==> !PrefixContainsOrEquals(exs[j], p)
    {
      if PrefixContainsOrEquals(exs[i], p) {
        return true;
      }
    }
    return false;
  }

  function KeptOf(exs: seq<Prefix>): Ban -> Option<Ban> {
    (b: Ban) => if Contained(b.prefix, exs) then None else Some(b)
  }

  /** The bans that no exclusion contains, in order. */
  function Kept(bs: seq<Ban>, exs: seq<Prefix>): seq<Ban> { Collect(KeptOf(exs), bs) }

  function CountContained(ps: seq<Prefix>, exs: seq<Prefix>): nat {
    if ps == [] then 0
    else CountContained(ps[..|ps| - 1], exs) + (if Contained(ps[|ps| - 1], exs) then 1 else 0)
  }

  lemma BansGrow(out: seq<Prefix>, outTtl: seq<int>, p: Prefix, ttls: seq<int>, i: nat)
    requires |outTtl| <= |out| && (i < |ttls| ==> |outTtl| == |out|)
    ensures Bans(out + [p], if i < |ttls| then outTtl + [ttls[i]] else outTtl)
         == Bans(out, outTtl) + [Ban(p, if i < |ttls| then ttls[i] else 0)]
  {
  }

  lemma CountNone(exs: seq<Prefix>)
    ensures CountContained([], exs) == 0
  {
  }

  lemma CountNext(ps: seq<Prefix>, exs: seq<Prefix>, i: nat)
    requires i < |ps|
    ensures CountContained(ps[..i + 1], exs) == CountContained(ps[..i], exs) + (if Contained(ps[i], exs) then 1 else 0)
  {
    assert ps[..i + 1][..i] == ps[..i];
  }

  /** filterFamily: keeps, with their times, exactly the bans that no exclusion contains. */
  method FilterFamily(ps: seq<Prefix>, ttls: seq<int>, exs: seq<Prefix>)
    returns (out: seq<Prefix>, outTtl: seq<int>, dropped: nat)
    ensures Bans(out, outTtl) == Kept(Bans(ps, ttls), exs)
    ensures dropped == CountContained(ps, exs) && |ps| == |out| + dropped
    ensures |ps| == |ttls| ==> |out| == |outTtl|
  {
    hide Contained, Bans, Collect, CountContained;
    CountNone(exs);
    CollectEmpty(KeptOf(exs));
    if ps == [] {
      return ps, ttls, 0;
    }
    ghost var bs := Bans(ps, ttls);
    out, outTtl, dropped := [], [], 0;
    for i := 0 to |ps|
      invariant Bans(out, outTtl) == Kept(bs[..i], exs)
      invariant |outTtl| <= |out| && (i <= |ttls| ==> |outTtl| == |out|)
      invariant dropped == CountContained(ps[..i], exs) && i == |out| + dropped
    {
      assert bs[..i + 1] == bs[..i] + [bs[i]];
      CountNext(ps, exs, i);
      CollectAppend(KeptOf(exs), bs[..i], bs[i]);
      var excluded := FindExclusion(ps[i], exs);
      if excluded {
        dropped := dropped + 1;
        continue;
      }
      BansGrow(out, outTtl, ps[i], ttls, i);
      out := out + [ps[i]];
      if i < |ttls| {
        outTtl := outTtl + [ttls[i]];
      }
    }
    assert ps[..|ps|] == ps && bs[..|bs|] == bs;
  }

  /** applyExclusions: per family, the bans no exclusion of that family contains. */
  method ApplyExclusions(bl: Blocklist, ex: ExclusionSet) returns (filtered: Blocklist, dropped: nat)
    ensures forall f :: FamilyBans(filtered, f) == Kept(FamilyBans(bl, f), FamilyExclusions(ex, f))
    ensures dropped == Intersecting(bl, ex)
    ensures |bl.v4| + |bl.v6| == |filtered.v4| + |filtered.v6| + dropped
    ensures bl.Aligned() ==> filtered.Aligned()
  {
    var v4, ttl4, d4 := FilterFamily(bl.v4, bl.ttl4, ex.v4);
    var v6, ttl6, d6 := FilterFamily(bl.v6, bl.ttl6, ex.v6);
    return Blocklist(v4, v6, ttl4, ttl6), d4 + d6;
  }

  // ---- intersecting prefixes, told from the addresses ------------------------

  /** Every address of the prefix, unmapped, is one of some exclusion. */
  ghost predicate Hits(p: Prefix, exs: seq<Prefix>) {
    exists e :: e in exs && Inside(UnmapPrefix(p), UnmapPrefix(e))
  }

  lemma HitsExactly(p: Prefix, exs: seq<Prefix>)
    ensures Contained(p, exs) <==> Hits(p, exs)
  {
    hide PrefixContainsOrEquals, Inside, UnmapPrefix;
    forall e ensures PrefixContainsOrEquals(e, p) <==> Inside(UnmapPrefix(p), UnmapPrefix(e)) {
      ContainsIsInside(e, p);
    }
    if e :| e in exs && Inside(UnmapPrefix(p), UnmapPrefix(e)) {
      var i :| 0 <= i < |exs| && exs[i] == e;
    }
  }

  /** Which of the prefixes lie inside an exclusion. */
  ghost function HitIndices(ps: seq<Prefix>, exs: seq<Prefix>): set<nat> {
    set i: nat | i < |ps| && Hits(ps[i], exs)
  }

  lemma HitIndicesGrow(ps: seq<Prefix>, exs: seq<Prefix>, p: Prefix)
    ensures HitIndices(ps + [p], exs) == HitIndices(ps, exs) + if Hits(p, exs) then {|ps|} else {}
  {
    hide Hits;
    forall i: nat
      ensures i in HitIndices(ps + [p], exs) <==> i in HitIndices(ps, exs) || (Hits(p, exs) && i == |ps|)
    {
      if i < |ps| { assert (ps + [p])[i] == ps[i]; }
    }
  }

  lemma {:induction false} CountIsHits(ps: seq<Prefix>, exs: seq<Prefix>)
    ensures CountContained(ps, exs) == |HitIndices(ps, exs)|
  {
    hide Hits, Contained;
    if ps == [] {
      assert HitIndices(ps, exs) == {};
    } else {
      var init, last := ps[..|ps| - 1], ps[|ps| - 1];
      CountIsHits(init, exs);
      HitsExactly(last, exs);
      HitIndicesGrow(init, exs, last);
      assert ps == init + [last];
      assert |init| !in HitIndices(init, exs);
    }
  }

  // ---- self-protect ----------------------------------------------------------

  /** How many proposed prefixes an exclusion of their family contains. */
  function Intersecting(bl: Blocklist, ex: ExclusionSet): nat {
    CountContained(bl.v4, ex.v4) + CountContained(bl.v6, ex.v6)
  }

  /** selfProtectIntersection. */
  method SelfProtectIntersection(bl: Blocklist, ex: ExclusionSet) returns (v4: nat, v6: nat)
    ensures v4 == CountContained(bl.v4, ex.v4) && v6 == CountContained(bl.v6, ex.v6)
  {
    v4, v6 := 0, 0;
    hide Contained, CountContained;
    CountNone(ex.v4);
    CountNone(ex.v6);
    for i := 0 to |bl.v4|
      invariant v4 == CountContained(bl.v4[..i], ex.v4)
    {
      CountNext(bl.v4, ex.v4, i);
      var hit := FindExclusion(bl.v4[i], ex.v4);
      if hit { v4 := v4 + 1; }
    }
    for i := 0 to |bl.v6|
      invariant v6 == CountContained(bl.v6[..i], ex.v6)
    {
      CountNext(bl.v6, ex.v6, i);
      var hit := FindExclusion(bl.v6[i], ex.v6);
      if hit { v6 := v6 + 1; }
    }
    assert bl.v4[..|bl.v4|] == bl.v4 && bl.v6[..|bl.v6|] == bl.v6;
  }

  /** shouldSelfProtectTrip: more than one in twenty of the proposed prefixes intersects. */
  predicate Trips(bl: Blocklist, ex: ExclusionSet) {
    20 * Intersecting(bl, ex) > |bl.v4| + |bl.v6|
  }

  method ShouldSelfProtectTrip(bl: Blocklist, ex: ExclusionSet) returns (trip: bool)
    ensures trip == Trips(bl, ex)
    ensures trip <==> 20 * (|HitIndices(bl.v4, ex.v4)| + |HitIndices(bl.v6, ex.v6)|) > |bl.v4| + |bl.v6|
  {
    hide CountContained, HitIndices;
    CountIsHits(bl.v4, ex.v4);
    CountIsHits(bl.v6, ex.v6);
    CountNone(ex.v4);
    CountNone(ex.v6);
    var v4, v6 := SelfProtectIntersection(bl, ex);
    var total := |bl.v4| + |bl.v6|;
    if total == 0 {
      return false;
    }
    return 20 * (v4 + v6) > total;
  }

  // ---- cap -------------------------------------------------------------------

  const MAX_ELEMENTS: nat := 500_000

  function BanText(b: Ban): string { PrefixText(b.prefix) }

  function Least(a: nat, b: nat): nat { if a <= b then a else b }

  /** What sorting by prefix text and truncating guarantees: some sorted arrangement of the bans, cut at
      the cap. Equal prefixes may come in any order. */
  ghost predicate CapOutcome(bs: seq<Ban>, out: seq<Ban>) {
    exists all: seq<Ban> ::
      multiset(all) == multiset(bs) && SortedBy(all, BanText) && out == all[..Least(|all|, MAX_ELEMENTS)]
  }

  lemma SameCounts<T>(a: seq<T>, b: seq<T>)
    requires multiset(a) == multiset(b)
    ensures |a| == |b|
  {
    assert |a| == |multiset(a)| == |multiset(b)| == |b|;
  }

  /** sort.Slice on the pairs. */
  method SortPairs(bs: seq<Ban>) returns (all: seq<Ban>)
    ensures multiset(all) == multiset(bs) && SortedBy(all, BanText)
  {
    all := SortBy(bs, BanText);
  }

  /** One family of enforceCap. */
  method CapFamily(ps: seq<Prefix>, ttls: seq<int>) returns (out: seq<Prefix>, outTtl: seq<int>, dropped: nat)
    ensures CapOutcome(Bans(ps, ttls), Bans(out, outTtl))
    ensures |out| == |outTtl| <= 500_000 && |ps| == |out| + dropped && (dropped > 0 ==> |out| == 500_000)
  {
    var all := SortPairs(Bans(ps, ttls));
    SameCounts(all, Bans(ps, ttls));
    BansOfParts(all);
    out, outTtl, dropped := Prefixes(all), Ttls(all), 0;
    if |out| > MAX_ELEMENTS {
      dropped := |out| - MAX_ELEMENTS;
      out := out[..MAX_ELEMENTS];
      outTtl := outTtl[..MAX_ELEMENTS];
    }
    assert Bans(out, outTtl) == all[..Least(|all|, MAX_ELEMENTS)];
  }

  /** enforceCap. */
  method EnforceCap(bl: Blocklist) returns (capped: Blocklist, droppedV4: nat, droppedV6: nat)
    ensures forall f :: CapOutcome(FamilyBans(bl, f), FamilyBans(capped, f))
    ensures capped.Aligned() && |capped.v4| <= 500_000 && |capped.v6| <= 500_000
    ensures |bl.v4| == |capped.v4| + droppedV4 && |bl.v6| == |capped.v6| + droppedV6
    ensures (droppedV4 > 0 ==> |capped.v4| == 500_000) && (droppedV6 > 0 ==> |capped.v6| == 500_000)
  {
    hide CapOutcome;
    var v4, ttl4, d4 := CapFamily(bl.v4, bl.ttl4);
    var v6, ttl6, d6 := CapFamily(bl.v6, bl.ttl6);
    return Blocklist(v4, v6, ttl4, ttl6), d4, d6;
  }

  lemma TripsExactly(bl: Blocklist, ex: ExclusionSet)
    ensures Trips(bl, ex) <==> 20 * (|HitIndices(bl.v4, ex.v4)| + |HitIndices(bl.v6, ex.v6)|) > |bl.v4| + |bl.v6|
  {
    hide CountContained, HitIndices;
    CountIsHits(bl.v4, ex.v4);
    CountIsHits(bl.v6, ex.v6);
  }

  lemma PrefixOfMultiset<T>(all: seq<T>, n: nat)
    requires n <= |all|
    ensures multiset(all[..n]) <= multiset(all)
  {
    assert all == all[..n] + all[n..];
  }

  /** Capping invents nothing, sorts, keeps up to the cap and everything below it. */
  lemma CapConserves(bs: seq<Ban>, out: seq<Ban>)
    requires CapOutcome(bs, out)
    ensures multiset(out) <= multiset(bs)
    ensures SortedBy(out, BanText)
    ensures |out| == if |bs| <= 500_000 then |bs| else 500_000
    ensures |bs| <= 500_000 ==> multiset(out) == multiset(bs)
  {
    var all: seq<Ban> :| multiset(all) == multiset(bs) && SortedBy(all, BanText) && out == all[..Least(|all|, MAX_ELEMENTS)];
    SameCounts(all, bs);
    PrefixOfMultiset(all, Least(|all|, MAX_ELEMENTS));
    if |bs| <= MAX_ELEMENTS { assert all[..|all|] == all; }
  }

  lemma InTail<T>(all: seq<T>, n: nat, x: T) returns (j: nat)
    requires n <= |all| && multiset(all[..n])[x] < multiset(all)[x]
    ensures n <= j < |all| && all[j] == x
  {
    var rest := all[n..];
    assert all == all[..n] + rest;
    assert x in multiset(rest);
    var k :| 0 <= k < |rest| && rest[k] == x;
    j := n + k;
  }

  /** What is cut off comes last: no ban that was left out has a text below that of one that was kept. */
  lemma CapKeepsSmallest(bs: seq<Ban>, out: seq<Ban>, kept: Ban, lost: Ban)
    requires CapOutcome(bs, out) && kept in out && multiset(out)[lost] < multiset(bs)[lost]
    ensures Leq(PrefixText(kept.prefix), PrefixText(lost.prefix))
  {
    var all: seq<Ban> :| multiset(all) == multiset(bs) && SortedBy(all, BanText) && out == all[..Least(|all|, MAX_ELEMENTS)];
    hide CapOutcome, PrefixText, Leq, SortedBy;
    var j := InTail(all, |out|, lost);
    var i :| 0 <= i < |out| && out[i] == kept;
    InOrder(all, i, j);
  }

  lemma InOrder(all: seq<Ban>, i: nat, j: nat)
    requires i < j < |all| && SortedBy(all, BanText)
    ensures Leq(PrefixText(all[i].prefix), PrefixText(all[j].prefix))
  {
    assert Leq(BanText(all[i]), BanText(all[j]));
  }

  lemma SortedTextsLength(bs: seq<Ban>)
    ensures |SortStrings(BanTexts(bs))| == |bs|
  {
    hide BanText;
    SameCounts(SortStrings(BanTexts(bs)), BanTexts(bs));
  }

  /** The first of the sorted texts, up to the cap. */
  function FirstTexts(bs: seq<Ban>): seq<string> {
    SortedTextsLength(bs);
    SortStrings(BanTexts(bs))[..Least(|bs|, MAX_ELEMENTS)]
  }

  /** The texts of the capped bans are the first of the sorted texts of the input. */
  lemma CapTexts(bs: seq<Ban>, out: seq<Ban>)
    requires CapOutcome(bs, out)
    ensures BanTexts(out) == FirstTexts(bs)
  {
    hide BanTexts, SortStrings, SortedBy, Sorted;
    var all: seq<Ban> :| multiset(all) == multiset(bs) && SortedBy(all, BanText) && out == all[..Least(|all|, MAX_ELEMENTS)];
    KeysOfSame(all, bs);
    TextsSorted(all);
    SortedUnique(BanTexts(all), SortStrings(BanTexts(bs)));
    SameCounts(all, bs);
    TextsPrefix(all, |out|);
  }

  lemma TextsSorted(bs: seq<Ban>)
    requires SortedBy(bs, BanText)
    ensures Sorted(BanTexts(bs))
  {
    hide BanText, Leq;
  }

  lemma TextsPrefix(bs: seq<Ban>, n: nat)
    requires n <= |bs|
    ensures |BanTexts(bs)| == |bs| && BanTexts(bs[..n]) == BanTexts(bs)[..n]
  {
    hide BanText;
  }

  function BanTexts(bs: seq<Ban>): seq<string> { Keys(bs, BanText) }

  lemma TextsConcat(a: seq<Ban>, b: seq<Ban>)
    ensures BanTexts(a + b) == BanTexts(a) + BanTexts(b)
  {
    hide BanText;
  }

  lemma {:induction false} KeysOfSame(a: seq<Ban>, b: seq<Ban>)
    requires multiset(a) == multiset(b)
    ensures multiset(BanTexts(a)) == multiset(BanTexts(b))
    decreases |a|
  {
    hide BanTexts;
    if a == [] {
      SameCounts(a, b);
    } else {
      var i := MatchHead(a, b);
      KeysOfSame(a[1..], b[..i] + b[i + 1..]);
      assert a == [a[0]] + a[1..];
      TextsConcat([a[0]], a[1..]);
      TextsConcat(b[..i], b[i + 1..]);
      TextsConcat(b[..i] + [b[i]], b[i + 1..]);
      TextsConcat(b[..i], [b[i]]);
      assert BanTexts([a[0]]) == BanTexts([b[i]]);
    }
  }

  /** The capped prefix list does not depend on the order of the input, nor on how ties were broken. */
  lemma CapOrderIndependent(bs: seq<Ban>, bs': seq<Ban>, out: seq<Ban>, out': seq<Ban>)
    requires multiset(BanTexts(bs)) == multiset(BanTexts(bs'))
    requires CapOutcome(bs, out) && CapOutcome(bs', out')
    ensures Prefixes(out) == Prefixes(out')
  {
    hide CapOutcome, SortStrings, SortedBy, Sorted, PrefixText;
    CapTexts(bs, out);
    CapTexts(bs', out');
    SameCounts(BanTexts(bs), BanTexts(bs'));
    SortedUnique(SortStrings(BanTexts(bs)), SortStrings(BanTexts(bs')));
    assert BanTexts(out) == BanTexts(out');
    forall i | 0 <= i < |out| ensures out[i].prefix == out'[i].prefix {
      assert BanTexts(out)[i] == BanTexts(out')[i];
      PrefixTextInjective(out[i].prefix, out'[i].prefix);
    }
  }

  // ---- the pipeline ----------------------------------------------------------

  lemma {:induction false} KeptConserves(bs: seq<Ban>, exs: seq<Prefix>)
    ensures multiset(Kept(bs, exs)) <= multiset(bs)
  {
    hide Contained;
    if bs != [] {
      KeptConserves(bs[1..], exs);
      assert bs == [bs[0]] + bs[1..];
    }
  }

  lemma KeptMembers(bs: seq<Ban>, exs: seq<Prefix>, b: Ban)
    ensures b in Kept(bs, exs) <==> b in bs && !Contained(b.prefix, exs)
  {
    CollectMembers(KeptOf(exs), bs, b);
  }

  /** Conservation through filter and cap, per family: the emitted pairs are input pairs, sorted, at most
      the cap, and no exclusion contains any of them; nothing else is lost below the cap. */
  lemma PipelineConserves(bs: seq<Ban>, exs: seq<Prefix>, out: seq<Ban>)
    requires CapOutcome(Kept(bs, exs), out)
    ensures multiset(out) <= multiset(bs)
    ensures SortedBy(out, BanText) && |out| == if |Kept(bs, exs)| <= 500_000 then |Kept(bs, exs)| else 500_000
    ensures forall b :: b in out ==> b in bs && !Contained(b.prefix, exs)
    ensures |Kept(bs, exs)| <= 500_000 ==> forall b :: b in bs && !Contained(b.prefix, exs) ==> b in out
  {
    hide Contained;
    CapConserves(Kept(bs, exs), out);
    KeptConserves(bs, exs);
    forall b ensures b in multiset(out) <==> b in out {}
    forall b | b in out ensures b in bs && !Contained(b.prefix, exs) {
      assert b in multiset(Kept(bs, exs));
      KeptMembers(bs, exs, b);
    }
    if |Kept(bs, exs)| <= MAX_ELEMENTS {
      forall b | b in bs && !Contained(b.prefix, exs) ensures b in out {
        KeptMembers(bs, exs, b);
        assert b in multiset(out);
      }
    }
  }

  /** Two lists with the same bans in another order yield the same prefix list. */
  lemma PipelineOrderIndependent(bs: seq<Ban>, bs': seq<Ban>, exs: seq<Prefix>, out: seq<Ban>, out': seq<Ban>)
    requires multiset(bs) == multiset(bs')
    requires CapOutcome(Kept(bs, exs), out) && CapOutcome(Kept(bs', exs), out')
    ensures Prefixes(out) == Prefixes(out')
  {
    hide CapOutcome, Contained, Collect;
    CollectOfSame(KeptOf(exs), bs, bs');
    KeysOfSame(Kept(bs, exs), Kept(bs', exs));
    CapOrderIndependent(Kept(bs, exs), Kept(bs', exs), out, out');
  }

  /** So do two decision streams that are permutations of each other. */
  lemma StreamOrderIndependent(ds: seq<Decision>, ds': seq<Decision>, f: Family, exs: seq<Prefix>, out: seq<Ban>, out': seq<Ban>)
    requires multiset(ds) == multiset(ds')
    requires CapOutcome(Kept(Collect(AcceptedOf(f), ds), exs), out)
    requires CapOutcome(Kept(Collect(AcceptedOf(f), ds'), exs), out')
    ensures Prefixes(out) == Prefixes(out')
  {
    hide CapOutcome, Kept, Accepted, Collect;
    CollectOfSame(AcceptedOf(f), ds, ds');
    PipelineOrderIndependent(Collect(AcceptedOf(f), ds), Collect(AcceptedOf(f), ds'), exs, out, out');
  }
}
