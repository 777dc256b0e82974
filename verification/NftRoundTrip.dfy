/** What the address sets mean, and when they read back as written. */
module NftRoundTrip {
  import opened Texts
  import opened Collecting
  import opened Bits
  import opened Addresses
  import opened IpText
  import opened NftKeys
  import opened NftSets

  // ---- reading pairs of written intervals ------------------------------------

  function AsPair(iv: Interval): Pair { Pair(iv.start, iv.end) }

  lemma {:induction false} CollectPairs(g: Pair -> Option<string>, h: Interval -> Option<string>, ivs: seq<Interval>)
    requires forall iv :: h(iv) == g(AsPair(iv))
    ensures Collect(g, Pairs(ivs)) == Collect(h, ivs)
  {
    if ivs != [] {
      CollectPairs(g, h, ivs[1..]);
      assert Pairs(ivs)[0] == AsPair(ivs[0]) && Pairs(ivs)[1..] == Pairs(ivs[1..]);
    }
  }

  // ---- CIDR sets -------------------------------------------------------------

  /** The block ends below the top of the address space. */
  predicate BelowTop(p: Prefix) {
    Masked(p).addr.val + BlockSize(p) < Pow2(Width(p.addr.fam))
  }

  /** What the reader makes of one written CIDR: its network form, unless it ends at the top. */
  function CidrSurvivor(f: Family, c: string): Option<string> {
    match ParsePrefix(c)
    case Some(p) => if p.addr.fam == f && BelowTop(p) then Some(PrefixText(Masked(p))) else None
    case None => None
  }

  function CidrSurvivorOf(f: Family): string -> Option<string> { c => CidrSurvivor(f, c) }

  function IntervalCidr(f: Family): Interval -> Option<string> { iv => CidrOfPair(f, AsPair(iv)) }

  /** From the bounds of a written network its length comes back, unless the end key wrapped. */
  lemma LengthReadsBack(p: Prefix)
    requires Masked(p) == p
    ensures PrefixFromInterval(p.addr.val, Number(EndKey(p.addr, p.bits)), Width(p.addr.fam))
            == if BelowTop(p) then Some(p.bits) else None
  {
    hide Masked, EndKey, Pow2, PrefixFromInterval;
    var w, end := Width(p.addr.fam), Number(EndKey(p.addr, p.bits));
    EndKeyNumber(p);
    if p.bits == 0 {
      NotAPower(0, w, w);
    } else if end <= p.addr.val {
      NoLength(p.addr.val, end, w);
    } else {
      PrefixFromIntervalExact(p.addr.val, end, w, p.bits);
    }
  }

  lemma NoLength(start: nat, end: nat, totalBits: nat)
    requires end <= start
    ensures PrefixFromInterval(start, end, totalBits) == None
  {
  }

  lemma NetworkReadsBack(p: Prefix)
    requires Masked(p) == p
    ensures CidrOfPair(p.addr.fam, Pair(AddrBytes(p.addr), EndKey(p.addr, p.bits)))
            == if BelowTop(p) then Some(PrefixText(p)) else None
  {
    hide Text, Decimal, PrefixFromInterval, BelowTop, AddrBytes, EndKey;
    LengthReadsBack(p);
    BytesToAddrOfBytes(p.addr);
  }

  lemma CidrReadsBack(f: Family, c: string)
    ensures CidrSurvivor(f, c) ==
            (match CidrInterval(f, c) case Some(iv) => CidrOfPair(f, AsPair(iv)) case None => None)
  {
    hide ParsePrefix, PrefixText, EndKey, AddrBytes, CidrOfPair, Pow2, Truncate;
    match ParsePrefix(c)
    case Some(p) =>
      BlockInSpace(p);
      NetworkReadsBack(Masked(p));
    case None =>
  }

  /** readCidrSet after cidrsToElements, on any list: exactly the blocks that end at the top of the
      space, and what the encoder could not use, are missing. */
  lemma CidrsReadBack(f: Family, cs: seq<string>)
    ensures CidrsRead(f, Flatten(CidrIntervals(f, cs))) == SortStrings(Collect(CidrSurvivorOf(f), cs))
  {
    hide CidrInterval, CidrOfPair, CidrSurvivor, Flatten, PairUp, SortStrings, Collect;
    var ivs := CidrIntervals(f, cs);
    CidrIntervalsSized(f, cs);
    PairUpFlatten(ivs, KeyLength(f));
    CollectPairs(CidrDecoder(f), IntervalCidr(f), ivs);
    forall c | c in cs
      ensures CidrSurvivorOf(f)(c) ==
              (match CidrEncoder(f)(c) case Some(iv) => IntervalCidr(f)(iv) case None => None)
    {
      CidrReadsBack(f, c);
    }
    CollectCompose(CidrEncoder(f), IntervalCidr(f), CidrSurvivorOf(f), cs);
  }

  lemma CidrIntervalsSized(f: Family, cs: seq<string>)
    ensures Sized(CidrIntervals(f, cs), KeyLength(f))
  {
    forall iv | iv in CidrIntervals(f, cs) ensures |iv.start| == KeyLength(f) == |iv.end| {
      CollectMembers(CidrEncoder(f), cs, iv);
    }
  }

  /** The text of a network of family f with at least one prefix bit. */
  ghost predicate IsCidrText(f: Family, c: string) {
    exists p: Prefix :: p.addr.fam == f && p.bits >= 1 && Masked(p) == p && PrefixText(p) == c
  }

  ghost predicate CanonicalCidrs(f: Family, cs: seq<string>) {
    Sorted(cs) && forall c :: c in cs ==> IsCidrText(f, c)
  }

  /** The text names a block that ends below the top of the space. */
  predicate CidrBelowTop(c: string) {
    ParsePrefix(c).Some? && BelowTop(ParsePrefix(c).value)
  }

  lemma CanonicalSurvivor(f: Family, c: string)
    requires IsCidrText(f, c)
    ensures CidrSurvivor(f, c) == if CidrBelowTop(c) then Some(c) else None
  {
    var p: Prefix :| p.addr.fam == f && p.bits >= 1 && Masked(p) == p && PrefixText(p) == c;
    PrefixRoundTrip(p);
  }

  /** The CIDR codec is the identity on sorted canonical lists exactly when no member ends at the top. */
  lemma CidrCodecIdentity(f: Family, cs: seq<string>)
    requires CanonicalCidrs(f, cs)
    ensures CidrsRead(f, Flatten(CidrIntervals(f, cs))) == cs <==> forall c :: c in cs ==> CidrBelowTop(c)
  {
    CidrsReadBack(f, cs);
    forall c | c in cs ensures CidrSurvivorOf(f)(c) == if CidrBelowTop(c) then Some(c) else None {
      CanonicalSurvivor(f, c);
    }
    CollectLength(CidrSurvivorOf(f), cs);
    SortKeepsLength(Collect(CidrSurvivorOf(f), cs));
    if forall c :: c in cs ==> CidrBelowTop(c) {
      CollectAll(CidrSurvivorOf(f), cs);
      SortOfSorted(cs);
    }
  }

  lemma SortKeepsLength(ss: seq<string>)
    ensures |SortStrings(ss)| == |ss|
  {
    assert |multiset(SortStrings(ss))| == |multiset(ss)|;
  }

  // ---- address sets ----------------------------------------------------------

  predicate IsLast(a: Addr) { a.val + 1 == Pow2(Width(a.fam)) }

  function IpSurvivor(f: Family, s: string): Option<string> {
    match ParseAddr(s)
    case Some(raw) =>
      var a := Unmap(raw);
      if a.fam == f && !IsLast(a) then Some(Text(a)) else None
    case None => None
  }

  function IpSurvivorOf(f: Family): string -> Option<string> { s => IpSurvivor(f, s) }

  function IntervalIp(f: Family): Interval -> Option<string> { iv => IpOfPair(f, AsPair(iv)) }

  lemma IpReadsBack(f: Family, s: string)
    ensures IpSurvivor(f, s) ==
            (match IpInterval(f, s) case Some(iv) => IpOfPair(f, AsPair(iv)) case None => None)
  {
    hide Text, Unmap, AddrBytes, BytesToAddr, Pow2;
    match ParseAddr(s)
    case Some(raw) =>
      var a := Unmap(raw);
      BytesToAddrOfBytes(a);
      if !IsLast(a) {
        BytesToAddrOfBytes(RawAddr.Addr(a.fam, a.val + 1));
      }
    case None =>
  }

  /** readAddrSet after ipsToElements, on any list: only the last address of a family is lost. */
  lemma IpsReadBack(f: Family, ips: seq<string>)
    ensures IpsRead(f, Flatten(IpIntervals(f, ips))) == SortStrings(Collect(IpSurvivorOf(f), ips))
  {
    hide IpInterval, IpOfPair, IpSurvivor, Flatten, PairUp, SortStrings, Collect;
    var ivs := IpIntervals(f, ips);
    IpIntervalsSized(f, ips);
    PairUpFlatten(ivs, KeyLength(f));
    CollectPairs(IpDecoder(f), IntervalIp(f), ivs);
    forall s | s in ips
      ensures IpSurvivorOf(f)(s) ==
              (match IpEncoder(f)(s) case Some(iv) => IntervalIp(f)(iv) case None => None)
    {
      IpReadsBack(f, s);
    }
    CollectCompose(IpEncoder(f), IntervalIp(f), IpSurvivorOf(f), ips);
  }

  lemma IpIntervalsSized(f: Family, ips: seq<string>)
    ensures Sized(IpIntervals(f, ips), KeyLength(f))
  {
    forall iv | iv in IpIntervals(f, ips) ensures |iv.start| == KeyLength(f) == |iv.end| {
      CollectMembers(IpEncoder(f), ips, iv);
    }
  }

  /** The text of an unmapped address of family f. */
  ghost predicate IsIpText(f: Family, s: string) {
    exists a: Addr :: a.fam == f && !a.Is4In6() && Text(a) == s
  }

  ghost predicate CanonicalIps(f: Family, ips: seq<string>) {
    Sorted(ips) && forall s :: s in ips ==> IsIpText(f, s)
  }

  predicate IpBelowTop(s: string) {
    ParseAddr(s).Some? && !IsLast(ParseAddr(s).value)
  }

  lemma CanonicalIpSurvivor(f: Family, s: string)
    requires IsIpText(f, s)
    ensures IpSurvivor(f, s) == if IpBelowTop(s) then Some(s) else None
  {
    var a: Addr :| a.fam == f && !a.Is4In6() && Text(a) == s;
    TextRoundTrip(a);
  }

  /** The address codec is the identity on sorted canonical lists exactly without the all-ones address. */
  lemma IpCodecIdentity(f: Family, ips: seq<string>)
    requires CanonicalIps(f, ips)
    ensures IpsRead(f, Flatten(IpIntervals(f, ips))) == ips <==> forall s :: s in ips ==> IpBelowTop(s)
  {
    IpsReadBack(f, ips);
    forall s | s in ips ensures IpSurvivorOf(f)(s) == if IpBelowTop(s) then Some(s) else None {
      CanonicalIpSurvivor(f, s);
    }
    CollectLength(IpSurvivorOf(f), ips);
    SortKeepsLength(Collect(IpSurvivorOf(f), ips));
    if forall s :: s in ips ==> IpBelowTop(s) {
      CollectAll(IpSurvivorOf(f), ips);
      SortOfSorted(ips);
    }
  }

  // ---- denotation ------------------------------------------------------------

  /** Whether a written interval holds a value. */
  predicate InInterval(iv: Interval, x: nat) { InPair(AsPair(iv), x) }

  lemma MatchesFlatten(ivs: seq<Interval>, len: nat, x: nat)
    requires Sized(ivs, len)
    ensures Matches(Flatten(ivs), len, x) <==> exists iv :: iv in ivs && InInterval(iv, x)
  {
    PairUpFlatten(ivs, len);
    if iv :| iv in ivs && InInterval(iv, x) {
      var i :| 0 <= i < |ivs| && ivs[i] == iv;
      assert Pairs(ivs)[i] == AsPair(iv);
    }
    if p :| p in Pairs(ivs) && InPair(p, x) {
      var i :| 0 <= i < |ivs| && Pairs(ivs)[i] == p;
      assert InInterval(ivs[i], x);
    }
  }

  /** The interval of a network holds exactly its addresses; the whole space loses its last one. */
  lemma NetworkInterval(p: Prefix, a: Addr)
    requires Masked(p) == p && a.fam == p.addr.fam
    ensures InPair(Pair(AddrBytes(p.addr), EndKey(p.addr, p.bits)), a.val)
            <==> Covers(p, a) && !(p.bits == 0 && IsLast(a))
  {
    EndKeyNumber(p);
    CoversInterval(p, a);
  }

  /** The CIDR text names the address. */
  predicate CidrNames(c: string, a: Addr) {
    match ParsePrefix(c)
    case Some(p) => Covers(p, a) && !(p.bits == 0 && IsLast(a))
    case None => false
  }

  /** The written trusted-range set matches exactly the addresses its CIDRs name. */
  lemma CidrsDenote(f: Family, cs: seq<string>, a: Addr)
    requires a.fam == f
    ensures Matches(Flatten(CidrIntervals(f, cs)), KeyLength(f), a.val)
            <==> exists c :: c in cs && CidrNames(c, a)
  {
    hide CidrInterval, CidrNames, Collect, Flatten, Matches, InInterval;
    var ivs := CidrIntervals(f, cs);
    CidrIntervalsSized(f, cs);
    MatchesFlatten(ivs, KeyLength(f), a.val);
    if iv :| iv in ivs && InInterval(iv, a.val) {
      CollectMembers(CidrEncoder(f), cs, iv);
      var c :| c in cs && CidrEncoder(f)(c) == Some(iv);
      CidrIntervalNames(f, c, a);
    }
    if c :| c in cs && CidrNames(c, a) {
      CidrIntervalNames(f, c, a);
      CollectMembers(CidrEncoder(f), cs, CidrEncoder(f)(c).value);
    }
  }

  lemma CidrIntervalNames(f: Family, c: string, a: Addr)
    requires a.fam == f
    ensures CidrNames(c, a) <==> CidrInterval(f, c).Some? && InInterval(CidrInterval(f, c).value, a.val)
  {
    match ParsePrefix(c)
    case Some(p) =>
      if p.addr.fam == f {
        BlockInSpace(p);
        NetworkInterval(Masked(p), a);
        CoversMasked(p, a);
      }
    case None =>
  }

  /** The address text names the address, after unmapping. */
  predicate IpNames(s: string, a: Addr) {
    ParseAddr(s).Some? && Unmap(ParseAddr(s).value) == a && !IsLast(a)
  }

  /** The written peer set matches exactly the addresses its members name. */
  lemma IpsDenote(f: Family, ips: seq<string>, a: Addr)
    requires a.fam == f
    ensures Matches(Flatten(IpIntervals(f, ips)), KeyLength(f), a.val)
            <==> exists s :: s in ips && IpNames(s, a)
  {
    hide IpInterval, IpNames, Collect, Flatten, Matches, InInterval;
    var ivs := IpIntervals(f, ips);
    IpIntervalsSized(f, ips);
    MatchesFlatten(ivs, KeyLength(f), a.val);
    if iv :| iv in ivs && InInterval(iv, a.val) {
      CollectMembers(IpEncoder(f), ips, iv);
      var s :| s in ips && IpEncoder(f)(s) == Some(iv);
      IpIntervalNames(f, s, a);
    }
    if s :| s in ips && IpNames(s, a) {
      IpIntervalNames(f, s, a);
      CollectMembers(IpEncoder(f), ips, IpEncoder(f)(s).value);
    }
  }

  lemma IpIntervalNames(f: Family, s: string, a: Addr)
    requires a.fam == f
    ensures IpNames(s, a) <==> IpInterval(f, s).Some? && InInterval(IpInterval(f, s).value, a.val)
  {
    hide ParseAddr, Unmap, AddrBytes, Pow2;
  }
}
