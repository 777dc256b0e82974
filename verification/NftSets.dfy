/** Encoders and readers of the address sets (cluster_peers_*, trusted_ranges_*). */
module NftSets {
  import opened Texts
  import opened Collecting
  import opened Bits
  import opened Addresses
  import opened IpText
  import opened NftKeys

  // ---- prefix length from an interval ----------------------------------------

  /** big.Int.BitLen. */
  function BitLen(n: nat): nat { if n == 0 then 0 else 1 + BitLen(n / 2) }

  lemma {:induction false} BitLenOfPow2(k: nat)
    ensures BitLen(Pow2(k)) == k + 1
  {
    if k > 0 { BitLenOfPow2(k - 1); }
  }

  /** prefixFromInterval: the length of a block from its bounds, when their distance is a power of two. */
  function PrefixFromInterval(start: nat, end: nat, totalBits: nat): Option<nat> {
    if end <= start then None
    else
      var diff := end - start;
      var k := BitLen(diff) - 1;
      if diff != Pow2(k) || k > totalBits then None else Some(totalBits - k)
  }

  /** The recovered length is the one whose block has that size, and no other distance is accepted. */
  lemma PrefixFromIntervalExact(start: nat, end: nat, totalBits: nat, bits: nat)
    requires bits <= totalBits
    ensures PrefixFromInterval(start, end, totalBits) == Some(bits) <==> end - start == Pow2(totalBits - bits)
  {
    BitLenOfPow2(totalBits - bits);
  }

  lemma BitLenPositive(n: nat)
    requires n > 0
    ensures BitLen(n) >= 1
  {
  }

  lemma OneBelowPower(k: nat, j: int)
    requires k >= 2
    ensures Pow2(k) >= 4 && (j >= 0 ==> Pow2(j) != Pow2(k) - 1)
  {
    hide Pow2;
    Pow2Monotone(1, k);
    PowersEven(k);
    if j >= 0 { PowersEven(j); }
  }

  lemma PowersEven(k: nat)
    ensures if k == 0 then Pow2(k) == 1 else Pow2(k) == 2 * Pow2(k - 1)
    ensures Pow2(1) == 2
  {
  }

  lemma NotAPower(start: nat, k: nat, totalBits: nat)
    requires k >= 2
    ensures PrefixFromInterval(start, start + Pow2(k) - 1, totalBits) == None
  {
    hide Pow2, BitLen;
    OneBelowPower(k, BitLen(Pow2(k) - 1) - 1);
    BitLenPositive(Pow2(k) - 1);
  }

  // ---- encoders --------------------------------------------------------------

  /** One CIDR as an interval; none when it does not parse or is of the other family. */
  function CidrInterval(f: Family, c: string): (r: Option<Interval>)
    ensures r.Some? ==> |r.value.start| == KeyLength(f) == |r.value.end|
  {
    match ParsePrefix(c)
    case Some(p) =>
      if p.addr.fam != f then None
      else Some(Interval(AddrBytes(Masked(p).addr), EndKey(Masked(p).addr, p.bits), 0))
    case None => None
  }

  function CidrEncoder(f: Family): string -> Option<Interval> { c => CidrInterval(f, c) }

  function CidrIntervals(f: Family, cs: seq<string>): seq<Interval> { Collect(CidrEncoder(f), cs) }

  /** cidrsToElements. */
  method CidrsToElements(cs: seq<string>, f: Family) returns (out: seq<Element>)
    ensures out == Flatten(CidrIntervals(f, cs))
  {
    hide ParsePrefix, Masked, AddrBytes, EndKey, Collect, Flatten;
    CollectEmpty(CidrEncoder(f));
    FlattenEmpty();
    out := [];
    for i := 0 to |cs|
      invariant out == Flatten(CidrIntervals(f, cs[..i]))
    {
      assert cs[..i + 1] == cs[..i] + [cs[i]];
      CollectAppend(CidrEncoder(f), cs[..i], cs[i]);
      ghost var ivs := CidrIntervals(f, cs[..i]);
      assert ivs + [] == ivs;
      var parsed := ParsePrefix(cs[i]);
      if parsed.None? {
        continue;
      }
      var p := Masked(parsed.value);
      if p.addr.Is4() != f.V4? {
        continue;
      }
      var end := NextNetwork(p.addr, p.bits);
      if end.None? {
        continue;
      }
      out := out + [Element(AddrBytes(p.addr), false, 0), Element(end.value, true, 0)];
      FlattenAppend(ivs, Interval(AddrBytes(p.addr), end.value, 0));
    }
    assert cs[..|cs|] == cs;
  }

  /** One bare address as [a, a+1); none when it does not parse, is of the other family after unmapping,
      or is the last address of its family. */
  function IpInterval(f: Family, s: string): (r: Option<Interval>)
    ensures r.Some? ==> |r.value.start| == KeyLength(f) == |r.value.end|
  {
    match ParseAddr(s)
    case Some(raw) =>
      var a := Unmap(raw);
      if a.fam != f || a.val + 1 == Pow2(Width(f)) then None
      else Some(Interval(AddrBytes(a), AddrBytes(RawAddr.Addr(f, a.val + 1)), 0))
    case None => None
  }

  function IpEncoder(f: Family): string -> Option<Interval> { s => IpInterval(f, s) }

  function IpIntervals(f: Family, ips: seq<string>): seq<Interval> { Collect(IpEncoder(f), ips) }

  /** Addr.Next: none after the last address. */
  function Next(a: Addr): Option<Addr> {
    if a.val + 1 < Pow2(Width(a.fam)) then Some(RawAddr.Addr(a.fam, a.val + 1)) else None
  }

  /** ipsToElements. */
  method IpsToElements(ips: seq<string>, f: Family) returns (out: seq<Element>)
    ensures out == Flatten(IpIntervals(f, ips))
  {
    hide ParseAddr, Unmap, AddrBytes, Collect, Flatten, Pow2;
    CollectEmpty(IpEncoder(f));
    FlattenEmpty();
    out := [];
    for i := 0 to |ips|
      invariant out == Flatten(IpIntervals(f, ips[..i]))
    {
      assert ips[..i + 1] == ips[..i] + [ips[i]];
      CollectAppend(IpEncoder(f), ips[..i], ips[i]);
      ghost var ivs := IpIntervals(f, ips[..i]);
      assert ivs + [] == ivs;
      var parsed := ParseAddr(ips[i]);
      if parsed.None? {
        continue;
      }
      var a := Unmap(parsed.value);
      if a.Is4() != f.V4? {
        continue;
      }
      var next := Next(a);
      if next.None? {
        continue;
      }
      out := out + [Element(AddrBytes(a), false, 0), Element(AddrBytes(next.value), true, 0)];
      FlattenAppend(ivs, Interval(AddrBytes(a), AddrBytes(next.value), 0));
    }
    assert ips[..|ips|] == ips;
  }

  // ---- readers ---------------------------------------------------------------

  /** bytesToAddr: the inverse of addrBytes on keys of the right size. */
  function BytesToAddr(k: Key, f: Family): (r: Option<Addr>)
    ensures r.Some? <==> |k| == KeyLength(f)
    ensures r.Some? ==> r.value.fam == f && AddrBytes(r.value) == k
  {
    if |k| != KeyLength(f) then None
    else
      BytesOfNumber(k);
      NumberInjective(AddrBytes(RawAddr.Addr(f, Number(k))), k);
      Some(RawAddr.Addr(f, Number(k)))
  }

  lemma BytesToAddrOfBytes(a: Addr)
    ensures BytesToAddr(AddrBytes(a), a.fam) == Some(a)
  {
  }

  function CidrOfPair(f: Family, p: Pair): Option<string> {
    match (BytesToAddr(p.start, f), BytesToAddr(p.end, f))
    case (Some(a), Some(e)) =>
      (match PrefixFromInterval(a.val, e.val, Width(f))
       case Some(bits) => Some(Text(a) + ['/'] + Decimal(bits))
       case None => None)
    case _ => None
  }

  function CidrDecoder(f: Family): Pair -> Option<string> { p => CidrOfPair(f, p) }

  function IpOfPair(f: Family, p: Pair): Option<string> {
    match (BytesToAddr(p.start, f), BytesToAddr(p.end, f))
    case (Some(a), Some(e)) => if Next(a) == Some(e) then Some(Text(a)) else None
    case _ => None
  }

  function IpDecoder(f: Family): Pair -> Option<string> { p => IpOfPair(f, p) }

  function CidrsRead(f: Family, es: seq<Element>): seq<string> {
    SortStrings(Collect(CidrDecoder(f), PairUp(es, KeyLength(f), None)))
  }

  function IpsRead(f: Family, es: seq<Element>): seq<string> {
    SortStrings(Collect(IpDecoder(f), PairUp(es, KeyLength(f), None)))
  }

  function KeyOf(a: Option<Addr>): Option<Key> {
    match a case Some(x) => Some(AddrBytes(x)) case None => None
  }

  /** The loop of readCidrSet over the elements it got. */
  method ReadCidrElements(es: seq<Element>, f: Family) returns (out: seq<string>)
    ensures out == CidrsRead(f, es)
  {
    hide AddrBytes, Text, PrefixFromInterval, Decimal, Collect, BytesToAddr, PairUp;
    CollectEmpty(CidrDecoder(f));
    out := [];
    var pendingStart: Option<Addr> := None;
    ghost var seen: seq<Pair> := [];
    for i := 0 to |es|
      invariant pendingStart.Some? ==> pendingStart.value.fam == f
      invariant seen + PairUp(es[i..], KeyLength(f), KeyOf(pendingStart)) == PairUp(es, KeyLength(f), None)
      invariant out == Collect(CidrDecoder(f), seen)
    {
      var e := es[i];
      PairUpStep(es, i, KeyLength(f), KeyOf(pendingStart));
      if !e.intervalEnd {
        pendingStart := BytesToAddr(e.key, f);
        continue;
      }
      if pendingStart.None? {
        continue;
      }
      var start := pendingStart.value;
      pendingStart := None;
      var end := BytesToAddr(e.key, f);
      if end.None? {
        continue;
      }
      ghost var pair := Pair(AddrBytes(start), e.key);
      BytesToAddrOfBytes(start);
      CollectAppend(CidrDecoder(f), seen, pair);
      TakeOver(seen, pair, PairUp(es[i + 1..], KeyLength(f), None));
      seen := seen + [pair];
      var bits := PrefixFromInterval(start.val, end.value.val, Width(f));
      if bits.None? {
        continue;
      }
      out := out + [Text(start) + ['/'] + Decimal(bits.value)];
    }
    PairUpStep(es, |es|, KeyLength(f), KeyOf(pendingStart));
    assert seen + [] == seen;
    out := SortStrings(out);
  }

  /** The loop of readAddrSet over the elements it got. */
  method ReadAddrElements(es: seq<Element>, f: Family) returns (out: seq<string>)
    ensures out == IpsRead(f, es)
  {
    hide AddrBytes, Text, Collect, BytesToAddr, PairUp;
    CollectEmpty(IpDecoder(f));
    out := [];
    var pendingStart: Option<Addr> := None;
    ghost var seen: seq<Pair> := [];
    for i := 0 to |es|
      invariant pendingStart.Some? ==> pendingStart.value.fam == f
      invariant seen + PairUp(es[i..], KeyLength(f), KeyOf(pendingStart)) == PairUp(es, KeyLength(f), None)
      invariant out == Collect(IpDecoder(f), seen)
    {
      var e := es[i];
      PairUpStep(es, i, KeyLength(f), KeyOf(pendingStart));
      if !e.intervalEnd {
        pendingStart := BytesToAddr(e.key, f);
        continue;
      }
      if pendingStart.None? {
        continue;
      }
      var start := pendingStart.value;
      pendingStart := None;
      var end := BytesToAddr(e.key, f);
      if end.None? {
        continue;
      }
      ghost var pair := Pair(AddrBytes(start), e.key);
      BytesToAddrOfBytes(start);
      CollectAppend(IpDecoder(f), seen, pair);
      TakeOver(seen, pair, PairUp(es[i + 1..], KeyLength(f), None));
      seen := seen + [pair];
      if Next(start) == end {
        out := out + [Text(start)];
      }
    }
    PairUpStep(es, |es|, KeyLength(f), KeyOf(pendingStart));
    assert seen + [] == seen;
    out := SortStrings(out);
  }
}
