/** Port strings and the port sets (tenant_ports_tcp, tenant_ports_udp). */
module NftPorts {
  import opened Texts
  import opened Collecting
  import opened Bits
  import opened NftKeys
  import opened NftRoundTrip

  // ---- parsing ---------------------------------------------------------------

  predicate IsBlank(c: char) { c == ' ' || c == '\t' || c == '\n' || c == '\r' }

  function Trimmed(s: string): string { TrimBy(IsBlank, s) }

  /** trimSpaces. */
  method TrimSpaces(s: string) returns (t: string)
    ensures t == Trimmed(s)
  {
    t := s;
    while |t| > 0 && IsBlank(t[0])
      invariant TrimLeft(IsBlank, t) == TrimLeft(IsBlank, s)
    {
      t := t[1..];
    }
    while |t| > 0 && IsBlank(t[|t| - 1])
      invariant TrimRight(IsBlank, t) == Trimmed(s)
    {
      t := t[..|t| - 1];
    }
  }

  /** The port a string of one to five digits names. */
  function PortValue(s: string): Option<nat> {
    if 0 < |s| <= 5 && AllDigits(s) && 1 <= Value(s) <= 65535 then Some(Value(s)) else None
  }

  lemma {:induction false} ValueOfPrefix(s: string, i: nat)
    requires AllDigits(s) && i <= |s|
    ensures AllDigits(s[..i]) && Value(s[..i]) <= Value(s)
    decreases |s|
  {
    if i < |s| {
      assert s[..|s| - 1][..i] == s[..i];
      ValueOfPrefix(s[..|s| - 1], i);
    } else {
      assert s[..i] == s;
    }
  }

  /** parsePort. */
  method ParsePort(s: string) returns (r: Option<nat>)
    ensures r == PortValue(s)
  {
    if s == "" || |s| > 5 {
      return None;
    }
    var v: nat := 0;
    for i := 0 to |s|
      invariant AllDigits(s[..i]) && v == Value(s[..i]) <= 65535
    {
      var c := s[i];
      if c < '0' || c > '9' {
        assert !IsDigit(s[i]);
        return None;
      }
      assert s[..i + 1][..i] == s[..i];
      v := v * 10 + DigitValue(c);
      if v > 65535 {
        if AllDigits(s) { ValueOfPrefix(s, i + 1); }
        return None;
      }
    }
    assert s[..|s|] == s;
    if v == 0 {
      return None;
    }
    return Some(v);
  }

  datatype Ports = Ports(lo: nat, hi: nat)

  function FirstDash(s: string): (i: Option<nat>)
    ensures i.Some? ==> i.value < |s| && s[i.value] == '-' && Free(s[..i.value], '-')
    ensures i.None? ==> Free(s, '-')
  {
    if s == "" then None
    else if s[0] == '-' then Some(0)
    else
      match FirstDash(s[1..])
      case Some(i) =>
        assert s[..i + 1] == [s[0]] + s[1..][..i];
        Some(i + 1)
      case None => None
  }

  /** The ports a string names: one port or an ordered range, blanks around it ignored. */
  function PortsNamed(s: string): (r: Option<Ports>)
    ensures r.Some? ==> 1 <= r.value.lo <= r.value.hi <= 65535
  {
    var t := Trimmed(s);
    match FirstDash(t)
    case None => (match PortValue(t) case Some(v) => Some(Ports(v, v)) case None => None)
    case Some(d) =>
      (match (PortValue(t[..d]), PortValue(t[d + 1..]))
       case (Some(a), Some(b)) => if a <= b then Some(Ports(a, b)) else None
       case _ => None)
  }

  /** parsePortOrRange. */
  method ParsePortOrRange(s: string) returns (r: Option<Ports>)
    ensures r == PortsNamed(s)
  {
    var t := TrimSpaces(s);
    if t == "" {
      return None;
    }
    var dash: int := -1;
    for i := 0 to |t|
      invariant dash == -1 && FirstDash(t) == (match FirstDash(t[i..]) case Some(d) => Some(d + i) case None => None)
    {
      assert t[i..][0] == t[i] && t[i..][1..] == t[i + 1..];
      if t[i] == '-' {
        dash := i;
        break;
      }
    }
    if dash < 0 {
      var v := ParsePort(t);
      return match v case Some(p) => Some(Ports(p, p)) case None => None;
    }
    var a := ParsePort(t[..dash]);
    var b := ParsePort(t[dash + 1..]);
    if a.None? || b.None? || a.value > b.value {
      return None;
    }
    return Some(Ports(a.value, b.value));
  }

  // ---- printing --------------------------------------------------------------

  /** The form readPortSet prints: a bare port or lo-hi. */
  function PortText(p: Ports): string {
    if p.lo == p.hi then Decimal(p.lo) else Decimal(p.lo) + ['-'] + Decimal(p.hi)
  }

  lemma DecimalPort(n: nat)
    requires 1 <= n <= 65535
    ensures PortValue(Decimal(n)) == Some(n) && Free(Decimal(n), '-')
  {
    DecimalRoundTrip(n);
    assert Pow10(2) == 100 && Pow10(4) == 100 * Pow10(2);
    assert Pow10(5) == 10 * Pow10(4);
    DecimalLength(n, 5);
  }

  lemma FirstDashAt(s: string, t: string)
    requires Free(s, '-')
    ensures FirstDash(s + ['-'] + t) == Some(|s|)
  {
    var whole := s + ['-'] + t;
    var d := FirstDash(whole).value;
    assert whole[|s|] == '-';
    assert forall i :: 0 <= i < |s| ==> whole[i] == s[i] != '-';
    assert forall i :: 0 <= i < d ==> whole[i] == whole[..d][i] != '-';
  }

  /** Every port and every range parses back from its printed form. */
  lemma PortTextParses(p: Ports)
    requires 1 <= p.lo <= p.hi <= 65535
    ensures PortsNamed(PortText(p)) == Some(p)
  {
    DecimalPort(p.lo);
    DecimalPort(p.hi);
    var s, lo, hi := PortText(p), Decimal(p.lo), Decimal(p.hi);
    assert s[0] == lo[0] && s[|s| - 1] == hi[|hi| - 1];
    TrimOfTight(IsBlank, s);
    if p.lo != p.hi {
      FirstDashAt(lo, hi);
      assert s[..|lo|] == lo && s[|lo| + 1..] == hi;
    }
  }

  // ---- port strings as a grammar ---------------------------------------------

  /** One to five digits that spell the number. */
  ghost predicate Spells(d: string, n: nat) {
    1 <= |d| <= 5 && (forall i :: 0 <= i < |d| ==> '0' <= d[i] <= '9') && Value(d) == n
  }

  ghost predicate Blanks(s: string) { forall i :: 0 <= i < |s| ==> s[i] in {' ', '\t', '\n', '\r'} }

  /** A port, or two ports in order with a dash between them. */
  ghost predicate SpellsRange(t: string, lo: nat, hi: nat) {
    1 <= lo <= hi <= 65535 &&
    ((lo == hi && Spells(t, lo)) || exists a, b :: t == a + "-" + b && Spells(a, lo) && Spells(b, hi))
  }

  /** The same between blanks. */
  ghost predicate SpellsPorts(s: string, lo: nat, hi: nat) {
    exists lead, t, trail :: s == lead + t + trail && Blanks(lead) && Blanks(trail) && SpellsRange(t, lo, hi)
  }

  lemma SpellsValue(d: string, n: nat)
    requires 1 <= n <= 65535
    ensures Spells(d, n) <==> PortValue(d) == Some(n)
  {
  }

  lemma SpelledEnds(t: string, lo: nat, hi: nat)
    requires SpellsRange(t, lo, hi)
    ensures t != "" && '0' <= t[0] <= '9' && '0' <= t[|t| - 1] <= '9'
  {
    if a, b :| t == a + "-" + b && Spells(a, lo) && Spells(b, hi) {
      assert t[0] == a[0] && t[|t| - 1] == b[|b| - 1];
    }
  }

  /** Reading a text without blanks at its ends. */
  lemma SpelledIsNamed(t: string, lo: nat, hi: nat)
    requires Trimmed(t) == t
    ensures SpellsRange(t, lo, hi) <==> PortsNamed(t) == Some(Ports(lo, hi))
  {
    hide PortValue, Trimmed, Value;
    if SpellsRange(t, lo, hi) {
      if lo == hi && Spells(t, lo) {
        SpellsValue(t, lo);
        assert Free(t, '-');
      } else {
        var a, b :| t == a + "-" + b && Spells(a, lo) && Spells(b, hi);
        SpellsValue(a, lo);
        SpellsValue(b, hi);
        assert Free(a, '-');
        FirstDashAt(a, b);
        assert t[..|a|] == a && t[|a| + 1..] == b;
      }
    }
    if PortsNamed(t) == Some(Ports(lo, hi)) {
      match FirstDash(t)
      case None => SpellsValue(t, lo);
      case Some(d) =>
        SpellsValue(t[..d], lo);
        SpellsValue(t[d + 1..], hi);
        assert t == t[..d] + "-" + t[d + 1..];
    }
  }

  /** A string is read as the ports it spells, and every other string as none. */
  lemma PortsNamedExactly(s: string, lo: nat, hi: nat)
    ensures PortsNamed(s) == Some(Ports(lo, hi)) <==> SpellsPorts(s, lo, hi)
  {
    hide SpellsRange, TrimBy, PortValue;
    var lead, trail := TrimParts(IsBlank, s);
    TrimTwice(IsBlank, s);
    SpelledIsNamed(Trimmed(s), lo, hi);
    assert Blanks(lead) && Blanks(trail);
    if SpellsPorts(s, lo, hi) {
      var x, t, y :| s == x + t + y && Blanks(x) && Blanks(y) && SpellsRange(t, lo, hi);
      SpelledEnds(t, lo, hi);
      TrimStrips(IsBlank, x, t, y);
    }
  }

  // ---- encoding --------------------------------------------------------------

  /** portBytes. */
  function PortBytes(p: nat): (k: Key)
    requires p < 0x1_0000
    ensures |k| == 2 && Number(k) == p
  {
    TwoBytes(p / 256, p % 256);
    [p / 256, p % 256]
  }

  lemma TwoBytes(a: Byte, b: Byte)
    ensures Number([a, b]) == 256 * a + b
  {
    assert [a, b][..1] == [a] && [a][..0] == [];
    assert Number([a]) == a;
  }

  /** One port string as [lo, hi + 1), the end truncated to sixteen bits. */
  function PortInterval(s: string): (r: Option<Interval>)
    ensures r.Some? ==> |r.value.start| == 2 == |r.value.end|
  {
    match PortsNamed(s)
    case Some(p) => Some(Interval(PortBytes(p.lo), PortBytes((p.hi + 1) % 0x1_0000), 0))
    case None => None
  }

  function PortIntervals(ps: seq<string>): seq<Interval> { Collect(PortInterval, ps) }

  /** portsToElements. */
  method PortsToElements(ps: seq<string>) returns (out: seq<Element>)
    ensures out == Flatten(PortIntervals(ps))
  {
    hide Collect, Flatten, PortBytes;
    CollectEmpty(PortInterval);
    FlattenEmpty();
    out := [];
    for i := 0 to |ps|
      invariant out == Flatten(PortIntervals(ps[..i]))
    {
      assert ps[..i + 1] == ps[..i] + [ps[i]];
      CollectAppend(PortInterval, ps[..i], ps[i]);
      ghost var ivs := PortIntervals(ps[..i]);
      assert ivs + [] == ivs;
      var p := ParsePortOrRange(ps[i]);
      if p.None? {
        continue;
      }
      var end := (p.value.hi + 1) % 0x1_0000;
      out := out + [Element(PortBytes(p.value.lo), false, 0), Element(PortBytes(end), true, 0)];
      FlattenAppend(ivs, Interval(PortBytes(p.value.lo), PortBytes(end), 0));
    }
    assert ps[..|ps|] == ps;
  }

  /** bytesToPort. */
  function BytesToPort(k: Key): Option<nat> {
    if |k| != 2 then None else Some(256 * (k[0] as int) + k[1])
  }

  lemma BytesToPortNumber(k: Key)
    requires |k| == 2
    ensures BytesToPort(k) == Some(Number(k)) && Number(k) < 0x1_0000 && PortBytes(Number(k)) == k
  {
    TwoBytes(k[0], k[1]);
    assert k == [k[0], k[1]];
  }

  /** The range of a pair: an end of zero stands for the top, an end at or below the start for nothing. */
  function PortsOfPair(p: Pair): (r: Option<string>)
    requires |p.start| == 2 && |p.end| == 2
  {
    var lo, end := BytesToPort(p.start).value, BytesToPort(p.end).value;
    if end == 0 then Some(PortText(Ports(lo, 65535)))
    else if end <= lo then None
    else Some(PortText(Ports(lo, end - 1)))
  }

  function PortDecoder(p: Pair): Option<string> {
    if |p.start| == 2 && |p.end| == 2 then PortsOfPair(p) else None
  }

  function PortsRead(es: seq<Element>): seq<string> {
    SortStrings(Collect(PortDecoder, PairUp(es, 2, None)))
  }

  function PortKey(p: Option<nat>): Option<Key>
    requires p.Some? ==> p.value < 0x1_0000
  {
    match p case Some(v) => Some(PortBytes(v)) case None => None
  }

  /** The loop of readPortSet over the elements it got. */
  method ReadPortElements(es: seq<Element>) returns (out: seq<string>)
    ensures out == PortsRead(es)
  {
    hide Collect, PairUp, PortBytes;
    CollectEmpty(PortDecoder);
    out := [];
    var pendingStart: Option<nat> := None;
    ghost var seen: seq<Pair> := [];
    for i := 0 to |es|
      invariant pendingStart.Some? ==> pendingStart.value < 0x1_0000
      invariant seen + PairUp(es[i..], 2, PortKey(pendingStart)) == PairUp(es, 2, None)
      invariant out == Collect(PortDecoder, seen)
    {
      var e := es[i];
      PairUpStep(es, i, 2, PortKey(pendingStart));
      if |e.key| == 2 { BytesToPortNumber(e.key); }
      if !e.intervalEnd {
        pendingStart := BytesToPort(e.key);
        continue;
      }
      if pendingStart.None? {
        continue;
      }
      var start := pendingStart.value;
      pendingStart := None;
      var end := BytesToPort(e.key);
      if end.None? {
        continue;
      }
      ghost var pair := Pair(PortBytes(start), e.key);
      BytesToPortNumber(PortBytes(start));
      CollectAppend(PortDecoder, seen, pair);
      TakeOver(seen, pair, PairUp(es[i + 1..], 2, None));
      seen := seen + [pair];
      var hi: nat;
      if end.value == 0 {
        hi := 65535;
      } else if end.value <= start {
        continue;
      } else {
        hi := end.value - 1;
      }
      if hi == start {
        out := out + [Decimal(start)];
      } else {
        out := out + [Decimal(start) + ['-'] + Decimal(hi)];
      }
    }
    PairUpStep(es, |es|, 2, PortKey(pendingStart));
    assert seen + [] == seen;
    out := SortStrings(out);
  }

  // ---- round trip ------------------------------------------------------------

  /** The canonical spelling of what a port string names. */
  function PortCanon(s: string): Option<string> {
    match PortsNamed(s) case Some(p) => Some(PortText(p)) case None => None
  }

  function IntervalPorts(iv: Interval): Option<string> { PortDecoder(AsPair(iv)) }

  lemma PortReadsBack(s: string)
    ensures PortCanon(s) == (match PortInterval(s) case Some(iv) => IntervalPorts(iv) case None => None)
  {
    hide PortText, PortBytes, BytesToPort;
    match PortsNamed(s)
    case Some(p) =>
      BytesToPortNumber(PortBytes(p.lo));
      BytesToPortNumber(PortBytes((p.hi + 1) % 0x1_0000));
    case None =>
  }

  lemma PortIntervalsSized(ps: seq<string>)
    ensures Sized(PortIntervals(ps), 2)
  {
    forall iv | iv in PortIntervals(ps) ensures |iv.start| == 2 == |iv.end| {
      CollectMembers(PortInterval, ps, iv);
    }
  }

  /** readPortSet after portsToElements, on any list: every string that names ports comes back in its
      canonical spelling, including ranges up to 65535 whose end key wraps to zero. */
  lemma PortsReadBack(ps: seq<string>)
    ensures PortsRead(Flatten(PortIntervals(ps))) == SortStrings(Collect(PortCanon, ps))
  {
    var ivs := PortIntervals(ps);
    PortIntervalsSized(ps);
    PairUpFlatten(ivs, 2);
    CollectPairs(PortDecoder, IntervalPorts, ivs);
    forall s | s in ps
      ensures PortCanon(s) == (match PortInterval(s) case Some(iv) => IntervalPorts(iv) case None => None)
    {
      PortReadsBack(s);
    }
    CollectCompose(PortInterval, IntervalPorts, PortCanon, ps);
  }

  /** The string is the canonical spelling of the ports it names. */
  predicate CanonicalPort(s: string) { PortCanon(s) == Some(s) }

  /** The port codec is the identity on a sorted list exactly when every string in it is canonical. */
  lemma PortCodecIdentity(ps: seq<string>)
    requires Sorted(ps)
    ensures PortsRead(Flatten(PortIntervals(ps))) == ps <==> forall s :: s in ps ==> CanonicalPort(s)
  {
    PortsReadBack(ps);
    var canon := Collect(PortCanon, ps);
    if forall s :: s in ps ==> CanonicalPort(s) {
      CollectAll(PortCanon, ps);
      SortOfSorted(ps);
    }
    if SortStrings(canon) == ps {
      forall s | s in ps ensures CanonicalPort(s) {
        assert s in multiset(canon);
        CollectMembers(PortCanon, ps, s);
        var x :| x in ps && PortCanon(x) == Some(s);
        PortTextParses(PortsNamed(x).value);
      }
    }
  }

  /** The string spells ports among which the port is. */
  ghost predicate PortNames(s: string, x: nat) {
    exists lo: nat, hi: nat :: SpellsPorts(s, lo, hi) && lo <= x <= hi
  }

  lemma PortNamesRead(s: string, x: nat)
    ensures PortNames(s, x) <==> PortsNamed(s).Some? && PortsNamed(s).value.lo <= x <= PortsNamed(s).value.hi
  {
    hide SpellsPorts, PortsNamed;
    forall lo: nat, hi: nat ensures PortsNamed(s) == Some(Ports(lo, hi)) <==> SpellsPorts(s, lo, hi) {
      PortsNamedExactly(s, lo, hi);
    }
    if PortsNamed(s).Some? {
      var p := PortsNamed(s).value;
      assert SpellsPorts(s, p.lo, p.hi);
    }
  }

  lemma PortIntervalNames(s: string, x: nat)
    requires x <= 65535
    ensures PortNames(s, x) <==> PortInterval(s).Some? && InInterval(PortInterval(s).value, x)
  {
    hide PortBytes, PortNames;
    PortNamesRead(s, x);
  }

  /** The written port set matches exactly the ports its strings name. */
  lemma PortsDenote(ps: seq<string>, x: nat)
    requires x <= 65535
    ensures Matches(Flatten(PortIntervals(ps)), 2, x) <==> exists s :: s in ps && PortNames(s, x)
  {
    hide PortInterval, PortNames, Flatten;
    var ivs := PortIntervals(ps);
    PortIntervalsSized(ps);
    MatchesFlatten(ivs, 2, x);
    if iv :| iv in ivs && InInterval(iv, x) {
      CollectMembers(PortInterval, ps, iv);
      var s :| s in ps && PortInterval(s) == Some(iv);
      PortIntervalNames(s, x);
    }
    if s :| s in ps && PortNames(s, x) {
      PortIntervalNames(s, x);
      CollectMembers(PortInterval, ps, PortInterval(s).value);
    }
  }
}
