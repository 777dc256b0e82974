/** Text forms of addresses and prefixes, as net/netip prints and parses them. */
module IpText {
  import opened Texts
  import opened Bits
  import opened Addresses

  // ---- dotted quads ----------------------------------------------------------

  datatype Octets = Octets(a: nat, b: nat, c: nat, d: nat) {
    predicate Valid() { a < 256 && b < 256 && c < 256 && d < 256 }

    function Strings(): seq<string> { [Decimal(a), Decimal(b), Decimal(c), Decimal(d)] }
  }

  function OctetsOf(v: nat): (o: Octets)
    requires v < 0x1_0000_0000
    ensures o.Valid() && Compose(o) == v
  {
    var q1 := v / 256;
    var q2 := q1 / 256;
    Octets(q2 / 256, q2 % 256, q1 % 256, v % 256)
  }

  function Compose(o: Octets): (v: nat)
    requires o.Valid()
    ensures v < 0x1_0000_0000
  {
    ((o.a * 256 + o.b) * 256 + o.c) * 256 + o.d
  }

  lemma OctetsOfCompose(o: Octets)
    requires o.Valid()
    ensures OctetsOf(Compose(o)) == o
  {
    var q2 := o.a * 256 + o.b;
    var q1 := q2 * 256 + o.c;
    assert Compose(o) / 256 == q1 && q1 / 256 == q2;
  }

  function Quad(v: nat): string
    requires v < 0x1_0000_0000
  {
    Join(OctetsOf(v).Strings(), '.')
  }

  predicate IsOctet(s: string) {
    CanonicalDecimal(s) && Value(s) < 256
  }

  /** netip.ParseAddr on a dotted string: four octets, no leading zeros. */
  function ParseQuad(s: string): (r: Option<nat>)
    ensures r.Some? ==> r.value < 0x1_0000_0000
  {
    var parts := SplitOn(s, '.');
    if |parts| == 4 && IsOctet(parts[0]) && IsOctet(parts[1]) && IsOctet(parts[2]) && IsOctet(parts[3]) then
      Some(Compose(Octets(Value(parts[0]), Value(parts[1]), Value(parts[2]), Value(parts[3]))))
    else None
  }

  lemma DigitsFree(s: string, c: char)
    requires AllDigits(s) && !IsDigit(c)
    ensures Free(s, c)
  {
  }

  lemma OctetStrings(o: Octets)
    requires o.Valid()
    ensures IsOctet(Decimal(o.a)) && Value(Decimal(o.a)) == o.a
    ensures IsOctet(Decimal(o.b)) && Value(Decimal(o.b)) == o.b
    ensures IsOctet(Decimal(o.c)) && Value(Decimal(o.c)) == o.c
    ensures IsOctet(Decimal(o.d)) && Value(Decimal(o.d)) == o.d
    ensures SplitOn(Join(o.Strings(), '.'), '.') == o.Strings()
  {
    DecimalRoundTrip(o.a);
    DecimalRoundTrip(o.b);
    DecimalRoundTrip(o.c);
    DecimalRoundTrip(o.d);
    forall i | 0 <= i < 4 ensures Free(o.Strings()[i], '.') {
      DigitsFree(o.Strings()[i], '.');
    }
    SplitOfJoin(o.Strings(), '.');
  }

  /** Printing and parsing a dotted quad: every IPv4 value reads back ... */
  lemma QuadRoundTrip(v: nat)
    requires v < 0x1_0000_0000
    ensures ParseQuad(Quad(v)) == Some(v)
  {
    OctetStrings(OctetsOf(v));
  }

  /** ... and the printed form is the only accepted spelling of it. */
  lemma QuadUniqueSpelling(s: string)
    requires ParseQuad(s).Some?
    ensures s == Quad(ParseQuad(s).value)
  {
    var parts := SplitOn(s, '.');
    JoinOfSplit(s, '.');
    ValueRoundTrip(parts[0]);
    ValueRoundTrip(parts[1]);
    ValueRoundTrip(parts[2]);
    ValueRoundTrip(parts[3]);
    var o := Octets(Value(parts[0]), Value(parts[1]), Value(parts[2]), Value(parts[3]));
    OctetsOfCompose(o);
    assert parts == o.Strings();
  }

  // ---- the IPv6 text form ----------------------------------------------------

  /** Which of '.', ':' and '%' comes first decides how ParseAddr reads a string. */
  function FirstMark(s: string): Option<char> {
    if s == "" then None
    else if s[0] == '.' || s[0] == ':' || s[0] == '%' then Some(s[0])
    else FirstMark(s[1..])
  }

  datatype RawIPv6Text = IPv6Text(render: nat -> string, parse: string -> Option<nat>)

  /** Printing characters only: no blanks and nothing outside ASCII. */
  predicate Visible(s: string) { forall i :: 0 <= i < |s| ==> '!' <= s[i] <= '~' }

  predicate Printable(s: string) {
    FirstMark(s) == Some(':') && Visible(s) && Free(s, '/') && Free(s, ',') && Free(s, '|')
  }

  ghost predicate IsIPv6Text(t: RawIPv6Text) {
    && (forall n: nat :: n < Pow2(128) ==> t.parse(t.render(n)) == Some(n) && Printable(t.render(n)))
    && (forall s :: t.parse(s).Some? ==> t.parse(s).value < Pow2(128) && Visible(s))
  }

  /** All that is used of the IPv6 text form: it reads back, it is recognised by a leading ':' among
      the marks, it holds none of the separators of prefixes and fingerprints, and nothing with blanks
      in it is accepted. */
  type IPv6Text = t: RawIPv6Text | IsIPv6Text(t) witness ColonDecimal()

  /** An IPv6 text form; nothing else is known of it. */
  const TEXT6: IPv6Text

  function RenderColonDecimal(n: nat): string { [':'] + Decimal(n) }

  function ParseColonDecimal(s: string): Option<nat> {
    if s != "" && s[0] == ':' && AllDigits(s[1..]) && Value(s[1..]) < Pow2(128) then Some(Value(s[1..])) else None
  }

  lemma ColonDecimalRoundTrip(n: nat)
    requires n < Pow2(128)
    ensures ParseColonDecimal(RenderColonDecimal(n)) == Some(n) && Printable(RenderColonDecimal(n))
  {
    hide Decimal, Pow2, Value;
    DecimalRoundTrip(n);
    assert RenderColonDecimal(n)[1..] == Decimal(n);
    DigitsFree(Decimal(n), '/');
    DigitsFree(Decimal(n), ',');
    DigitsFree(Decimal(n), '|');
  }

  lemma ColonDecimalVisible(s: string)
    requires ParseColonDecimal(s).Some?
    ensures Visible(s)
  {
    hide Value, Pow2;
    forall i | 0 <= i < |s| ensures '!' <= s[i] <= '~' {
      if i > 0 { assert s[1..][i - 1] == s[i]; }
    }
  }

  /** A form with these properties exists. */
  function ColonDecimal(): (t: RawIPv6Text)
    ensures IsIPv6Text(t)
  {
    assert IsIPv6Text(IPv6Text(RenderColonDecimal, ParseColonDecimal)) by {
      forall n: nat | n < Pow2(128)
        ensures ParseColonDecimal(RenderColonDecimal(n)) == Some(n) && Printable(RenderColonDecimal(n))
      {
        ColonDecimalRoundTrip(n);
      }
      forall s | ParseColonDecimal(s).Some? ensures Visible(s) {
        ColonDecimalVisible(s);
      }
    }
    IPv6Text(RenderColonDecimal, ParseColonDecimal)
  }

  // ---- addresses -------------------------------------------------------------

  /** Addr.String. */
  function Text(a: Addr): string {
    Pow2Values();
    if a.fam.V4? then Quad(a.val) else TEXT6.render(a.val)
  }

  /** netip.ParseAddr. */
  function ParseAddr(s: string): Option<Addr> {
    Pow2Values();
    match FirstMark(s)
    case Some('.') => (match ParseQuad(s) case Some(v) => Some(RawAddr.Addr(V4, v)) case None => None)
    case Some(':') => (match TEXT6.parse(s) case Some(v) => Some(RawAddr.Addr(V6, v)) case None => None)
    case _ => None
  }

  lemma {:induction false} FirstMarkSkips(s: string, t: string)
    requires AllDigits(s)
    ensures FirstMark(s + t) == FirstMark(t)
  {
    if s == "" {
      assert s + t == t;
    } else {
      assert (s + t)[1..] == s[1..] + t;
      FirstMarkSkips(s[1..], t);
    }
  }

  lemma QuadFree(v: nat, c: char)
    requires v < 0x1_0000_0000 && !IsDigit(c) && c != '.'
    ensures Free(Quad(v), c)
  {
    var parts := OctetsOf(v).Strings();
    OctetStrings(OctetsOf(v));
    forall i | 0 <= i < 4 ensures Free(parts[i], c) {
      DigitsFree(parts[i], c);
    }
    JoinFree(parts, '.', c);
  }

  lemma QuadMark(v: nat)
    requires v < 0x1_0000_0000
    ensures FirstMark(Quad(v)) == Some('.')
  {
    var parts := OctetsOf(v).Strings();
    OctetStrings(OctetsOf(v));
    assert Quad(v) == parts[0] + (['.'] + Join(parts[1..], '.'));
    FirstMarkSkips(parts[0], ['.'] + Join(parts[1..], '.'));
  }

  /** A dotted quad is the address with its numbers as bytes, the first one the highest. */
  lemma DottedQuad(x: Addr, a: nat, b: nat, c: nat, d: nat)
    requires a <= 255 && b <= 255 && c <= 255 && d <= 255
    requires x.fam == V4 && x.val == 0x100_0000 * a + 0x1_0000 * b + 0x100 * c + d
    ensures var s := Decimal(a) + "." + Decimal(b) + "." + Decimal(c) + "." + Decimal(d);
      Text(x) == s && ParseAddr(s) == Some(x)
  {
    var o := Octets(a, b, c, d);
    assert Compose(o) == x.val;
    hide Pow2, ParseAddr, Quad, Decimal, Compose;
    QuadParts(o);
    TextRoundTrip(x);
  }

  lemma QuadParts(o: Octets)
    requires o.Valid()
    ensures Quad(Compose(o)) == Decimal(o.a) + "." + Decimal(o.b) + "." + Decimal(o.c) + "." + Decimal(o.d)
  {
    hide Decimal;
    OctetsOfCompose(o);
    FourJoined(Decimal(o.a), Decimal(o.b), Decimal(o.c), Decimal(o.d));
  }

  lemma FourJoined(w: string, x: string, y: string, z: string)
    ensures Join([w, x, y, z], '.') == w + "." + x + "." + y + "." + z
  {
    assert [w, x, y, z][1..] == [x, y, z] && [x, y, z][1..] == [y, z] && [y, z][1..] == [z];
    assert Join([y, z], '.') == y + "." + z;
    assert Join([x, y, z], '.') == x + "." + (y + "." + z);
  }

  /** Every address reads back, and its text holds none of the separators. */
  lemma TextRoundTrip(a: Addr)
    ensures ParseAddr(Text(a)) == Some(a)
    ensures Text(a) != "" && Free(Text(a), '/') && Free(Text(a), ',') && Free(Text(a), '|')
  {
    hide Quad, ParseQuad, Pow2;
    Pow2Values();
    if a.fam.V4? {
      QuadRoundTrip(a.val);
      QuadMark(a.val);
      QuadFree(a.val, '/');
      QuadFree(a.val, ',');
      QuadFree(a.val, '|');
    } else {
      assert Printable(TEXT6.render(a.val));
    }
  }

  lemma QuadVisible(v: nat)
    requires v < 0x1_0000_0000
    ensures Visible(Quad(v))
  {
    hide Quad;
    forall i | 0 <= i < |Quad(v)| ensures '!' <= Quad(v)[i] <= '~' {
      var c := Quad(v)[i];
      if !IsDigit(c) && c != '.' { QuadFree(v, c); }
    }
  }

  /** Whatever is read as an address holds no blanks. */
  lemma ParsedVisible(s: string)
    requires ParseAddr(s).Some?
    ensures s != "" && Visible(s)
  {
    hide Pow2, Quad, ParseQuad, Visible;
    if FirstMark(s) == Some('.') {
      QuadUniqueSpelling(s);
      QuadVisible(ParseQuad(s).value);
    }
  }

  lemma TextVisible(a: Addr)
    ensures Visible(Text(a))
  {
    hide Pow2, Quad, FirstMark;
    Pow2Values();
    if a.fam.V4? {
      QuadVisible(a.val);
    } else {
      assert Printable(TEXT6.render(a.val));
    }
  }

  lemma TextInjective(a: Addr, b: Addr)
    requires Text(a) == Text(b)
    ensures a == b
  {
    TextRoundTrip(a);
    TextRoundTrip(b);
  }

  // ---- prefixes --------------------------------------------------------------

  /** Prefix.String. */
  function PrefixText(p: Prefix): string {
    Text(p.addr) + ['/'] + Decimal(p.bits)
  }

  /** netip.ParsePrefix: the part after the last '/' must be a canonical decimal in range. */
  function ParsePrefix(s: string): (r: Option<Prefix>)
  {
    var parts := SplitOn(s, '/');
    if |parts| == 1 then None
    else
      var bits := parts[|parts| - 1];
      match ParseAddr(Join(parts[..|parts| - 1], '/'))
      case None => None
      case Some(a) =>
        if CanonicalDecimal(bits) && Value(bits) <= Width(a.fam) then Some(RawPrefix.Prefix(a, Value(bits)))
        else None
  }

  /** Every prefix reads back, and its text holds none of the fingerprint separators. */
  lemma PrefixRoundTrip(p: Prefix)
    ensures ParsePrefix(PrefixText(p)) == Some(p)
    ensures PrefixText(p) != "" && Free(PrefixText(p), ',') && Free(PrefixText(p), '|')
  {
    TextRoundTrip(p.addr);
    DecimalRoundTrip(p.bits);
    DigitsFree(Decimal(p.bits), '/');
    DigitsFree(Decimal(p.bits), ',');
    DigitsFree(Decimal(p.bits), '|');
    SplitOnFree(Decimal(p.bits), '/');
    SplitOnAppend(Text(p.addr), '/', Decimal(p.bits));
    var parts := [Text(p.addr), Decimal(p.bits)];
    assert SplitOn(PrefixText(p), '/') == parts;
    assert parts[..1] == [Text(p.addr)];
  }

  /** An address text, a slash and a decimal length are a prefix up to the width of the family. */
  lemma PrefixReads(a: Addr, n: nat)
    ensures ParsePrefix(Text(a) + "/" + Decimal(n)) ==
            if n <= (if a.fam == V4 then 32 else 128) then Some(RawPrefix.Prefix(a, n)) else None
  {
    hide Text, ParseAddr;
    TextRoundTrip(a);
    DecimalRoundTrip(n);
    DigitsFree(Decimal(n), '/');
    SplitOnFree(Decimal(n), '/');
    SplitOnAppend(Text(a), '/', Decimal(n));
    var parts := [Text(a), Decimal(n)];
    assert SplitOn(Text(a) + "/" + Decimal(n), '/') == parts;
    assert parts[..1] == [Text(a)];
  }

  lemma PrefixTextVisible(p: Prefix)
    ensures Visible(PrefixText(p))
  {
    hide Text, Decimal;
    TextVisible(p.addr);
    DecimalRoundTrip(p.bits);
    forall i | 0 <= i < |PrefixText(p)| ensures '!' <= PrefixText(p)[i] <= '~' {
      if i > |Text(p.addr)| { assert PrefixText(p)[i] == Decimal(p.bits)[i - |Text(p.addr)| - 1]; }
    }
  }

  /** Whatever is read as a prefix holds no blanks. */
  lemma PrefixParsedVisible(s: string)
    requires ParsePrefix(s).Some?
    ensures s != "" && Visible(s)
  {
    hide ParseAddr, SplitOn, Value;
    var parts := SplitOn(s, '/');
    var init, bits := parts[..|parts| - 1], parts[|parts| - 1];
    ParsedVisible(Join(init, '/'));
    JoinOfSplit(s, '/');
    assert parts == init + [bits];
    JoinLast(init, bits, '/');
    hide Join;
    forall i | 0 <= i < |s| ensures '!' <= s[i] <= '~' {
      if i > |Join(init, '/')| { assert s[i] == bits[i - |Join(init, '/')| - 1]; }
    }
  }

  lemma PrefixTextInjective(p: Prefix, q: Prefix)
    requires PrefixText(p) == PrefixText(q)
    ensures p == q
  {
    PrefixRoundTrip(p);
    PrefixRoundTrip(q);
  }
}
