/** The authoritative parsers of addresses and CIDRs that operators supply. */
module Validation {
  import opened Texts
  import opened Bits
  import opened Addresses
  import opened IpText
  import opened NftRoundTrip

  /** Blanks that strings.TrimSpace removes. */
  predicate IsSpace(c: char) {
    c in {'\t', '\n', '\U{000B}', '\U{000C}', '\r', ' ', '\U{0085}', '\U{00A0}', '\U{1680}', '\U{2028}', '\U{2029}',
          '\U{202F}', '\U{205F}', '\U{3000}'} || '\U{2000}' <= c <= '\U{200A}'
  }

  /** strings.TrimSpace. */
  function TrimSpace(s: string): string { TrimBy(IsSpace, s) }

  /** The code points that unicode.IsSpace accepts. */
  predicate SpaceCode(n: int) {
    9 <= n <= 13 || n == 0x20 || n == 0x85 || n == 0xA0 || n == 0x1680 || 0x2000 <= n <= 0x200A || n == 0x2028 ||
    n == 0x2029 || n == 0x202F || n == 0x205F || n == 0x3000
  }

  lemma SpaceByCode(c: char)
    ensures IsSpace(c) <==> SpaceCode(c as int)
  {
    assert c == (c as int) as char;
  }

  predicate SpaceCodes(s: string) { forall i :: 0 <= i < |s| ==> SpaceCode(s[i] as int) }

  lemma SpacesByCode(s: string)
    ensures AllBlank(IsSpace, s) <==> SpaceCodes(s)
  {
    hide IsSpace, SpaceCode;
    forall i | 0 <= i < |s| ensures IsSpace(s[i]) <==> SpaceCode(s[i] as int) {
      SpaceByCode(s[i]);
    }
  }

  /** Trimming takes white space off both ends, all of it and nothing else. */
  lemma TrimSpaceExactly(s: string, t: string)
    ensures TrimSpace(s) == t <==>
            (t == "" || (!SpaceCode(t[0] as int) && !SpaceCode(t[|t| - 1] as int))) &&
            exists lead, trail :: SpaceCodes(lead) && SpaceCodes(trail) && s == lead + t + trail
  {
    hide IsSpace, SpaceCode, TrimBy;
    var x, y := TrimParts(IsSpace, s);
    SpacesByCode(x);
    SpacesByCode(y);
    var u := TrimSpace(s);
    if u != "" {
      SpaceByCode(u[0]);
      SpaceByCode(u[|u| - 1]);
    }
    if lead, trail :| SpaceCodes(lead) && SpaceCodes(trail) && s == lead + t + trail &&
                      (t == "" || (!SpaceCode(t[0] as int) && !SpaceCode(t[|t| - 1] as int))) {
      SpacesByCode(lead);
      SpacesByCode(trail);
      if t == "" {
        if u != "" {
          assert s[|x|] == u[0];
          SpacesByCode(s);
        }
      } else {
        SpaceByCode(t[0]);
        SpaceByCode(t[|t| - 1]);
        TrimStrips(IsSpace, lead, t, trail);
      }
    }
  }

  datatype Canonical = Canonical(text: string, fam: Family)

  /** canonicalisePrefix: the network form, refusing the whole space. */
  function CanonicalisePrefix(p: Prefix): Option<Canonical> {
    if p.bits == 0 then None else Some(Canonical(PrefixText(Masked(p)), p.addr.fam))
  }

  /** A bare address as a single-host CIDR text. */
  function HostText(a: Addr): Canonical {
    Canonical(Text(a) + (if a.fam.V4? then "/32" else "/128"), a.fam)
  }

  /** parseIPOrCIDR. */
  function ParseIPOrCIDR(raw: string): Option<Canonical> {
    var s := TrimSpace(raw);
    match ParsePrefix(s)
    case Some(p) => CanonicalisePrefix(p)
    case None => (match ParseAddr(s) case Some(a) => Some(HostText(Unmap(a))) case None => None)
  }

  /** parseBareIP. */
  function ParseBareIP(raw: string): Option<Canonical> {
    match ParseAddr(TrimSpace(raw)) case Some(a) => Some(HostText(Unmap(a))) case None => None
  }

  /** stripPrefix: the part before a '/' that is not in front. */
  function StripPrefix(s: string): string {
    var parts := SplitOn(s, '/');
    if |parts| > 1 && parts[0] != "" then parts[0] else s
  }

  lemma HostTextIsPrefixText(a: Addr)
    ensures HostText(a).text == PrefixText(RawPrefix.Prefix(a, Width(a.fam)))
  {
    hide Text;
    WidthDecimals();
    hide Decimal;
    if a.fam.V4? {
      assert "/32" == ['/'] + Decimal(32);
    } else {
      assert "/128" == ['/'] + Decimal(128);
    }
  }

  lemma WidthDecimals()
    ensures Decimal(32) == "32" && Decimal(128) == "128"
  {
    assert Decimal(3) == "3" && Decimal(1) == "1" && Decimal(12) == "12";
  }

  /** Accepted trust ranges are canonical: texts of networks with at least one prefix bit, of the
      reported family. */
  lemma AcceptedRangeIsCanonical(raw: string)
    requires ParseIPOrCIDR(raw).Some?
    ensures IsCidrText(ParseIPOrCIDR(raw).value.fam, ParseIPOrCIDR(raw).value.text)
  {
    hide TrimSpace, ParsePrefix, ParseAddr, Unmap, PrefixText, Pow2;
    var s := TrimSpace(raw);
    match ParsePrefix(s)
    case Some(p) =>
      BlockInSpace(p);
      assert Masked(Masked(p)) == Masked(p);
    case None =>
      var a := Unmap(ParseAddr(s).value);
      var p := RawPrefix.Prefix(a, Width(a.fam));
      HostTextIsPrefixText(a);
      assert Clear(a.val, 0) == a.val;
      assert Masked(p) == p;
  }

  /** A CIDR over mapped addresses is not unmapped: it stays in the IPv6 family, unlike a bare mapped
      address, which becomes an IPv4 host. */
  lemma MappedRangeStaysV6(p: Prefix)
    requires p.addr.Is4In6() && p.bits >= 1
    ensures ParseIPOrCIDR(PrefixText(p)) == Some(Canonical(PrefixText(Masked(p)), V6))
  {
    PrefixRoundTrip(p);
    PrefixTextTrims(p);
  }

  lemma PrefixTextTrims(p: Prefix)
    ensures TrimSpace(PrefixText(p)) == PrefixText(p)
  {
    hide PrefixText;
    PrefixTextVisible(p);
    PrefixRoundTrip(p);
    VisibleTrims(PrefixText(p));
  }

  lemma VisibleTrims(s: string)
    requires Visible(s)
    ensures TrimSpace(s) == s
  {
    TrimOfTight(IsSpace, s);
  }

  /** Canonical texts are fixed points: parsing one again gives it back with the same family. */
  lemma CanonicalRangeFixed(f: Family, c: string)
    requires IsCidrText(f, c)
    ensures ParseIPOrCIDR(c) == Some(Canonical(c, f))
  {
    var p: Prefix :| p.addr.fam == f && p.bits >= 1 && Masked(p) == p && PrefixText(p) == c;
    PrefixRoundTrip(p);
    PrefixTextTrims(p);
  }

  /** The bare form of an accepted pending address is the text of the unmapped address itself. */
  lemma BareTextOfAccepted(raw: string)
    requires ParseBareIP(raw).Some?
    ensures ParseAddr(TrimSpace(raw)).Some?
    ensures var a := Unmap(ParseAddr(TrimSpace(raw)).value);
      StripPrefix(ParseBareIP(raw).value.text) == Text(a) && ParseBareIP(raw).value.fam == a.fam
    ensures IsIpText(ParseBareIP(raw).value.fam, StripPrefix(ParseBareIP(raw).value.text))
  {
    var a := Unmap(ParseAddr(TrimSpace(raw)).value);
    TextRoundTrip(a);
    HostTextIsPrefixText(a);
    DecimalRoundTrip(Width(a.fam));
    DigitsFree(Decimal(Width(a.fam)), '/');
    SplitOnFree(Decimal(Width(a.fam)), '/');
    SplitOnAppend(Text(a), '/', Decimal(Width(a.fam)));
  }

  /** The addresses an operator's text stands for: those of its block, or a bare address after unmapping. */
  predicate RangeNames(raw: string, a: Addr) {
    var s := TrimSpace(raw);
    match ParsePrefix(s)
    case Some(p) => p.bits >= 1 && Covers(p, a)
    case None => (match ParseAddr(s) case Some(b) => Unmap(b) == a case None => false)
  }

  /** The canonical text stands for the same addresses, and its reported family is theirs. */
  lemma RangeNamesExactly(raw: string, a: Addr)
    ensures RangeNames(raw, a) <==>
            var c := ParseIPOrCIDR(raw); c.Some? && c.value.fam == a.fam && CidrNames(c.value.text, a)
  {
    hide TrimSpace, ParsePrefix, ParseAddr, Unmap, PrefixText, Masked, Covers, Text;
    var s := TrimSpace(raw);
    match ParsePrefix(s)
    case Some(p) =>
      CoversMasked(p, a);
      CoversFamily(p, a);
      PrefixRoundTrip(Masked(p));
    case None =>
      if ParseAddr(s).Some? {
        var b := Unmap(ParseAddr(s).value);
        HostTextIsPrefixText(b);
        PrefixRoundTrip(RawPrefix.Prefix(b, Width(b.fam)));
        HostCovers(b, a);
      }
  }

  lemma CoversFamily(p: Prefix, a: Addr)
    ensures Covers(p, a) ==> a.fam == p.addr.fam
  {
  }

  /** A single-host prefix covers its address and no other. */
  lemma HostCovers(b: Addr, a: Addr)
    ensures Covers(RawPrefix.Prefix(b, Width(b.fam)), a) <==> a == b
  {
  }
}
