/** Powers of two, shifts, and the aligned blocks they cut out. */
module Bits {

  function Pow2(n: nat): (r: nat)
    ensures r >= 1
  {
    if n == 0 then 1 else 2 * Pow2(n - 1)
  }

  /** x >> h. */
  function Shr(x: nat, h: nat): nat { if h == 0 then x else Shr(x / 2, h - 1) }

  /** q << h. */
  function Shl(q: nat, h: nat): nat { if h == 0 then q else 2 * Shl(q, h - 1) }

  /** x with its low h bits cleared. */
  function Clear(x: nat, h: nat): nat { Shl(Shr(x, h), h) }

  lemma {:induction false} Pow2Monotone(a: nat, b: nat)
    requires a < b
    ensures 2 * Pow2(a) <= Pow2(b)
  {
    if a + 1 < b { Pow2Monotone(a, b - 1); }
  }

  lemma Pow2Byte(n: nat)
    ensures Pow2(n + 8) == 256 * Pow2(n)
  {
    assert Pow2(n + 2) == 4 * Pow2(n);
    assert Pow2(n + 4) == 16 * Pow2(n);
    assert Pow2(n + 6) == 64 * Pow2(n);
  }

  lemma Pow2Values()
    ensures Pow2(8) == 0x100 && Pow2(16) == 0x1_0000 && Pow2(32) == 0x1_0000_0000
  {
    Pow2Byte(0);
    Pow2Byte(8);
    Pow2Byte(16);
    Pow2Byte(24);
  }

  lemma {:induction false} ShlSum(a: nat, b: nat, h: nat)
    ensures Shl(a + b, h) == Shl(a, h) + Shl(b, h)
  {
    if h > 0 { ShlSum(a, b, h - 1); }
  }

  lemma {:induction false} ShlOne(h: nat)
    ensures Shl(1, h) == Pow2(h)
  {
    if h > 0 { ShlOne(h - 1); }
  }

  lemma {:induction false} ShlShl(q: nat, a: nat, b: nat)
    ensures Shl(Shl(q, a), b) == Shl(q, a + b)
  {
    if b > 0 { ShlShl(q, a, b - 1); }
  }

  lemma {:induction false} ShrShr(x: nat, a: nat, b: nat)
    ensures Shr(Shr(x, a), b) == Shr(x, a + b)
  {
    if a > 0 { ShrShr(x / 2, a - 1, b); }
  }

  lemma Shift2(x: nat)
    ensures Shr(x, 2) == x / 4 && Shl(x, 2) == 4 * x
  {
    assert Shr(x, 2) == Shr(x / 2, 1) == Shr(x / 2 / 2, 0);
    assert Shl(x, 2) == 2 * Shl(x, 1) && Shl(x, 1) == 2 * Shl(x, 0);
  }

  lemma Shift4(x: nat)
    ensures Shr(x, 4) == x / 16 && Shl(x, 4) == 16 * x
  {
    hide Shr, Shl;
    Shift2(x);
    Shift2(x / 4);
    Shift2(4 * x);
    ShrShr(x, 2, 2);
    ShlShl(x, 2, 2);
  }

  lemma Shift8(x: nat)
    ensures Shr(x, 8) == x / 0x100 && Shl(x, 8) == x * 0x100
  {
    hide Shr, Shl;
    Shift4(x);
    Shift4(x / 16);
    Shift4(16 * x);
    ShrShr(x, 4, 4);
    ShlShl(x, 4, 4);
  }

  lemma Shift32(x: nat)
    ensures Shr(x, 32) == x / 0x1_0000_0000 && Shl(x, 32) == x * 0x1_0000_0000
  {
    Shr32(x);
    Shl32(x);
  }

  lemma Shr32(x: nat)
    ensures Shr(x, 32) == x / 0x1_0000_0000
  {
    hide Shr;
    Shift8(x);
    Shift8(x / 0x100);
    Shift8(x / 0x1_0000);
    Shift8(x / 0x100_0000);
    ShrShr(x, 8, 8);
    ShrShr(x, 16, 8);
    ShrShr(x, 24, 8);
  }

  lemma Shl32(x: nat)
    ensures Shl(x, 32) == x * 0x1_0000_0000
  {
    hide Shl;
    Shift8(x);
    Shift8(x * 0x100);
    Shift8(x * 0x1_0000);
    Shift8(x * 0x100_0000);
    ShlShl(x, 8, 8);
    ShlShl(x, 16, 8);
    ShlShl(x, 24, 8);
  }

  /** Shifting q * 2^32 + v, by at least 32 places and by fewer. */
  lemma ShiftedHead(q: nat, v: nat, h: nat)
    requires v < 0x1_0000_0000
    ensures h >= 32 ==> Shr(q * 0x1_0000_0000 + v, h) == Shr(q, h - 32)
    ensures h < 32 ==> Shr(q * 0x1_0000_0000 + v, h) == Shl(q, 32 - h) + Shr(v, h)
  {
    Shift32(q);
    if h >= 32 {
      ShrShr(q * 0x1_0000_0000 + v, 32, h - 32);
      Shift32(q * 0x1_0000_0000 + v);
    } else {
      ShlShl(q, 32 - h, h);
      ShrOfShl(Shl(q, 32 - h), v, h);
    }
  }

  /** Shifting a sum with a block-aligned part. */
  lemma {:induction false} ShrOfShl(q: nat, r: nat, h: nat)
    ensures Shr(Shl(q, h) + r, h) == q + Shr(r, h)
  {
    if h > 0 { ShrOfShl(q, r / 2, h - 1); }
  }

  lemma {:induction false} ShrSmall(x: nat, h: nat)
    ensures Shr(x, h) == 0 <==> x < Pow2(h)
  {
    if h > 0 { ShrSmall(x / 2, h - 1); }
  }

  /** x lies in the block of 2^h numbers that starts at Clear(x, h). */
  lemma {:induction false} ClearBounds(x: nat, h: nat)
    ensures Clear(x, h) <= x < Clear(x, h) + Pow2(h)
  {
    if h > 0 { ClearBounds(x / 2, h - 1); }
  }

  lemma {:induction false} ShlMonotone(a: nat, b: nat, h: nat)
    requires a < b
    ensures Shl(a, h) + Pow2(h) <= Shl(b, h)
  {
    if h > 0 { ShlMonotone(a, b, h - 1); }
  }

  /** Two numbers share their high bits exactly when they lie in one aligned block. */
  lemma SameBlock(x: nat, y: nat, h: nat)
    ensures Shr(y, h) == Shr(x, h) <==> Clear(x, h) <= y < Clear(x, h) + Pow2(h)
  {
    ClearBounds(x, h);
    ClearBounds(y, h);
    if Shr(y, h) < Shr(x, h) { ShlMonotone(Shr(y, h), Shr(x, h), h); }
    if Shr(x, h) < Shr(y, h) { ShlMonotone(Shr(x, h), Shr(y, h), h); }
  }

  lemma ClearAligned(x: nat, h: nat)
    ensures Shr(Clear(x, h), h) == Shr(x, h) && Clear(Clear(x, h), h) == Clear(x, h)
  {
    ClearBounds(x, h);
    SameBlock(x, Clear(x, h), h);
  }

  /** A block of a number below 2^(w) ends at 2^(w) at the latest. */
  lemma ClearBelow(x: nat, h: nat, w: nat)
    requires h <= w && x < Pow2(w)
    ensures Clear(x, h) + Pow2(h) <= Pow2(w)
  {
    ShlOne(w - h);
    ShlShl(1, w - h, h);
    ShlOne(w);
    ClearBounds(x, h);
    var top := Pow2(w - h);
    if top < Shr(x, h) { ShlMonotone(top, Shr(x, h), h); }
    if Shr(x, h) < top { ShlMonotone(Shr(x, h), top, h); }
  }

  /** Reduction modulo 2^w of a sum of two numbers below 2^w. */
  function Wrap(x: nat, w: nat): (r: nat)
    requires x < 2 * Pow2(w)
    ensures r < Pow2(w)
  {
    if x < Pow2(w) then x else x - Pow2(w)
  }

  lemma WrapIsMod(x: nat, w: nat)
    requires x < 2 * Pow2(w)
    ensures Wrap(x, w) == x % Pow2(w)
  {
    var d := Pow2(w);
    if x < d { ModOf(0, d, x); } else { ModOf(1, d, x - d); }
  }

  lemma ModOf(q: nat, d: nat, r: nat)
    requires r < d
    ensures (q * d + r) % d == r
  {
    var x := q * d + r;
    var gap := q - x / d;
    assert gap * d == x % d - r;
    if gap > 0 { MulMonotone(1, gap, d); }
    if gap < 0 { MulMonotone(gap, -1, d); }
  }

  lemma MulMonotone(a: int, b: int, c: int)
    requires a <= b && 0 <= c
    ensures a * c <= b * c
  {
  }
}

/** netip.Addr and netip.Prefix: a family tag and a natural number. Zones are not modelled. */
module Addresses {
  import opened Bits

  datatype Family = V4 | V6

  function Width(f: Family): (w: nat)
    ensures f.V4? ==> w == 32
    ensures f.V6? ==> w == 128
  {
    if f.V4? then 32 else 128
  }

  datatype RawAddr = Addr(fam: Family, val: nat) {
    predicate Valid() { val < Pow2(Width(fam)) }

    predicate Is4() { fam.V4? }

    /** ::ffff:0:0/96, the IPv4-mapped addresses (RFC 4291, section 2.5.5.2). */
    predicate Is4In6() { fam.V6? && val / 0x1_0000_0000 == 0xFFFF }
  }

  type Addr = a: RawAddr | a.Valid() witness RawAddr.Addr(V4, 0)

  function Unmap(a: Addr): (r: Addr)
    ensures !r.Is4In6()
  {
    Pow2Values();
    if a.Is4In6() then RawAddr.Addr(V4, a.val % 0x1_0000_0000) else a
  }

  lemma MappedFits(v: nat)
    requires v < 0x1_0000_0000
    ensures 0xFFFF * 0x1_0000_0000 + v < Pow2(128)
    ensures Pow2(32) == 0x1_0000_0000
  {
    hide Pow2;
    Pow2Values();
    Pow2Byte(32);
    Pow2Byte(40);
    Pow2Monotone(48, 128);
  }

  /** The mapped form of an IPv4 value. */
  function MappedForm(v: nat): (a: Addr)
    requires v < 0x1_0000_0000
    ensures a.Is4In6() && Unmap(a) == RawAddr.Addr(V4, v)
    ensures a.fam == V6 && a.val == 0xFFFF_0000_0000 + v
  {
    MappedFits(v);
    RawAddr.Addr(V6, 0xFFFF * 0x1_0000_0000 + v)
  }

  lemma MappedFormOnto(a: Addr)
    requires a.Is4In6()
    ensures Unmap(a).fam == V4 && Unmap(a).val < 0x1_0000_0000 && MappedForm(Unmap(a).val) == a
  {
  }

  /** Unmapping moves the IPv6 addresses of ::ffff:0:0/96 to IPv4 and leaves every other address as it is. */
  lemma UnmapExactly(a: Addr)
    ensures a.fam == V6 && 0xFFFF_0000_0000 <= a.val <= 0xFFFF_FFFF_FFFF ==>
              Unmap(a).fam == V4 && Unmap(a).val == a.val - 0xFFFF_0000_0000
    ensures !(a.fam == V6 && 0xFFFF_0000_0000 <= a.val <= 0xFFFF_FFFF_FFFF) ==> Unmap(a) == a
  {
  }

  datatype RawPrefix = Prefix(addr: Addr, bits: nat) {
    predicate Valid() { bits <= Width(addr.fam) }
  }

  type Prefix = p: RawPrefix | p.Valid() witness RawPrefix.Prefix(RawAddr.Addr(V4, 0), 0)

  /** Number of bits a prefix of this length leaves free. */
  function HostBits(f: Family, bits: nat): nat
    requires bits <= Width(f)
  {
    Width(f) - bits
  }

  /** Number of addresses in the block of a prefix. */
  function BlockSize(p: Prefix): (r: nat)
    ensures r >= 1
  {
    Pow2(HostBits(p.addr.fam, p.bits))
  }

  /** Addr.Prefix(bits): the network address of the block of that length around `a`. */
  function Truncate(a: Addr, bits: nat): (r: Addr)
    requires bits <= Width(a.fam)
    ensures r.fam == a.fam
  {
    ClearBounds(a.val, HostBits(a.fam, bits));
    RawAddr.Addr(a.fam, Clear(a.val, HostBits(a.fam, bits)))
  }

  function Masked(p: Prefix): (r: Prefix)
    ensures r.addr.fam == p.addr.fam && r.bits == p.bits
  {
    RawPrefix.Prefix(Truncate(p.addr, p.bits), p.bits)
  }

  /** The set of addresses a prefix names: those of its family that agree with its address on the
      leading `bits` bits (RFC 4632, section 3.1). */
  predicate Covers(p: Prefix, a: Addr) {
    var h := HostBits(p.addr.fam, p.bits);
    a.fam == p.addr.fam && Shr(a.val, h) == Shr(p.addr.val, h)
  }

  /** A prefix names an interval of BlockSize addresses that starts at its network address. */
  lemma CoversInterval(p: Prefix, a: Addr)
    ensures Covers(p, a) <==>
            a.fam == p.addr.fam && Masked(p).addr.val <= a.val < Masked(p).addr.val + BlockSize(p)
  {
    SameBlock(p.addr.val, a.val, HostBits(p.addr.fam, p.bits));
  }

  lemma BlockInSpace(p: Prefix)
    ensures Masked(p).addr.val + BlockSize(p) <= Pow2(Width(p.addr.fam))
    ensures Masked(Masked(p)) == Masked(p)
  {
    ClearBelow(p.addr.val, HostBits(p.addr.fam, p.bits), Width(p.addr.fam));
    ClearAligned(p.addr.val, HostBits(p.addr.fam, p.bits));
  }

  lemma CoversMasked(p: Prefix, a: Addr)
    ensures Covers(Masked(p), a) == Covers(p, a)
  {
    ClearAligned(p.addr.val, HostBits(p.addr.fam, p.bits));
  }

  // ---- containment -----------------------------------------------------------

  /** unmapPrefix: a mapped address becomes bare IPv4 and its length is re-scoped and clamped. */
  function UnmapPrefix(p: Prefix): (r: Prefix)
    ensures !r.addr.Is4In6()
  {
    var a := Unmap(p.addr);
    if a == p.addr then p
    else
      var bits := p.bits - 96;
      RawPrefix.Prefix(a, if bits < 0 then 0 else if bits > 32 then 32 else bits)
  }

  /** prefixContainsOrEquals. */
  predicate PrefixContainsOrEquals(outer: Prefix, inner: Prefix) {
    var o, i := UnmapPrefix(outer), UnmapPrefix(inner);
    o.addr.Is4() == i.addr.Is4() && o.bits <= i.bits &&
    Truncate(i.addr, o.bits) == Masked(o).addr
  }

  /** Every address of `inner` is an address of `outer`. */
  ghost predicate Inside(inner: Prefix, outer: Prefix) {
    forall a: Addr :: Covers(inner, a) ==> Covers(outer, a)
  }

  /** Blocks with a common address are nested, the longer prefix inside. */
  lemma CommonAddressNests(p: Prefix, q: Prefix, a: Addr)
    requires Covers(p, a) && Covers(q, a) && p.bits <= q.bits
    ensures Inside(q, p)
  {
    var hq, more := HostBits(p.addr.fam, q.bits), q.bits - p.bits;
    forall x: Addr | Covers(q, x) ensures Covers(p, x) {
      ShrShr(x.val, hq, more);
      ShrShr(a.val, hq, more);
    }
  }

  /** Two prefixes of one family are nested or disjoint. */
  lemma NestedOrDisjoint(p: Prefix, q: Prefix)
    requires p.addr.fam == q.addr.fam
    ensures Inside(p, q) || Inside(q, p) || forall a: Addr :: !(Covers(p, a) && Covers(q, a))
  {
    if a: Addr :| Covers(p, a) && Covers(q, a) {
      if p.bits <= q.bits { CommonAddressNests(p, q, a); } else { CommonAddressNests(q, p, a); }
    }
  }

  /** A block inside another belongs to the same family and is not shorter. */
  lemma InsideBits(inner: Prefix, outer: Prefix)
    requires Inside(inner, outer)
    ensures inner.addr.fam == outer.addr.fam && outer.bits <= inner.bits
  {
    assert Covers(inner, inner.addr);
    var first := Masked(inner).addr;
    BlockInSpace(inner);
    CoversInterval(inner, first);
    CoversInterval(outer, first);
    if inner.bits < outer.bits {
      Pow2Monotone(HostBits(outer.addr.fam, outer.bits), HostBits(outer.addr.fam, inner.bits));
      var later := RawAddr.Addr(first.fam, first.val + BlockSize(outer));
      CoversInterval(inner, later);
      CoversInterval(outer, later);
    }
  }

  /** The guard decides containment: true exactly when every address of inner is in outer. */
  lemma ContainsIsInside(outer: Prefix, inner: Prefix)
    ensures PrefixContainsOrEquals(outer, inner) <==> Inside(UnmapPrefix(inner), UnmapPrefix(outer))
  {
    var o, i := UnmapPrefix(outer), UnmapPrefix(inner);
    if PrefixContainsOrEquals(outer, inner) {
      ClearAligned(i.addr.val, HostBits(o.addr.fam, o.bits));
      ClearAligned(o.addr.val, HostBits(o.addr.fam, o.bits));
      assert Covers(o, i.addr) && Covers(i, i.addr);
      CommonAddressNests(o, i, i.addr);
    }
    if Inside(i, o) {
      InsideBits(i, o);
      assert Covers(i, i.addr);
    }
  }

  /** unmapPrefix of a mapped prefix of any length denotes exactly the IPv4 addresses whose mapped
      form lies in the original block; up to 96 bits that is all of them. */
  lemma UnmapPrefixDenotes(p: Prefix, v: nat)
    requires p.addr.Is4In6() && v < 0x1_0000_0000
    ensures Pow2(32) == 0x1_0000_0000
    ensures UnmapPrefix(p).addr.fam == V4
    ensures Covers(UnmapPrefix(p), RawAddr.Addr(V4, v)) <==> Covers(p, MappedForm(v))
    ensures p.bits <= 96 ==> Covers(p, MappedForm(v))
  {
    hide Shl, Shr, Pow2;
    Pow2Values();
    MappedFormOnto(p.addr);
    MappedAgree(v, Unmap(p.addr).val, 128 - p.bits);
    ShrSmall(v, 32);
    ShrSmall(Unmap(p.addr).val, 32);
  }

  /** Mapped forms agree above h bits when h swallows the IPv4 part or the IPv4 values agree there. */
  lemma MappedAgree(v: nat, u: nat, h: nat)
    requires v < 0x1_0000_0000 && u < 0x1_0000_0000
    ensures Shr(0xFFFF * 0x1_0000_0000 + v, h) == Shr(0xFFFF * 0x1_0000_0000 + u, h)
            <==> h >= 32 || Shr(v, h) == Shr(u, h)
  {
    hide Shl, Shr;
    ShiftedHead(0xFFFF, v, h);
    ShiftedHead(0xFFFF, u, h);
  }

  /** A prefix whose address is not mapped is left alone. */
  lemma UnmapPrefixIdentity(p: Prefix)
    requires !p.addr.Is4In6()
    ensures UnmapPrefix(p) == p
  {
  }

  /** One block contains another without being it. */
  ghost predicate StrictlyContains(outer: Prefix, inner: Prefix) {
    Inside(inner, outer) && !Inside(outer, inner)
  }
}
