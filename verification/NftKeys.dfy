/** Big-endian set keys, the carry addition on them, and interval-set elements. */
module NftKeys {
  import opened Texts
  import opened Bits
  import opened Addresses

  type Byte = x: nat | x < 256
  type Key = seq<Byte>

  /** The big-endian value of a key (big.Int.SetBytes). */
  function Number(k: Key): nat {
    if k == [] then 0 else 256 * Number(k[..|k| - 1]) + k[|k| - 1]
  }

  function Bytes(n: nat, len: nat): (k: Key)
    ensures |k| == len
  {
    if len == 0 then [] else Bytes(n / 256, len - 1) + [n % 256]
  }

  lemma {:induction false} NumberOfBytes(n: nat, len: nat)
    requires n < Pow2(8 * len)
    ensures Number(Bytes(n, len)) == n
  {
    if len > 0 {
      Pow2Byte(8 * (len - 1));
      NumberOfBytes(n / 256, len - 1);
      assert Bytes(n, len)[..len - 1] == Bytes(n / 256, len - 1);
    }
  }

  lemma {:induction false} BytesOfNumber(k: Key)
    ensures Number(k) < Pow2(8 * |k|) && Bytes(Number(k), |k|) == k
  {
    if k != [] {
      var init := k[..|k| - 1];
      BytesOfNumber(init);
      Pow2Byte(8 * |init|);
      assert k == init + [k[|k| - 1]];
    }
  }

  lemma NumberInjective(k: Key, m: Key)
    requires |k| == |m| && Number(k) == Number(m)
    ensures k == m
  {
    BytesOfNumber(k);
    BytesOfNumber(m);
  }

  /** Changing one byte changes the value by the difference at that byte's weight. */
  lemma {:induction false} NumberOfUpdate(k: Key, i: nat, x: Byte)
    requires i < |k|
    ensures Number(k[i := x]) + Carried(k[i], |k| - 1 - i) == Number(k) + Carried(x, |k| - 1 - i)
  {
    var init, m := k[..|k| - 1], k[i := x];
    if i == |k| - 1 {
      assert m[..|k| - 1] == init;
    } else {
      assert m[..|k| - 1] == init[i := x];
      NumberOfUpdate(init, i, x);
      CarriedStep(x, |init| - 1 - i);
      CarriedStep(k[i], |init| - 1 - i);
    }
  }

  function KeyLength(f: Family): (n: nat)
    ensures 8 * n == Width(f)
  {
    if f.V4? then 4 else 16
  }

  /** addrBytes. */
  function AddrBytes(a: Addr): (k: Key)
    ensures |k| == KeyLength(a.fam) && Number(k) == a.val
  {
    NumberOfBytes(a.val, KeyLength(a.fam));
    Bytes(a.val, KeyLength(a.fam))
  }

  /** The key of an IPv4 address has its four bytes, the highest first. */
  lemma QuadKey(x: Addr, a: nat, b: nat, c: nat, d: nat)
    requires a <= 255 && b <= 255 && c <= 255 && d <= 255
    requires x.fam == V4 && x.val == 0x100_0000 * a + 0x1_0000 * b + 0x100 * c + d
    ensures AddrBytes(x) == [a, b, c, d]
  {
    assert x.val / 256 == 0x1_0000 * a + 0x100 * b + c && x.val % 256 == d;
    assert x.val / 256 / 256 == 0x100 * a + b && x.val / 256 % 256 == c;
    assert x.val / 256 / 256 / 256 == a && x.val / 256 / 256 % 256 == b;
    assert Bytes(a, 1) == [a] by { assert Bytes(a / 256, 0) == []; }
    assert Bytes(x.val / 256 / 256, 2) == [a] + [b];
    assert Bytes(x.val / 256, 3) == [a] + [b] + [c];
  }

  /** a + 2^exp, modulo the size of the address space (see AddWrappedIsMod). */
  function AddWrapped(a: Addr, exp: nat): (r: nat)
    requires exp < Width(a.fam)
    ensures r < Pow2(Width(a.fam))
  {
    Pow2Monotone(exp, Width(a.fam));
    Wrap(a.val + Pow2(exp), Width(a.fam))
  }

  lemma AddWrappedIsMod(a: Addr, exp: nat)
    requires exp < Width(a.fam)
    ensures AddWrapped(a, exp) == (a.val + Pow2(exp)) % Pow2(Width(a.fam))
  {
    hide Pow2, Wrap;
    Pow2Monotone(exp, Width(a.fam));
    WrapIsMod(a.val + Pow2(exp), Width(a.fam));
  }

  /** addPow2: adds 2^exp in place, carrying from the right; exp at or beyond the width gives all-ones. */
  method AddPow2(a: Addr, exp: nat) returns (b: array<Byte>)
    ensures fresh(b) && b.Length == KeyLength(a.fam)
    ensures exp < Width(a.fam) ==> Number(b[..]) == AddWrapped(a, exp) == (a.val + Pow2(exp)) % Pow2(Width(a.fam))
    ensures exp >= Width(a.fam) ==> forall i :: 0 <= i < b.Length ==> b[i] == 255
  {
    hide Pow2, Shl, Number, Bytes;
    var key := AddrBytes(a);
    b := new Byte[|key|](i requires 0 <= i < |key| => key[i]);
    assert b[..] == key;
    var idx: int := b.Length - 1 - exp / 8;
    if idx < 0 {
      for i := 0 to b.Length
        invariant forall j :: 0 <= j < i ==> b[j] == 255
      {
        b[i] := 255;
      }
      return;
    }
    CarryStart(exp);
    AddWrappedIsMod(a, exp);
    Pow2Monotone(exp, Width(a.fam));
    PropagateCarry(b, idx, Pow2(exp % 8), a.val + Pow2(exp));
  }

  /** The carry loop of addPow2. */
  method PropagateCarry(b: array<Byte>, idx: nat, carryIn: nat, ghost total: nat)
    requires idx < b.Length
    requires total == Number(b[..]) + Carried(carryIn, b.Length - 1 - idx) < 2 * Pow2(8 * b.Length)
    modifies b
    ensures Number(b[..]) == Wrap(total, 8 * b.Length)
  {
    var carry, i := carryIn, idx as int;
    while i >= 0
      invariant -1 <= i < b.Length
      invariant Number(b[..]) + Carried(carry, b.Length - 1 - i) == total
    {
      var v := b[i] + carry;
      ghost var before := b[..];
      var low: Byte := v % 256;
      b[i] := low;
      CarryStep(before, i, carry, low);
      assert b[..] == before[i := low];
      carry := v / 256;
      i := i - 1;
      if carry == 0 {
        break;
      }
    }
    CarryDone(b[..], carry, b.Length - 1 - i, total);
  }

  /** The weight of a carry that is due `places` bytes from the right. */
  function Carried(carry: nat, places: nat): nat { Shl(carry, 8 * places) }

  lemma CarriedStep(x: nat, places: nat)
    ensures Carried(x, places + 1) == 256 * Carried(x, places) == Carried(256 * x, places)
  {
    Shift8(Carried(x, places));
    ShlShl(x, 8 * places, 8);
    Shift8(x);
    ShlShl(x, 8, 8 * places);
  }

  lemma CarryStart(exp: nat)
    ensures Carried(Pow2(exp % 8), exp / 8) == Pow2(exp)
  {
    ShlOne(exp % 8);
    ShlShl(1, exp % 8, 8 * (exp / 8));
    ShlOne(exp);
  }

  lemma CarryStep(k: Key, i: nat, carry: nat, low: Byte)
    requires i < |k| && low == (k[i] + carry) % 256
    ensures Number(k[i := low]) + Carried((k[i] + carry) / 256, |k| - i)
            == Number(k) + Carried(carry, |k| - 1 - i)
  {
    var high, places := (k[i] + carry) / 256, |k| - 1 - i;
    NumberOfUpdate(k, i, low);
    CarriedStep(high, places);
    ShlSum(k[i], carry, 8 * places);
    ShlSum(256 * high, low, 8 * places);
  }

  lemma CarryDone(k: Key, carry: nat, places: nat, total: nat)
    requires carry == 0 || places == |k|
    requires Number(k) + Carried(carry, places) == total < 2 * Pow2(8 * |k|)
    ensures Number(k) == Wrap(total, 8 * |k|)
  {
    BytesOfNumber(k);
    CarriedWhole(carry, places);
  }

  lemma {:induction false} CarriedWhole(carry: nat, places: nat)
    ensures carry == 0 ==> Carried(carry, places) == 0
    ensures carry == 1 ==> Carried(carry, places) == Pow2(8 * places)
    ensures carry >= 2 ==> Carried(carry, places) >= 2 * Pow2(8 * places)
  {
    ShlOne(8 * places);
    ShlSum(0, 0, 8 * places);
    if carry >= 2 {
      ShlSum(1, 1, 8 * places);
      ShlSum(2, carry - 2, 8 * places);
    }
  }

  /** The end key that addPow2 yields for a block of 2^(width - bits) addresses at `start`. */
  function EndKey(start: Addr, bits: nat): (k: Key)
    requires bits <= Width(start.fam)
    ensures |k| == KeyLength(start.fam)
    ensures bits > 0 ==> Number(k) == AddWrapped(start, HostBits(start.fam, bits))
  {
    var n := KeyLength(start.fam);
    if bits == 0 then seq(n, _ => 255)
    else
      NumberOfBytes(AddWrapped(start, HostBits(start.fam, bits)), n);
      Bytes(AddWrapped(start, HostBits(start.fam, bits)), n)
  }

  /** The end key of a block: the next address, zero when the block ends the space, and for the whole
      space the last address. */
  lemma EndKeyNumber(p: Prefix)
    requires Masked(p) == p
    ensures var end := p.addr.val + BlockSize(p); var top := Pow2(Width(p.addr.fam));
      && end <= top
      && (p.bits == 0 ==> p.addr.val == 0 && end == top && Number(EndKey(p.addr, 0)) == top - 1)
      && (p.bits > 0 && end < top ==> Number(EndKey(p.addr, p.bits)) == end)
      && (p.bits > 0 && end == top ==> Number(EndKey(p.addr, p.bits)) == 0 < p.addr.val)
  {
    hide Pow2, Clear, Bytes;
    BlockInSpace(p);
    if p.bits == 0 {
      AllOnes(EndKey(p.addr, 0));
    } else {
      Pow2Monotone(HostBits(p.addr.fam, p.bits), Width(p.addr.fam));
    }
  }

  lemma {:induction false} AllOnes(k: Key)
    requires forall i :: 0 <= i < |k| ==> k[i] == 255
    ensures Number(k) == Pow2(8 * |k|) - 1
  {
    if k != [] {
      AllOnes(k[..|k| - 1]);
      Pow2Byte(8 * (|k| - 1));
    }
  }

  /** nextNetwork: the key after a block, refused when the length is out of range. */
  method NextNetwork(a: Addr, bits: int) returns (end: Option<Key>)
    ensures end.Some? <==> 0 <= bits <= Width(a.fam)
    ensures end.Some? ==> end.value == EndKey(a, bits)
  {
    if bits < 0 || bits > Width(a.fam) {
      return None;
    }
    var b := AddPow2(a, Width(a.fam) - bits);
    if bits > 0 {
      NumberInjective(b[..], EndKey(a, bits));
    }
    assert b[..] == EndKey(a, bits);
    return Some(b[..]);
  }

  // ---- elements --------------------------------------------------------------

  /** nftables.SetElement; the timeout is in nanoseconds, zero for none. */
  datatype Element = Element(key: Key, intervalEnd: bool, timeout: int)

  datatype Interval = Interval(start: Key, end: Key, timeout: int)

  /** The element list of a list of intervals: an opening and a closing element each. */
  function Flatten(ivs: seq<Interval>): seq<Element> {
    if ivs == [] then []
    else [Element(ivs[0].start, false, ivs[0].timeout), Element(ivs[0].end, true, 0)] + Flatten(ivs[1..])
  }

  lemma FlattenEmpty()
    ensures Flatten([]) == []
  {
  }

  lemma {:induction false} FlattenAppend(ivs: seq<Interval>, iv: Interval)
    ensures Flatten(ivs + [iv]) == Flatten(ivs) + [Element(iv.start, false, iv.timeout), Element(iv.end, true, 0)]
  {
    if ivs == [] {
      assert [iv][1..] == [];
    } else {
      assert (ivs + [iv])[1..] == ivs[1..] + [iv];
      FlattenAppend(ivs[1..], iv);
    }
  }

  datatype Pair = Pair(start: Key, end: Key)

  /** How every reader pairs up elements: an opening element with a well-sized key waits for the next
      closing one; anything else is dropped. */
  function PairUp(es: seq<Element>, len: nat, pending: Option<Key>): (ps: seq<Pair>)
    requires pending.Some? ==> |pending.value| == len
    ensures forall p :: p in ps ==> |p.start| == len && |p.end| == len
  {
    if es == [] then []
    else
      var e := es[0];
      if !e.intervalEnd then PairUp(es[1..], len, if |e.key| == len then Some(e.key) else None)
      else if pending.Some? && |e.key| == len then [Pair(pending.value, e.key)] + PairUp(es[1..], len, None)
      else PairUp(es[1..], len, None)
  }

  lemma TakeOver<T>(seen: seq<T>, x: T, rest: seq<T>)
    ensures seen + [x] + rest == seen + ([x] + rest)
  {
  }

  /** One element of the pairing, read from position i of a list. */
  lemma PairUpStep(es: seq<Element>, i: nat, len: nat, pending: Option<Key>)
    requires i <= |es| && (pending.Some? ==> |pending.value| == len)
    ensures i == |es| ==> PairUp(es[i..], len, pending) == []
    ensures i < |es| ==>
              PairUp(es[i..], len, pending) ==
              if !es[i].intervalEnd then PairUp(es[i + 1..], len, if |es[i].key| == len then Some(es[i].key) else None)
              else if pending.Some? && |es[i].key| == len then
                [Pair(pending.value, es[i].key)] + PairUp(es[i + 1..], len, None)
              else PairUp(es[i + 1..], len, None)
  {
    if i < |es| { assert es[i..][0] == es[i] && es[i..][1..] == es[i + 1..]; }
  }

  function Pairs(ivs: seq<Interval>): (ps: seq<Pair>)
    ensures |ps| == |ivs| && forall i :: 0 <= i < |ivs| ==> ps[i] == Pair(ivs[i].start, ivs[i].end)
  {
    seq(|ivs|, i requires 0 <= i < |ivs| => Pair(ivs[i].start, ivs[i].end))
  }

  predicate Sized(ivs: seq<Interval>, len: nat) {
    forall i :: 0 <= i < |ivs| ==> |ivs[i].start| == len && |ivs[i].end| == len
  }

  /** Reading pairs back what the encoders write. */
  lemma {:induction false} PairUpFlatten(ivs: seq<Interval>, len: nat)
    requires Sized(ivs, len)
    ensures PairUp(Flatten(ivs), len, None) == Pairs(ivs)
  {
    if ivs != [] {
      var es := Flatten(ivs);
      assert es[1..][1..] == Flatten(ivs[1..]);
      PairUpFlatten(ivs[1..], len);
      assert Pairs(ivs) == [Pair(ivs[0].start, ivs[0].end)] + Pairs(ivs[1..]);
    }
  }

  /** Whether a value falls in a pair; an end key of zero is the top of the space. */
  predicate InPair(p: Pair, x: nat) {
    Number(p.start) <= x && (Number(p.end) == 0 || x < Number(p.end))
  }

  /** What a set of elements with keys of `len` bytes matches. */
  ghost predicate Matches(es: seq<Element>, len: nat, x: nat) {
    exists p :: p in PairUp(es, len, None) && InPair(p, x)
  }
}
