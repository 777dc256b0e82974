/** Strings as the reconciler compares, sorts, joins and prints them. */
module Texts {

  datatype Option<+T> = None | Some(value: T)

  // ---- byte-wise order of sort.Strings --------------------------------------

  predicate Leq(a: string, b: string) {
    a == [] || (b != [] && (a[0] < b[0] || (a[0] == b[0] && Leq(a[1..], b[1..]))))
  }

  lemma {:induction false} LeqTotal(a: string, b: string)
    ensures Leq(a, b) || Leq(b, a)
  {
    if a != [] && b != [] && a[0] == b[0] {
      LeqTotal(a[1..], b[1..]);
    }
  }

  lemma {:induction false} LeqAntisymmetric(a: string, b: string)
    requires Leq(a, b) && Leq(b, a)
    ensures a == b
  {
    if a != [] && b != [] {
      LeqAntisymmetric(a[1..], b[1..]);
      assert a == [a[0]] + a[1..] && b == [b[0]] + b[1..];
    }
  }

  lemma {:induction false} LeqTransitive(a: string, b: string, c: string)
    requires Leq(a, b) && Leq(b, c)
    ensures Leq(a, c)
  {
    if a != [] && b != [] && c != [] && a[0] == b[0] == c[0] {
      LeqTransitive(a[1..], b[1..], c[1..]);
    }
  }

  /** At the first place where the two strings differ, if there is one, the first has no character or the
      smaller one. */
  lemma {:induction false} LeqByFirstDifference(a: string, b: string)
    ensures Leq(a, b) <==> a <= b || exists i :: 0 <= i < |a| && i < |b| && a[..i] == b[..i] && a[i] < b[i]
  {
    if a != [] && b != [] && a[0] == b[0] {
      LeqByFirstDifference(a[1..], b[1..]);
      assert a == [a[0]] + a[1..] && b == [b[0]] + b[1..];
      if i :| 0 <= i < |a| && i < |b| && a[..i] == b[..i] && a[i] < b[i] {
        assert a[..i][1..] == a[1..][..i - 1] && b[..i][1..] == b[1..][..i - 1];
        assert a[1..][i - 1] == a[i] && b[1..][i - 1] == b[i];
      }
      if i :| 0 <= i < |a[1..]| && i < |b[1..]| && a[1..][..i] == b[1..][..i] && a[1..][i] < b[1..][i] {
        assert a[..i + 1] == [a[0]] + a[1..][..i] && b[..i + 1] == [b[0]] + b[1..][..i];
        assert a[i + 1] == a[1..][i] && b[i + 1] == b[1..][i];
      }
    } else if a != [] && b != [] && a[0] < b[0] {
      assert a[..0] == b[..0];
    } else if a != [] && b != [] {
      assert forall i :: 0 < i <= |a| && i <= |b| ==> a[..i][0] == a[0] && b[..i][0] == b[0];
    }
  }

  // ---- sorting by a text key -------------------------------------------------

  ghost predicate SortedBy<T(!new)>(xs: seq<T>, key: T -> string) {
    forall i, j :: 0 <= i < j < |xs| ==> Leq(key(xs[i]), key(xs[j]))
  }

  function Keys<T>(xs: seq<T>, key: T -> string): (r: seq<string>)
    ensures |r| == |xs| && forall i :: 0 <= i < |xs| ==> r[i] == key(xs[i])
  {
    seq(|xs|, i requires 0 <= i < |xs| => key(xs[i]))
  }

  function Insert<T(!new)>(x: T, xs: seq<T>, key: T -> string): (r: seq<T>)
    requires SortedBy(xs, key)
    ensures multiset(r) == multiset(xs) + multiset{x}
    ensures SortedBy(r, key)
  {
    if xs == [] then [x]
    else if Leq(key(x), key(xs[0])) then
      InsertFront(x, xs, key);
      [x] + xs
    else
      var rest := Insert(x, xs[1..], key);
      InsertLater(x, xs, rest, key);
      [xs[0]] + rest
  }

  lemma InsertFront<T(!new)>(x: T, xs: seq<T>, key: T -> string)
    requires xs != [] && SortedBy(xs, key) && Leq(key(x), key(xs[0]))
    ensures SortedBy([x] + xs, key)
    ensures multiset([x] + xs) == multiset(xs) + multiset{x}
  {
    forall j | 0 <= j < |xs| ensures Leq(key(x), key(xs[j])) {
      if j > 0 { LeqTransitive(key(x), key(xs[0]), key(xs[j])); }
    }
  }

  lemma InsertLater<T(!new)>(x: T, xs: seq<T>, rest: seq<T>, key: T -> string)
    requires xs != [] && SortedBy(xs, key) && !Leq(key(x), key(xs[0]))
    requires SortedBy(rest, key) && multiset(rest) == multiset(xs[1..]) + multiset{x}
    ensures SortedBy([xs[0]] + rest, key)
    ensures multiset([xs[0]] + rest) == multiset(xs) + multiset{x}
  {
    LeqTotal(key(x), key(xs[0]));
    forall j | 0 <= j < |rest| ensures Leq(key(xs[0]), key(rest[j])) {
      assert rest[j] in multiset(rest);
      if rest[j] != x {
        assert rest[j] in multiset(xs[1..]);
        var k :| 0 <= k < |xs[1..]| && xs[1..][k] == rest[j];
        assert xs[k + 1] == rest[j];
      }
    }
    assert xs == [xs[0]] + xs[1..];
  }

  function SortBy<T(!new)>(xs: seq<T>, key: T -> string): (r: seq<T>)
    ensures multiset(r) == multiset(xs)
    ensures SortedBy(r, key)
  {
    if xs == [] then []
    else
      assert xs == [xs[0]] + xs[1..];
      Insert(xs[0], SortBy(xs[1..], key), key)
  }

  function Itself(s: string): string { s }

  ghost predicate Sorted(ss: seq<string>) { SortedBy(ss, Itself) }

  /** sort.Strings: the order is antisymmetric, so the result is determined (see SortedUnique). */
  function SortStrings(ss: seq<string>): (r: seq<string>)
    ensures multiset(r) == multiset(ss)
    ensures Sorted(r)
  {
    SortBy(ss, Itself)
  }

  /** Two rearrangements in order start with the same string. */
  lemma SortedHeads(a: seq<string>, b: seq<string>)
    requires Sorted(a) && Sorted(b) && a != [] && b != []
    requires a[0] in b && b[0] in a
    ensures a[0] == b[0]
  {
    hide Leq;
    var i :| 0 <= i < |b| && b[i] == a[0];
    var j :| 0 <= j < |a| && a[j] == b[0];
    LeqTotal(a[0], a[0]);
    assert Leq(Itself(b[0]), Itself(b[i])) || i == 0;
    assert Leq(Itself(a[0]), Itself(a[j])) || j == 0;
    LeqAntisymmetric(a[0], b[0]);
  }

  lemma TailsSame<T>(a: seq<T>, b: seq<T>)
    requires multiset(a) == multiset(b) && a != [] && b != [] && a[0] == b[0]
    ensures multiset(a[1..]) == multiset(b[1..])
  {
    assert a == [a[0]] + a[1..] && b == [b[0]] + b[1..];
    assert multiset(a[1..]) == multiset(a) - multiset{a[0]};
    assert multiset(b[1..]) == multiset(b) - multiset{b[0]};
  }

  /** Two sorted lists with the same members, counted, are the same list. */
  lemma {:induction false} SortedUnique(a: seq<string>, b: seq<string>)
    requires Sorted(a) && Sorted(b)
    requires multiset(a) == multiset(b)
    ensures a == b
  {
    hide Sorted;
    assert |a| == |multiset(a)| == |multiset(b)| == |b|;
    if a != [] {
      assert a[0] in multiset(b) && b[0] in multiset(a);
      SortedHeads(a, b);
      TailsSame(a, b);
      SortedTail(a);
      SortedTail(b);
      SortedUnique(a[1..], b[1..]);
      assert a == [a[0]] + a[1..] && b == [b[0]] + b[1..];
    }
  }

  lemma SortedTail(a: seq<string>)
    requires Sorted(a) && a != []
    ensures Sorted(a[1..])
  {
    hide Leq;
    forall i, j | 0 <= i < j < |a[1..]| ensures Leq(Itself(a[1..][i]), Itself(a[1..][j])) {
      assert Leq(Itself(a[i + 1]), Itself(a[j + 1]));
    }
  }

  lemma SortOfSorted(ss: seq<string>)
    requires Sorted(ss)
    ensures SortStrings(ss) == ss
  {
    SortedUnique(SortStrings(ss), ss);
  }

  // ---- sets of strings as sorted duplicate-free lists ------------------------

  ghost predicate Distinct<T(!new)>(xs: seq<T>) {
    forall i, j :: 0 <= i < j < |xs| ==> xs[i] != xs[j]
  }

  /** A sorted duplicate-free list is determined by its set of members. */
  lemma SortedSetUnique(a: seq<string>, b: seq<string>)
    requires Sorted(a) && Sorted(b) && Distinct(a) && Distinct(b)
    requires forall s :: s in a <==> s in b
    ensures a == b
  {
    forall s ensures multiset(a)[s] == multiset(b)[s] {
      DistinctCount(a, s);
      DistinctCount(b, s);
    }
    assert multiset(a) == multiset(b);
    SortedUnique(a, b);
  }

  lemma {:induction false} DistinctCount<T(!new)>(xs: seq<T>, x: T)
    requires Distinct(xs)
    ensures multiset(xs)[x] == if x in xs then 1 else 0
  {
    if xs != [] {
      var init, last := xs[..|xs| - 1], xs[|xs| - 1];
      assert xs == init + [last];
      assert last !in init;
      DistinctCount(init, x);
    }
  }

  lemma {:induction false} CountsMakeDistinct<T(!new)>(xs: seq<T>)
    requires forall x :: multiset(xs)[x] <= 1
    ensures Distinct(xs)
  {
    forall i, j | 0 <= i < j < |xs| ensures xs[i] != xs[j] {
      assert xs == xs[..i] + [xs[i]] + xs[i + 1..j] + [xs[j]] + xs[j + 1..];
      assert multiset(xs)[xs[i]] >= 1 + multiset{xs[j]}[xs[i]];
    }
  }

  /** Removing the head of a list and its match in a rearrangement leaves rearrangements. */
  lemma MatchHead<T>(a: seq<T>, b: seq<T>) returns (i: nat)
    requires multiset(a) == multiset(b) && a != []
    ensures i < |b| && b[i] == a[0] && b == b[..i] + [b[i]] + b[i + 1..]
    ensures multiset(a[1..]) == multiset(b[..i] + b[i + 1..])
    ensures |b[..i] + b[i + 1..]| == |a| - 1
  {
    assert a[0] in multiset(b);
    i :| 0 <= i < |b| && b[i] == a[0];
    assert a == [a[0]] + a[1..];
    assert b == b[..i] + [b[i]] + b[i + 1..];
    var rest := b[..i] + b[i + 1..];
    assert multiset(b) == multiset(rest) + multiset{a[0]};
    assert multiset(a) == multiset(a[1..]) + multiset{a[0]};
    assert multiset(a[1..]) == multiset(a) - multiset{a[0]};
    assert multiset(rest) == multiset(b) - multiset{a[0]};
    assert |a| == |multiset(a)| == |multiset(b)| == |b|;
  }

  // ---- trimming, for any notion of a blank -----------------------------------

  function TrimLeft(blank: char -> bool, s: string): string {
    if s != "" && blank(s[0]) then TrimLeft(blank, s[1..]) else s
  }

  function TrimRight(blank: char -> bool, s: string): string {
    if s != "" && blank(s[|s| - 1]) then TrimRight(blank, s[..|s| - 1]) else s
  }

  function TrimBy(blank: char -> bool, s: string): string { TrimRight(blank, TrimLeft(blank, s)) }

  predicate AllBlank(blank: char -> bool, s: string) { forall i :: 0 <= i < |s| ==> blank(s[i]) }

  /** Neither end is a blank. */
  predicate Tight(blank: char -> bool, s: string) { s != "" ==> !blank(s[0]) && !blank(s[|s| - 1]) }

  lemma {:induction false} LeftParts(blank: char -> bool, s: string) returns (lead: string)
    ensures s == lead + TrimLeft(blank, s) && AllBlank(blank, lead)
    ensures TrimLeft(blank, s) != "" ==> !blank(TrimLeft(blank, s)[0])
  {
    if s != "" && blank(s[0]) {
      var rest := LeftParts(blank, s[1..]);
      lead := [s[0]] + rest;
      assert s == [s[0]] + s[1..];
    } else {
      lead := "";
    }
  }

  lemma {:induction false} RightParts(blank: char -> bool, s: string) returns (trail: string)
    ensures s == TrimRight(blank, s) + trail && AllBlank(blank, trail)
    ensures TrimRight(blank, s) != "" ==> !blank(TrimRight(blank, s)[|TrimRight(blank, s)| - 1])
  {
    if s != "" && blank(s[|s| - 1]) {
      var rest := RightParts(blank, s[..|s| - 1]);
      trail := rest + [s[|s| - 1]];
      assert s == s[..|s| - 1] + [s[|s| - 1]];
    } else {
      trail := "";
    }
  }

  /** Trimming takes blanks off both ends and leaves none there. */
  lemma TrimParts(blank: char -> bool, s: string) returns (lead: string, trail: string)
    ensures s == lead + TrimBy(blank, s) + trail && AllBlank(blank, lead) && AllBlank(blank, trail)
    ensures Tight(blank, TrimBy(blank, s))
  {
    lead := LeftParts(blank, s);
    trail := RightParts(blank, TrimLeft(blank, s));
    var t := TrimBy(blank, s);
    if t != "" { assert TrimLeft(blank, s)[0] == t[0]; }
  }

  lemma TrimOfTight(blank: char -> bool, s: string)
    requires Tight(blank, s)
    ensures TrimBy(blank, s) == s
  {
  }

  lemma {:induction false} TrimLeftStrips(blank: char -> bool, lead: string, s: string)
    requires AllBlank(blank, lead) && s != "" && !blank(s[0])
    ensures TrimLeft(blank, lead + s) == s
  {
    if lead == "" {
      assert lead + s == s;
    } else {
      assert (lead + s)[1..] == lead[1..] + s;
      TrimLeftStrips(blank, lead[1..], s);
    }
  }

  lemma {:induction false} TrimRightStrips(blank: char -> bool, s: string, trail: string)
    requires AllBlank(blank, trail) && s != "" && !blank(s[|s| - 1])
    ensures TrimRight(blank, s + trail) == s
  {
    if trail == "" {
      assert s + trail == s;
    } else {
      var n := |trail| - 1;
      assert (s + trail)[..|s| + n] == s + trail[..n];
      TrimRightStrips(blank, s, trail[..n]);
    }
  }

  /** Trimming takes no more than the blanks at the ends. */
  lemma TrimStrips(blank: char -> bool, lead: string, s: string, trail: string)
    requires AllBlank(blank, lead) && AllBlank(blank, trail) && s != "" && Tight(blank, s)
    ensures TrimBy(blank, lead + s + trail) == s
  {
    assert lead + s + trail == lead + (s + trail);
    TrimLeftStrips(blank, lead, s + trail);
    TrimRightStrips(blank, s, trail);
  }

  /** Trimming is idempotent. */
  lemma TrimTwice(blank: char -> bool, s: string)
    ensures TrimBy(blank, TrimBy(blank, s)) == TrimBy(blank, s)
  {
    var lead, trail := TrimParts(blank, s);
    TrimOfTight(blank, TrimBy(blank, s));
  }

  // ---- joining and splitting -------------------------------------------------

  predicate Free(s: string, c: char) { c !in s }

  /** strings.Join with a one-character separator. */
  function Join(ss: seq<string>, sep: char): string {
    if ss == [] then "" else if |ss| == 1 then ss[0] else ss[0] + [sep] + Join(ss[1..], sep)
  }

  lemma {:induction false} JoinLast(ss: seq<string>, last: string, sep: char)
    requires ss != []
    ensures Join(ss + [last], sep) == Join(ss, sep) + [sep] + last
  {
    assert (ss + [last])[1..] == ss[1..] + [last];
    if |ss| == 1 {
      assert ss[1..] + [last] == [last];
    } else {
      JoinLast(ss[1..], last, sep);
    }
  }

  /** strings.Split / the naive String.split on one character. */
  function SplitOn(s: string, c: char): (r: seq<string>)
    ensures |r| >= 1
    ensures forall i :: 0 <= i < |r| ==> Free(r[i], c)
  {
    if s == "" then [""]
    else
      var rest := SplitOn(s[1..], c);
      if s[0] == c then [""] + rest else [[s[0]] + rest[0]] + rest[1..]
  }

  lemma {:induction false} SplitOnFree(s: string, c: char)
    requires Free(s, c)
    ensures SplitOn(s, c) == [s]
  {
    if s != "" {
      assert s[0] in s;
      assert forall d :: d in s[1..] ==> d in s;
      SplitOnFree(s[1..], c);
      assert s == [s[0]] + s[1..];
    }
  }

  lemma {:induction false} SplitOnAppend(s: string, c: char, t: string)
    requires Free(s, c)
    ensures SplitOn(s + [c] + t, c) == [s] + SplitOn(t, c)
  {
    var whole := s + [c] + t;
    if s == "" {
      assert whole[1..] == t;
    } else {
      assert s[0] in s;
      assert forall d :: d in s[1..] ==> d in s;
      assert whole[1..] == s[1..] + [c] + t;
      SplitOnAppend(s[1..], c, t);
      assert s == [s[0]] + s[1..];
    }
  }

  lemma {:induction false} SplitOnConcat(s: string, c: char, t: string)
    ensures SplitOn(s + [c] + t, c) == SplitOn(s, c) + SplitOn(t, c)
  {
    SplitStep(s, c);
    SplitStep(s + [c] + t, c);
    hide SplitOn;
    if s == "" {
      assert (s + [c] + t)[1..] == t;
    } else {
      assert (s + [c] + t)[1..] == s[1..] + [c] + t;
      SplitOnConcat(s[1..], c, t);
      HeadJoins([s[0]], SplitOn(s[1..], c), SplitOn(t, c));
    }
  }

  lemma SplitStep(s: string, c: char)
    ensures s == "" ==> SplitOn(s, c) == [""]
    ensures s != "" && s[0] == c ==> SplitOn(s, c) == [""] + SplitOn(s[1..], c)
    ensures s != "" && s[0] != c ==> SplitOn(s, c) == [[s[0]] + SplitOn(s[1..], c)[0]] + SplitOn(s[1..], c)[1..]
  {
  }

  lemma HeadJoins(h: string, r: seq<string>, u: seq<string>)
    requires r != []
    ensures [h + (r + u)[0]] + (r + u)[1..] == [h + r[0]] + r[1..] + u
    ensures [""] + (r + u) == [""] + r + u
  {
  }

  lemma {:induction false} SplitOfJoin(ss: seq<string>, c: char)
    requires ss != [] && forall i :: 0 <= i < |ss| ==> Free(ss[i], c)
    ensures SplitOn(Join(ss, c), c) == ss
  {
    if |ss| == 1 {
      SplitOnFree(ss[0], c);
    } else {
      SplitOfJoin(ss[1..], c);
      SplitOnAppend(ss[0], c, Join(ss[1..], c));
      assert ss == [ss[0]] + ss[1..];
    }
  }

  lemma {:induction false} JoinOfSplit(s: string, c: char)
    ensures Join(SplitOn(s, c), c) == s
  {
    if s != "" {
      JoinOfSplit(s[1..], c);
      var rest := SplitOn(s[1..], c);
      assert s == [s[0]] + s[1..];
      if s[0] == c {
        assert ([""] + rest)[1..] == rest;
      } else {
        assert ([[s[0]] + rest[0]] + rest[1..])[1..] == rest[1..];
      }
    }
  }

  lemma {:induction false} JoinFree(ss: seq<string>, sep: char, c: char)
    requires c != sep && forall i :: 0 <= i < |ss| ==> Free(ss[i], c)
    ensures Free(Join(ss, sep), c)
  {
    if |ss| > 1 {
      JoinFree(ss[1..], sep, c);
    }
  }

  /** Joining is injective on lists of non-empty separator-free strings. */
  lemma JoinInjective(a: seq<string>, b: seq<string>, sep: char)
    requires forall i :: 0 <= i < |a| ==> Free(a[i], sep) && a[i] != ""
    requires forall i :: 0 <= i < |b| ==> Free(b[i], sep) && b[i] != ""
    requires Join(a, sep) == Join(b, sep)
    ensures a == b
  {
    if a != [] && b != [] {
      SplitOfJoin(a, sep);
      SplitOfJoin(b, sep);
    } else {
      JoinOfNonEmpty(a, sep);
      JoinOfNonEmpty(b, sep);
    }
  }

  lemma JoinOfNonEmpty(a: seq<string>, sep: char)
    requires forall i :: 0 <= i < |a| ==> a[i] != ""
    ensures Join(a, sep) == "" <==> a == []
  {
  }

  // ---- decimal ---------------------------------------------------------------

  predicate IsDigit(c: char) { '0' <= c <= '9' }

  predicate AllDigits(s: string) { forall i :: 0 <= i < |s| ==> IsDigit(s[i]) }

  function DigitOf(n: nat): (c: char)
    requires n < 10
    ensures IsDigit(c) && DigitValue(c) == n
  {
    '0' + (n as char)
  }

  function DigitValue(c: char): (n: nat)
    requires IsDigit(c)
    ensures n < 10
  {
    c as int - '0' as int
  }

  /** strconv.Itoa for a non-negative number. */
  function Decimal(n: nat): string {
    if n < 10 then [DigitOf(n)] else Decimal(n / 10) + [DigitOf(n % 10)]
  }

  function Value(s: string): nat
    requires AllDigits(s)
  {
    if s == "" then 0 else 10 * Value(s[..|s| - 1]) + DigitValue(s[|s| - 1])
  }

  lemma DecimalLast(n: nat)
    ensures Decimal(n) == (if n >= 10 then Decimal(n / 10) else "") + [DigitOf(n % 10)]
    ensures DigitOf(n % 10) as int == 0x30 + n % 10
    ensures n / Pow10(0) == n
  {
  }

  /** The digits of the printed form, from the last one on, are those of the number. */
  lemma {:induction false} DecimalDigits(n: nat, k: nat)
    requires k < |Decimal(n)|
    ensures Decimal(n)[|Decimal(n)| - 1 - k] as int == 0x30 + (n / Pow10(k)) % 10
  {
    DecimalLast(n);
    hide Decimal, Pow10, DigitOf;
    if k > 0 {
      DecimalDigits(n / 10, k - 1);
      DivideTwice(n, k);
    }
  }

  lemma DivideTwice(n: nat, k: nat)
    requires k > 0
    ensures Pow10(k) > 0 && Pow10(k - 1) > 0 && n / Pow10(k) == (n / 10) / Pow10(k - 1)
  {
    var p := Pow10(k - 1);
    var q, r := (n / 10) / p, (n / 10) % p;
    assert n / 10 == q * p + r;
    assert n == (10 * p) * q + (10 * r + n % 10);
    assert 0 <= 10 * r + n % 10 < 10 * p;
    QuotientIs(n, 10 * p, q, 10 * r + n % 10);
  }

  lemma QuotientIs(n: nat, d: nat, q: nat, r: nat)
    requires d > 0 && r < d && n == d * q + r
    ensures n / d == q
  {
    var e := n / d - q;
    assert n == d * (n / d) + n % d;
    assert d * (n / d) - d * q == d * e;
  }

  /** The decimal strings strconv.Itoa prints: no leading zero except "0" itself. */
  predicate CanonicalDecimal(s: string) {
    s != "" && AllDigits(s) && (s[0] == '0' ==> |s| == 1)
  }

  lemma {:induction false} DecimalRoundTrip(n: nat)
    ensures AllDigits(Decimal(n)) && Value(Decimal(n)) == n
    ensures Decimal(n) != "" && (Decimal(n)[0] == '0' <==> n == 0)
    ensures CanonicalDecimal(Decimal(n))
  {
    if n >= 10 {
      DecimalRoundTrip(n / 10);
      var s := Decimal(n);
      assert s[..|s| - 1] == Decimal(n / 10);
      assert s[0] == Decimal(n / 10)[0];
    } else {
      assert Decimal(n)[..0] == "";
      if n != 0 { assert DigitValue(Decimal(n)[0]) != 0; }
    }
  }

  lemma {:induction false} ValueRoundTrip(s: string)
    requires CanonicalDecimal(s)
    ensures Decimal(Value(s)) == s
    ensures |s| > 1 ==> Value(s) >= 10
  {
    var init, last := s[..|s| - 1], s[|s| - 1];
    assert s == init + [last];
    if init == "" {
      assert Value(s) == DigitValue(last);
      DigitInverse(last);
    } else {
      assert init[0] == s[0];
      ValueRoundTrip(init);
      DigitInverse(last);
      if |init| == 1 { assert Value(init[..0]) == 0; assert Value(init) == DigitValue(init[0]) != 0; }
      assert Value(s) / 10 == Value(init) && Value(s) % 10 == DigitValue(last);
    }
  }

  lemma DigitInverse(c: char)
    requires IsDigit(c)
    ensures DigitOf(DigitValue(c)) == c
  {
  }

  /** Number of digits of a value below a power of ten. */
  lemma {:induction false} DecimalLength(n: nat, k: nat)
    requires k >= 1 && n < Pow10(k)
    ensures |Decimal(n)| <= k
  {
    if n >= 10 {
      assert Pow10(1) == 10 * Pow10(0) == 10;
      assert n / 10 < Pow10(k - 1);
      DecimalLength(n / 10, k - 1);
    }
  }

  function Pow10(k: nat): (r: nat)
    ensures r >= 1
  {
    if k == 0 then 1 else 10 * Pow10(k - 1)
  }
}
