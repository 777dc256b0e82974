/** The "append when it parses" loop shape, as a function. */
module Collecting {
  import opened Texts

  function Collect<A, B>(f: A -> Option<B>, xs: seq<A>): seq<B> {
    if xs == [] then []
    else (match f(xs[0]) case Some(y) => [y] case None => []) + Collect(f, xs[1..])
  }

  lemma CollectEmpty<A, B>(f: A -> Option<B>)
    ensures Collect(f, []) == []
  {
  }

  lemma CollectOne<A, B>(f: A -> Option<B>, x: A)
    ensures Collect(f, [x]) == match f(x) case Some(y) => [y] case None => []
  {
    assert [x][1..] == [];
  }

  lemma {:induction false} CollectAppend<A, B>(f: A -> Option<B>, xs: seq<A>, x: A)
    ensures Collect(f, xs + [x]) == Collect(f, xs) + (match f(x) case Some(y) => [y] case None => [])
  {
    if xs == [] {
      assert (xs + [x])[1..] == [];
    } else {
      assert (xs + [x])[1..] == xs[1..] + [x];
      CollectAppend(f, xs[1..], x);
    }
  }

  lemma {:induction false} CollectConcat<A, B>(f: A -> Option<B>, a: seq<A>, b: seq<A>)
    ensures Collect(f, a + b) == Collect(f, a) + Collect(f, b)
  {
    if a == [] {
      assert a + b == b;
    } else {
      assert (a + b)[1..] == a[1..] + b;
      CollectConcat(f, a[1..], b);
    }
  }

  /** Collecting commutes with rearranging. */
  lemma {:induction false} CollectOfSame<A, B>(f: A -> Option<B>, xs: seq<A>, ys: seq<A>)
    requires multiset(xs) == multiset(ys)
    ensures multiset(Collect(f, xs)) == multiset(Collect(f, ys))
    decreases |xs|
  {
    hide Collect;
    assert |xs| == |multiset(xs)| == |multiset(ys)| == |ys|;
    if xs != [] {
      var i := MatchHead(xs, ys);
      CollectOfSame(f, xs[1..], ys[..i] + ys[i + 1..]);
      assert xs == [xs[0]] + xs[1..];
      CollectConcat(f, [xs[0]], xs[1..]);
      CollectConcat(f, ys[..i], ys[i + 1..]);
      CollectConcat(f, ys[..i] + [ys[i]], ys[i + 1..]);
      CollectConcat(f, ys[..i], [ys[i]]);
    }
  }

  /** Collecting twice is collecting once when the stages agree element by element. */
  lemma {:induction false} CollectCompose<A, B, C>(f: A -> Option<B>, g: B -> Option<C>, h: A -> Option<C>, xs: seq<A>)
    requires forall x :: x in xs ==> h(x) == (match f(x) case Some(y) => g(y) case None => None)
    ensures Collect(g, Collect(f, xs)) == Collect(h, xs)
  {
    if xs != [] {
      CollectCompose(f, g, h, xs[1..]);
      assert xs[0] in xs;
      var rest := Collect(f, xs[1..]);
      match f(xs[0])
      case Some(y) => assert ([y] + rest)[1..] == rest;
      case None => assert [] + rest == rest;
    }
  }

  lemma {:induction false} CollectAll<A>(f: A -> Option<A>, xs: seq<A>)
    requires forall x :: x in xs ==> f(x) == Some(x)
    ensures Collect(f, xs) == xs
  {
    if xs != [] { CollectAll(f, xs[1..]); }
  }

  lemma {:induction false} CollectLength<A, B>(f: A -> Option<B>, xs: seq<A>)
    ensures |Collect(f, xs)| <= |xs|
    ensures |Collect(f, xs)| == |xs| <==> forall x :: x in xs ==> f(x).Some?
  {
    if xs != [] { CollectLength(f, xs[1..]); }
  }

  lemma {:induction false} CollectMembers<A, B>(f: A -> Option<B>, xs: seq<A>, y: B)
    ensures y in Collect(f, xs) <==> exists x :: x in xs && f(x) == Some(y)
  {
    if xs != [] {
      CollectMembers(f, xs[1..], y);
    }
  }
}
