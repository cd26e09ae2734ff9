/** Mapping over and joining sequences. */
module Sequences {
  function MapSeq<X, Y>(xs: seq<X>, f: X -> Y): seq<Y> {
    if xs == [] then [] else [f(xs[0])] + MapSeq(xs[1..], f)
  }

  function Concat<X>(xss: seq<seq<X>>): seq<X> {
    if xss == [] then [] else xss[0] + Concat(xss[1..])
  }

  lemma {:induction false} MapSeqConcat<X, Y>(a: seq<X>, b: seq<X>, f: X -> Y)
    ensures MapSeq(a + b, f) == MapSeq(a, f) + MapSeq(b, f)
    decreases |a|
  {
    if a == [] {
      assert a + b == b;
    } else {
      assert (a + b)[1..] == a[1..] + b;
      MapSeqConcat(a[1..], b, f);
    }
  }

  lemma {:induction false} ConcatAppend<X>(a: seq<seq<X>>, b: seq<seq<X>>)
    ensures Concat(a + b) == Concat(a) + Concat(b)
    decreases |a|
  {
    if a == [] {
      assert a + b == b;
    } else {
      assert (a + b)[1..] == a[1..] + b;
      ConcatAppend(a[1..], b);
    }
  }

  lemma {:induction false} MapSeqCompose<X, Y, Z>(xs: seq<X>, f: X -> Y, g: Y -> Z, h: X -> Z)
    requires forall x :: h(x) == g(f(x))
    ensures MapSeq(MapSeq(xs, f), g) == MapSeq(xs, h)
    decreases |xs|
  {
    if xs != [] {
      assert MapSeq(xs, f)[1..] == MapSeq(xs[1..], f);
      MapSeqCompose(xs[1..], f, g, h);
    }
  }

  // Mapping and joining, one element at the front.
  lemma MapJoinFront<X, Y>(x: X, xs: seq<X>, f: X -> seq<Y>)
    ensures Concat(MapSeq([x] + xs, f)) == f(x) + Concat(MapSeq(xs, f))
  {
    assert ([x] + xs)[1..] == xs;
    assert MapSeq([x] + xs, f) == [f(x)] + MapSeq(xs, f);
  }
}
