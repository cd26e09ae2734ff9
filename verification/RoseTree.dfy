/** Rose trees with their functor, applicative, monad and fold. */
module RoseTrees {
  import opened Sequences

  datatype Node<+X> = Node(value: X, subforest: seq<Node<X>>)

  function Transform<X, Y>(t: Node<X>, f: X -> Y): Node<Y> {
    Node(f(t.value), seq(|t.subforest|, i requires 0 <= i < |t.subforest| => Transform(t.subforest[i], f)))
  }

  function Lift<X>(x: X): Node<X> {
    Node(x, [])
  }

  function Ap<X, Y>(f: Node<X -> Y>, x: Node<X>): Node<Y>
    decreases f
  {
    Node(f.value(x.value),
         seq(|x.subforest|, i requires 0 <= i < |x.subforest| => Transform(x.subforest[i], f.value))
         + seq(|f.subforest|, i requires 0 <= i < |f.subforest| => Ap(f.subforest[i], x)))
  }

  function Flatten<X>(t: Node<Node<X>>): Node<X>
    decreases t
  {
    Node(t.value.value,
         t.value.subforest
         + seq(|t.subforest|, i requires 0 <= i < |t.subforest| => Flatten(t.subforest[i])))
  }

  function Chain<X, Y>(t: Node<X>, f: X -> Node<Y>): Node<Y> {
    Flatten(Transform(t, f))
  }

  function FoldLeft<X, S>(t: Node<X>, state: S, f: (S, X) -> S): S
    decreases t, 0
  {
    FoldForest(t.subforest, f(state, t.value), f)
  }

  // hana::fold_left over the tuple of subtrees.
  function FoldForest<X, S>(ts: seq<Node<X>>, state: S, f: (S, X) -> S): S
    decreases ts, 1
  {
    if ts == [] then state else FoldForest(ts[1..], FoldLeft(ts[0], state, f), f)
  }

  // equal: same value, and pairwise equal subforests of the same length.
  predicate Equal<X(==)>(a: Node<X>, b: Node<X>)
    decreases a
  {
    && a.value == b.value
    && |a.subforest| == |b.subforest|
    && forall i | 0 <= i < |a.subforest| :: Equal(a.subforest[i], b.subforest[i])
  }

  lemma {:induction false} EqualMeansSame<X>(a: Node<X>, b: Node<X>)
    ensures Equal(a, b) <==> a == b
    decreases a
  {
    if |a.subforest| == |b.subforest| {
      forall i | 0 <= i < |a.subforest| ensures Equal(a.subforest[i], b.subforest[i]) <==> a.subforest[i] == b.subforest[i] {
        EqualMeansSame(a.subforest[i], b.subforest[i]);
      }
      if Equal(a, b) { assert a.subforest == b.subforest; }
    }
  }

  // ---------- Functor ----------

  lemma {:induction false} TransformIdentity<X>(t: Node<X>)
    ensures Transform(t, x => x) == t
    decreases t
  {
    var id := (x: X) => x;
    forall i | 0 <= i < |t.subforest| ensures Transform(t.subforest[i], id) == t.subforest[i] {
      TransformIdentity(t.subforest[i]);
    }
    assert Transform(t, id).subforest == t.subforest;
  }

  lemma {:induction false} TransformCompose<X, Y, Z>(t: Node<X>, f: X -> Y, g: Y -> Z, h: X -> Z)
    requires forall x :: h(x) == g(f(x))
    ensures Transform(Transform(t, f), g) == Transform(t, h)
    decreases t
  {
    forall i | 0 <= i < |t.subforest|
      ensures Transform(Transform(t.subforest[i], f), g) == Transform(t.subforest[i], h)
    {
      TransformCompose(t.subforest[i], f, g, h);
    }
    assert Transform(Transform(t, f), g).subforest == Transform(t, h).subforest;
  }

  // ---------- Monad ----------

  lemma FlattenLift<X>(t: Node<X>)
    ensures Flatten(Lift(t)) == t
  {
    assert Flatten(Lift(t)).subforest == t.subforest;
  }

  lemma {:induction false} FlattenTransformLift<X>(t: Node<X>)
    ensures Flatten(Transform(t, x => Lift(x))) == t
    decreases t
  {
    var lift := (x: X) => Lift(x);
    forall i | 0 <= i < |t.subforest| ensures Flatten(Transform(t.subforest[i], lift)) == t.subforest[i] {
      FlattenTransformLift(t.subforest[i]);
    }
    assert Flatten(Transform(t, lift)).subforest == t.subforest;
  }

  // Flattening commutes with mapping.
  lemma {:induction false} FlattenNatural<X, Y>(t: Node<Node<X>>, f: X -> Y)
    ensures Transform(Flatten(t), f) == Flatten(Transform(t, n => Transform(n, f)))
    decreases t
  {
    var g := (n: Node<X>) => Transform(n, f);
    forall i | 0 <= i < |t.subforest|
      ensures Transform(Flatten(t.subforest[i]), f) == Flatten(Transform(t.subforest[i], g))
    {
      FlattenNatural(t.subforest[i], f);
    }
    assert Transform(Flatten(t), f).subforest == Flatten(Transform(t, g)).subforest;
  }

  /** Associativity: collapsing the outer two levels or the inner two first gives the same tree. */
  lemma {:induction false} FlattenAssociative<X>(t: Node<Node<Node<X>>>)
    ensures Flatten(Flatten(t)) == Flatten(Transform(t, n => Flatten(n)))
    decreases t
  {
    var flat := (n: Node<Node<X>>) => Flatten(n);
    forall i | 0 <= i < |t.subforest|
      ensures Flatten(Flatten(t.subforest[i])) == Flatten(Transform(t.subforest[i], flat))
    {
      FlattenAssociative(t.subforest[i]);
    }
    assert Flatten(Flatten(t)).subforest == Flatten(Transform(t, flat)).subforest;
  }

  // The same law in the form the library's monad tests use.
  lemma ChainAssociative<X, Y, Z>(t: Node<X>, f: X -> Node<Y>, g: Y -> Node<Z>)
    ensures Chain(Chain(t, f), g) == Chain(t, x => Chain(f(x), g))
  {
    var mapped := (n: Node<Y>) => Transform(n, g);
    var flat := (n: Node<Node<Z>>) => Flatten(n);
    var h := x => Chain(f(x), g);
    FlattenNatural(Transform(t, f), g);
    FlattenAssociative(Transform(Transform(t, f), mapped));
    TransformCompose(t, f, mapped, x => Transform(f(x), g));
    TransformCompose(t, x => Transform(f(x), g), flat, h);
  }

  lemma ChainUnits<X, Y>(x: X, t: Node<X>, f: X -> Node<Y>)
    ensures Chain(Lift(x), f) == f(x)
    ensures Chain(t, y => Lift(y)) == t
  {
    assert Transform(Lift(x), f) == Lift(f(x));
    FlattenLift(f(x));
    FlattenTransformLift(t);
  }

  // ---------- Applicative ----------

  /** `ap` is the one the monad induces. */
  lemma {:induction false} ApIsMonadic<X, Y>(f: Node<X -> Y>, x: Node<X>)
    ensures Ap(f, x) == Flatten(Transform(f, g => Transform(x, g)))
    decreases f
  {
    var apply := (g: X -> Y) => Transform(x, g);
    forall i | 0 <= i < |f.subforest| ensures Ap(f.subforest[i], x) == Flatten(Transform(f.subforest[i], apply)) {
      ApIsMonadic(f.subforest[i], x);
    }
    assert Ap(f, x).subforest == Flatten(Transform(f, apply)).subforest;
  }

  lemma ApIdentity<X>(x: Node<X>)
    ensures Ap(Lift((v: X) => v), x) == x
  {
    TransformIdentity(x);
    var id := (v: X) => v;
    assert Ap(Lift(id), x).subforest == Transform(x, id).subforest;
  }

  lemma {:induction false} ApInterchange<X, Y>(f: Node<X -> Y>, x: X)
    ensures Ap(f, Lift(x)) == Ap(Lift((g: X -> Y) => g(x)), f)
    decreases f
  {
    var at := (g: X -> Y) => g(x);
    forall i | 0 <= i < |f.subforest| ensures Ap(f.subforest[i], Lift(x)) == Transform(f.subforest[i], at) {
      ApInterchange(f.subforest[i], x);
      ApLift(at, f.subforest[i]);
    }
    assert Ap(f, Lift(x)).subforest == Ap(Lift(at), f).subforest;
  }

  // Applying a lone function is mapping it.
  lemma ApLift<X, Y>(f: X -> Y, x: Node<X>)
    ensures Ap(Lift(f), x) == Transform(x, f)
  {
    assert Ap(Lift(f), x).subforest == Transform(x, f).subforest;
  }

  // Mapping over an application maps over its functions.
  lemma {:induction false} TransformAp<X, Y, Z>(f: Node<X -> Y>, x: Node<X>, g: Y -> Z, post: (X -> Y) -> (X -> Z))
    requires forall h, v :: post(h)(v) == g(h(v))
    ensures Transform(Ap(f, x), g) == Ap(Transform(f, post), x)
    decreases f
  {
    forall i | 0 <= i < |x.subforest|
      ensures Transform(Transform(x.subforest[i], f.value), g) == Transform(x.subforest[i], post(f.value))
    {
      TransformCompose(x.subforest[i], f.value, g, post(f.value));
    }
    forall i | 0 <= i < |f.subforest|
      ensures Transform(Ap(f.subforest[i], x), g) == Ap(Transform(f.subforest[i], post), x)
    {
      TransformAp(f.subforest[i], x, g, post);
    }
    assert Transform(Ap(f, x), g).subforest == Ap(Transform(f, post), x).subforest;
  }

  /** Composition: applying composed functions is applying twice. */
  lemma {:induction false} ApComposition<X, Y, Z>(u: Node<Y -> Z>, v: Node<X -> Y>, w: Node<X>,
                                                  compose: (Y -> Z) -> (X -> Y) -> X -> Z)
    requires forall g, f, x :: compose(g)(f)(x) == g(f(x))
    ensures Ap(Ap(Transform(u, compose), v), w) == Ap(u, Ap(v, w))
    decreases u
  {
    var lhs, rhs := Ap(Ap(Transform(u, compose), v), w), Ap(u, Ap(v, w));
    var g := u.value;
    forall i | 0 <= i < |w.subforest|
      ensures Transform(w.subforest[i], compose(g)(v.value)) == Transform(Transform(w.subforest[i], v.value), g)
    {
      TransformCompose(w.subforest[i], v.value, g, compose(g)(v.value));
    }
    forall i | 0 <= i < |v.subforest|
      ensures Ap(Transform(v.subforest[i], compose(g)), w) == Transform(Ap(v.subforest[i], w), g)
    {
      TransformAp(v.subforest[i], w, g, compose(g));
    }
    forall i | 0 <= i < |u.subforest|
      ensures Ap(Ap(Transform(u.subforest[i], compose), v), w) == Ap(u.subforest[i], Ap(v, w))
    {
      ApComposition(u.subforest[i], v, w, compose);
    }
    assert lhs.subforest == rhs.subforest;
  }

  // The law with the composition written out.
  lemma ApCompositionLaw<X, Y, Z>(u: Node<Y -> Z>, v: Node<X -> Y>, w: Node<X>)
    ensures Ap(Ap(Transform(u, (g: Y -> Z) => (f: X -> Y) => (x: X) => g(f(x))), v), w) == Ap(u, Ap(v, w))
  {
    ApComposition(u, v, w, (g: Y -> Z) => (f: X -> Y) => (x: X) => g(f(x)));
  }

  // ---------- Fold ----------

  function Preorder<X>(t: Node<X>): seq<X>
    decreases t, 0
  {
    [t.value] + PreorderForest(t.subforest)
  }

  function PreorderForest<X>(ts: seq<Node<X>>): seq<X>
    decreases ts, 1
  {
    if ts == [] then [] else Preorder(ts[0]) + PreorderForest(ts[1..])
  }

  function FoldSeq<X, S>(xs: seq<X>, state: S, f: (S, X) -> S): S {
    if xs == [] then state else FoldSeq(xs[1..], f(state, xs[0]), f)
  }

  lemma {:induction false} FoldSeqConcat<X, S>(a: seq<X>, b: seq<X>, state: S, f: (S, X) -> S)
    ensures FoldSeq(a + b, state, f) == FoldSeq(b, FoldSeq(a, state, f), f)
    decreases |a|
  {
    if a == [] {
      assert a + b == b;
    } else {
      assert (a + b)[1..] == a[1..] + b;
      FoldSeqConcat(a[1..], b, f(state, a[0]), f);
    }
  }

  /** The fold visits the nodes in preorder. */
  lemma {:induction false} FoldIsPreorder<X, S>(t: Node<X>, state: S, f: (S, X) -> S)
    ensures FoldLeft(t, state, f) == FoldSeq(Preorder(t), state, f)
    decreases t, 0
  {
    FoldForestIsPreorder(t.subforest, f(state, t.value), f);
    FoldSeqConcat([t.value], PreorderForest(t.subforest), state, f);
    assert FoldSeq([t.value], state, f) == f(state, t.value);
  }

  lemma {:induction false} FoldForestIsPreorder<X, S>(ts: seq<Node<X>>, state: S, f: (S, X) -> S)
    ensures FoldForest(ts, state, f) == FoldSeq(PreorderForest(ts), state, f)
    decreases ts, 1
  {
    if ts != [] {
      FoldIsPreorder(ts[0], state, f);
      FoldForestIsPreorder(ts[1..], FoldLeft(ts[0], state, f), f);
      FoldSeqConcat(Preorder(ts[0]), PreorderForest(ts[1..]), state, f);
    }
  }

  // Mapping the tree maps its preorder listing.
  lemma {:induction false} PreorderTransform<X, Y>(t: Node<X>, f: X -> Y)
    ensures Preorder(Transform(t, f)) == MapSeq(Preorder(t), f)
    decreases t, 0
  {
    PreorderTransformForest(t.subforest, Transform(t, f).subforest, f);
    MapSeqConcat([t.value], PreorderForest(t.subforest), f);
    assert MapSeq([t.value], f) == [f(t.value)];
  }

  lemma {:induction false} PreorderTransformForest<X, Y>(ts: seq<Node<X>>, us: seq<Node<Y>>, f: X -> Y)
    requires |us| == |ts| && forall i | 0 <= i < |ts| :: us[i] == Transform(ts[i], f)
    ensures PreorderForest(us) == MapSeq(PreorderForest(ts), f)
    decreases ts, 1
  {
    if ts != [] {
      PreorderTransform(ts[0], f);
      PreorderTransformForest(ts[1..], us[1..], f);
      MapSeqConcat(Preorder(ts[0]), PreorderForest(ts[1..]), f);
    }
  }

  lemma {:induction false} FoldSeqMap<X, Y, S>(xs: seq<X>, state: S, g: X -> Y, f: (S, Y) -> S)
    ensures FoldSeq(MapSeq(xs, g), state, f) == FoldSeq(xs, state, (s, x) => f(s, g(x)))
    decreases |xs|
  {
    if xs != [] {
      assert MapSeq(xs, g)[1..] == MapSeq(xs[1..], g);
      FoldSeqMap(xs[1..], f(state, g(xs[0])), g, f);
    }
  }

  /** Folding a mapped tree is folding the tree with the mapped step. */
  lemma FoldTransform<X, Y, S>(t: Node<X>, state: S, g: X -> Y, f: (S, Y) -> S)
    ensures FoldLeft(Transform(t, g), state, f) == FoldLeft(t, state, (s, x) => f(s, g(x)))
  {
    FoldIsPreorder(Transform(t, g), state, f);
    PreorderTransform(t, g);
    FoldSeqMap(Preorder(t), state, g, f);
    FoldIsPreorder(t, state, (s, x) => f(s, g(x)));
  }

  lemma {:induction false} PreorderForestConcat<X>(a: seq<Node<X>>, b: seq<Node<X>>)
    ensures PreorderForest(a + b) == PreorderForest(a) + PreorderForest(b)
    decreases |a|
  {
    if a == [] {
      assert a + b == b;
    } else {
      assert (a + b)[1..] == a[1..] + b;
      PreorderForestConcat(a[1..], b);
    }
  }

  /** Flattening a tree of trees loses and reorders nothing: its listing is the listings of the
      inner trees, concatenated in the outer preorder. */
  lemma {:induction false} PreorderFlatten<X>(t: Node<Node<X>>)
    ensures Preorder(Flatten(t)) == Concat(MapSeq(Preorder(t), n => Preorder(n)))
    decreases t, 0
  {
    var list := (n: Node<X>) => Preorder(n);
    var flat := seq(|t.subforest|, i requires 0 <= i < |t.subforest| => Flatten(t.subforest[i]));
    PreorderForestConcat(t.value.subforest, flat);
    PreorderFlattenForest(t.subforest, flat);
    MapJoinFront(t.value, PreorderForest(t.subforest), list);
  }

  lemma {:induction false} PreorderFlattenForest<X>(ts: seq<Node<Node<X>>>, us: seq<Node<X>>)
    requires |us| == |ts| && forall i | 0 <= i < |ts| :: us[i] == Flatten(ts[i])
    ensures PreorderForest(us) == Concat(MapSeq(PreorderForest(ts), n => Preorder(n)))
    decreases ts, 1
  {
    var list := (n: Node<X>) => Preorder(n);
    if ts != [] {
      PreorderFlatten(ts[0]);
      PreorderFlattenForest(ts[1..], us[1..]);
      MapSeqConcat(Preorder(ts[0]), PreorderForest(ts[1..]), list);
      ConcatAppend(MapSeq(Preorder(ts[0]), list), MapSeq(PreorderForest(ts[1..]), list));
    }
  }

  // The fold over a flattened tree runs the inner folds one after the other.
  lemma FoldFlatten<X, S>(t: Node<Node<X>>, state: S, f: (S, X) -> S)
    ensures FoldLeft(Flatten(t), state, f) == FoldLeft(t, state, (s, n) => FoldLeft(n, s, f))
  {
    var step := (s: S, n: Node<X>) => FoldLeft(n, s, f);
    FoldIsPreorder(Flatten(t), state, f);
    PreorderFlatten(t);
    FoldIsPreorder(t, state, step);
    FoldConcat(Preorder(t), state, f);
  }

  lemma {:induction false} FoldConcat<X, S>(ns: seq<Node<X>>, state: S, f: (S, X) -> S)
    ensures FoldSeq(Concat(MapSeq(ns, n => Preorder(n))), state, f) == FoldSeq(ns, state, (s, n) => FoldLeft(n, s, f))
    decreases |ns|
  {
    var list := (n: Node<X>) => Preorder(n);
    var step := (s: S, n: Node<X>) => FoldLeft(n, s, f);
    if ns != [] {
      FoldIsPreorder(ns[0], state, f);
      FoldSeqConcat(Preorder(ns[0]), Concat(MapSeq(ns[1..], list)), state, f);
      assert MapSeq(ns, list)[1..] == MapSeq(ns[1..], list);
      FoldConcat(ns[1..], step(state, ns[0]), f);
    }
  }

  /** Applying a tree of functions lists, function by function in preorder, the mapped listing of
      the arguments. */
  lemma PreorderAp<X, Y>(f: Node<X -> Y>, x: Node<X>)
    ensures Preorder(Ap(f, x)) == Concat(MapSeq(Preorder(f), g => MapSeq(Preorder(x), g)))
  {
    var apply := (g: X -> Y) => Transform(x, g);
    var list := (n: Node<Y>) => Preorder(n);
    var row := (g: X -> Y) => MapSeq(Preorder(x), g);
    ApIsMonadic(f, x);
    PreorderFlatten(Transform(f, apply));
    PreorderTransform(f, apply);
    forall g: X -> Y ensures row(g) == list(apply(g)) { PreorderTransform(x, g); }
    MapSeqCompose(Preorder(f), apply, list, row);
  }

  // ---------- Shape ----------

  datatype Placed<+X> = Placed(value: X, depth: nat)

  // The preorder listing with the depth of every node, the root at depth d.
  ghost function Outline<X>(t: Node<X>, d: nat): seq<Placed<X>>
    decreases t, 0
  {
    [Placed(t.value, d)] + OutlineForest(t.subforest, d + 1)
  }

  ghost function OutlineForest<X>(ts: seq<Node<X>>, d: nat): seq<Placed<X>>
    decreases ts, 1
  {
    if ts == [] then [] else Outline(ts[0], d) + OutlineForest(ts[1..], d)
  }

  // Without the depths it is the preorder listing that the fold follows.
  lemma {:induction false} OutlineValues<X>(t: Node<X>, d: nat, of: Placed<X> -> X)
    requires forall n :: of(n) == n.value
    ensures MapSeq(Outline(t, d), of) == Preorder(t)
    decreases t, 0
  {
    OutlineForestValues(t.subforest, d + 1, of);
    assert Outline(t, d)[1..] == OutlineForest(t.subforest, d + 1);
  }

  lemma {:induction false} OutlineForestValues<X>(ts: seq<Node<X>>, d: nat, of: Placed<X> -> X)
    requires forall n :: of(n) == n.value
    ensures MapSeq(OutlineForest(ts, d), of) == PreorderForest(ts)
    decreases ts, 1
  {
    if ts != [] {
      OutlineValues(ts[0], d, of);
      OutlineForestValues(ts[1..], d, of);
      MapSeqConcat(Outline(ts[0], d), OutlineForest(ts[1..], d), of);
    }
  }

  // What may follow a forest at depth d in a listing.
  ghost predicate Above<X>(xs: seq<Placed<X>>, d: nat) {
    xs != [] ==> xs[0].depth < d
  }

  lemma ForestListing<X>(ts: seq<Node<X>>, d: nat, a: seq<Placed<X>>)
    requires Above(a, d)
    ensures Above(OutlineForest(ts, d) + a, d + 1)
    ensures if ts == [] then OutlineForest(ts, d) + a == a
            else OutlineForest(ts, d) + a ==
                 [Placed(ts[0].value, d)] + (OutlineForest(ts[0].subforest, d + 1) + (OutlineForest(ts[1..], d) + a))
  {
    if ts == [] { assert OutlineForest(ts, d) + a == a; }
  }

  lemma SameHeadTail<T>(x: T, xs: seq<T>, y: T, ys: seq<T>)
    requires [x] + xs == [y] + ys
    ensures x == y && xs == ys
  {
    assert ([x] + xs)[1..] == xs && ([y] + ys)[1..] == ys;
    assert ([x] + xs)[0] == x && ([y] + ys)[0] == y;
  }

  lemma {:induction false} OutlineForestInjective<X>(ts: seq<Node<X>>, us: seq<Node<X>>, d: nat,
                                                     a: seq<Placed<X>>, b: seq<Placed<X>>)
    requires OutlineForest(ts, d) + a == OutlineForest(us, d) + b && Above(a, d) && Above(b, d)
    ensures ts == us && a == b
    decreases ts
  {
    hide OutlineForest;
    ForestListing(ts, d, a);
    ForestListing(us, d, b);
    if ts != [] && us != [] {
      var t, u, v, w := ts[0], us[0], OutlineForest(ts[1..], d) + a, OutlineForest(us[1..], d) + b;
      ForestListing(ts[1..], d, a);
      ForestListing(us[1..], d, b);
      SameHeadTail(Placed(t.value, d), OutlineForest(t.subforest, d + 1) + v, Placed(u.value, d), OutlineForest(u.subforest, d + 1) + w);
      OutlineForestInjective(t.subforest, u.subforest, d + 1, v, w);
      OutlineForestInjective(ts[1..], us[1..], d, a, b);
      assert ts == [t] + ts[1..] && us == [u] + us[1..];
    }
  }

  /** The listing with depths determines the tree. */
  lemma OutlineInjective<X>(t: Node<X>, u: Node<X>, d: nat)
    requires Outline(t, d) == Outline(u, d)
    ensures t == u
  {
    assert OutlineForest(t.subforest, d + 1) == Outline(t, d)[1..];
    assert OutlineForest(u.subforest, d + 1) == Outline(u, d)[1..];
    OutlineForestInjective(t.subforest, u.subforest, d + 1, [], []);
  }

  // The listing moved down by e levels.
  ghost function Lowered<X>(xs: seq<Placed<X>>, e: nat): seq<Placed<X>> {
    MapSeq(xs, (x: Placed<X>) => Placed(x.value, x.depth + e))
  }

  lemma {:induction false} OutlineLowered<X>(t: Node<X>, d: nat, e: nat)
    ensures Outline(t, d + e) == Lowered(Outline(t, d), e)
    decreases t, 0
  {
    OutlineForestLowered(t.subforest, d + 1, e);
    assert Outline(t, d)[1..] == OutlineForest(t.subforest, d + 1);
  }

  lemma {:induction false} OutlineForestLowered<X>(ts: seq<Node<X>>, d: nat, e: nat)
    ensures OutlineForest(ts, d + e) == Lowered(OutlineForest(ts, d), e)
    decreases ts, 1
  {
    if ts != [] {
      OutlineLowered(ts[0], d, e);
      OutlineForestLowered(ts[1..], d, e);
      MapSeqConcat(Outline(ts[0], d), OutlineForest(ts[1..], d), (x: Placed<X>) => Placed(x.value, x.depth + e));
    }
  }

  lemma {:induction false} OutlineForestConcat<X>(a: seq<Node<X>>, b: seq<Node<X>>, d: nat)
    ensures OutlineForest(a + b, d) == OutlineForest(a, d) + OutlineForest(b, d)
    decreases |a|
  {
    if a == [] {
      assert a + b == b;
    } else {
      assert (a + b)[1..] == a[1..] + b;
      OutlineForestConcat(a[1..], b, d);
    }
  }

  // Mapping changes the values and keeps the depths.
  lemma {:induction false} OutlineTransform<X, Y>(t: Node<X>, f: X -> Y, d: nat, at: Placed<X> -> Placed<Y>)
    requires forall n :: at(n) == Placed(f(n.value), n.depth)
    ensures Outline(Transform(t, f), d) == MapSeq(Outline(t, d), at)
    decreases t, 0
  {
    OutlineTransformForest(t.subforest, Transform(t, f).subforest, f, d + 1, at);
    assert Outline(t, d)[1..] == OutlineForest(t.subforest, d + 1);
  }

  lemma {:induction false} OutlineTransformForest<X, Y>(ts: seq<Node<X>>, us: seq<Node<Y>>, f: X -> Y, d: nat,
                                                        at: Placed<X> -> Placed<Y>)
    requires |us| == |ts| && forall i | 0 <= i < |ts| :: us[i] == Transform(ts[i], f)
    requires forall n :: at(n) == Placed(f(n.value), n.depth)
    ensures OutlineForest(us, d) == MapSeq(OutlineForest(ts, d), at)
    decreases ts, 1
  {
    if ts != [] {
      OutlineTransform(ts[0], f, d, at);
      OutlineTransformForest(ts[1..], us[1..], f, d, at);
      MapSeqConcat(Outline(ts[0], d), OutlineForest(ts[1..], d), at);
    }
  }

  /** The shape of a flattened tree: for each outer node in preorder, the inner tree's listing,
      lowered by the outer node's depth. */
  lemma {:induction false} OutlineFlatten<X>(t: Node<Node<X>>, d: nat)
    ensures Outline(Flatten(t), d) == Concat(MapSeq(Outline(t, d), (n: Placed<Node<X>>) => Lowered(Outline(n.value, 0), n.depth)))
    decreases t, 0
  {
    hide MapSeq, Concat, Lowered;
    var row := (n: Placed<Node<X>>) => Lowered(Outline(n.value, 0), n.depth);
    var flat := seq(|t.subforest|, i requires 0 <= i < |t.subforest| => Flatten(t.subforest[i]));
    OutlineForestConcat(t.value.subforest, flat, d + 1);
    OutlineFlattenForest(t.subforest, flat, d + 1);
    OutlineLowered(t.value, 0, d);
    MapJoinFront(Placed(t.value, d), OutlineForest(t.subforest, d + 1), row);
  }

  lemma {:induction false} OutlineFlattenForest<X>(ts: seq<Node<Node<X>>>, us: seq<Node<X>>, d: nat)
    requires |us| == |ts| && forall i | 0 <= i < |ts| :: us[i] == Flatten(ts[i])
    ensures OutlineForest(us, d) ==
            Concat(MapSeq(OutlineForest(ts, d), (n: Placed<Node<X>>) => Lowered(Outline(n.value, 0), n.depth)))
    decreases ts, 1
  {
    var row := (n: Placed<Node<X>>) => Lowered(Outline(n.value, 0), n.depth);
    if ts != [] {
      OutlineFlatten(ts[0], d);
      OutlineFlattenForest(ts[1..], us[1..], d);
      MapSeqConcat(Outline(ts[0], d), OutlineForest(ts[1..], d), row);
      ConcatAppend(MapSeq(Outline(ts[0], d), row), MapSeq(OutlineForest(ts[1..], d), row));
    }
  }

  // The argument tree's listing under a function at some depth.
  ghost function AppliedRow<X, Y>(x: Node<X>, g: Placed<X -> Y>): seq<Placed<Y>> {
    MapSeq(Outline(x, 0), (v: Placed<X>) => Placed(g.value(v.value), v.depth + g.depth))
  }

  /** The shape of an application: for each function in preorder, at depth d, the argument tree's
      listing with the function applied and the depths raised by d. */
  lemma OutlineAp<X, Y>(f: Node<X -> Y>, x: Node<X>)
    ensures Outline(Ap(f, x), 0) == Concat(MapSeq(Outline(f, 0), (g: Placed<X -> Y>) => AppliedRow(x, g)))
  {
    var apply := (g: X -> Y) => Transform(x, g);
    var at := (g: Placed<X -> Y>) => Placed(apply(g.value), g.depth);
    var row := (n: Placed<Node<Y>>) => Lowered(Outline(n.value, 0), n.depth);
    var whole := (g: Placed<X -> Y>) => AppliedRow(x, g);
    ApIsMonadic(f, x);
    OutlineFlatten(Transform(f, apply), 0);
    OutlineTransform(f, apply, 0, at);
    forall g: Placed<X -> Y> ensures whole(g) == row(at(g)) { AppliedRowMeaning(x, g); }
    MapSeqCompose(Outline(f, 0), at, row, whole);
  }

  lemma AppliedRowMeaning<X, Y>(x: Node<X>, g: Placed<X -> Y>)
    ensures AppliedRow(x, g) == Lowered(Outline(Transform(x, g.value), 0), g.depth)
  {
    var at := (v: Placed<X>) => Placed(g.value(v.value), v.depth);
    OutlineTransform(x, g.value, 0, at);
    MapSeqCompose(Outline(x, 0), at, (v: Placed<Y>) => Placed(v.value, v.depth + g.depth),
                  (v: Placed<X>) => Placed(g.value(v.value), v.depth + g.depth));
  }
}
