/** The monad of searchable sets: a set is nothing but a search for a member satisfying a predicate. */
module InfiniteSets {
  import opened Sequences

  datatype Option<+T> = Nothing | Just(value: T)

  datatype InfiniteSet<!T> = InfiniteSet(find: (T -> bool) -> T)

  // The members are the elements the search can return.
  ghost predicate Member<T(!new)>(s: InfiniteSet<T>, x: T) {
    exists p: T -> bool :: s.find(p) == x
  }

  /** The search law: a member satisfying p is found whenever some member satisfies p. */
  ghost predicate Lawful<T(!new)>(s: InfiniteSet<T>) {
    forall p: T -> bool, x :: Member(s, x) && p(x) ==> p(s.find(p))
  }

  ghost predicate AllLawful<T(!new)>(s: InfiniteSet<InfiniteSet<T>>) {
    forall inner :: Member(s, inner) ==> Lawful(inner)
  }

  // ---------- Operations ----------

  function Singleton<T>(x: T): InfiniteSet<T> {
    InfiniteSet(p => x)
  }

  function Doubleton<T>(x: T, y: T): InfiniteSet<T> {
    InfiniteSet((p: T -> bool) => if p(x) then x else y)
  }

  function AnyOf<T>(s: InfiniteSet<T>, p: T -> bool): bool {
    p(s.find(p))
  }

  function FindIf<T>(s: InfiniteSet<T>, p: T -> bool): Option<T> {
    var x := s.find(p);
    if p(x) then Just(x) else Nothing
  }

  function Compose<A, B>(q: B -> bool, f: A -> B): A -> bool {
    x => q(f(x))
  }

  function Transform<A, B>(s: InfiniteSet<A>, f: A -> B): InfiniteSet<B> {
    InfiniteSet((q: B -> bool) => f(s.find(Compose(q, f))))
  }

  function Flatten<T>(s: InfiniteSet<InfiniteSet<T>>): InfiniteSet<T> {
    InfiniteSet((p: T -> bool) => s.find(inner => AnyOf(inner, p)).find(p))
  }

  function Lift<T>(x: T): InfiniteSet<T> {
    Singleton(x)
  }

  function Union<T>(xs: InfiniteSet<T>, ys: InfiniteSet<T>): InfiniteSet<T> {
    Flatten(Doubleton(xs, ys))
  }

  function Ap<A, B>(fs: InfiniteSet<A -> B>, s: InfiniteSet<A>): InfiniteSet<B> {
    Flatten(Transform(fs, (f: A -> B) => Transform(s, f)))
  }

  // The library's defaults on top of any_of.
  function AllOf<T>(s: InfiniteSet<T>, p: T -> bool): bool {
    !AnyOf(s, x => !p(x))
  }

  predicate Contains<T(==)>(s: InfiniteSet<T>, x: T) {
    AnyOf(s, y => y == x)
  }

  predicate IsSubset<T(==)>(xs: InfiniteSet<T>, ys: InfiniteSet<T>) {
    AllOf(xs, x => Contains(ys, x))
  }

  predicate Equal<T(==)>(xs: InfiniteSet<T>, ys: InfiniteSet<T>) {
    IsSubset(xs, ys) && IsSubset(ys, xs)
  }

  // ---------- Decisions ----------

  lemma Found<T(!new)>(s: InfiniteSet<T>, p: T -> bool)
    ensures Member(s, s.find(p))
  {
  }

  lemma AnyOfExact<T(!new)>(s: InfiniteSet<T>, p: T -> bool)
    requires Lawful(s)
    ensures AnyOf(s, p) <==> exists x :: Member(s, x) && p(x)
  {
    Found(s, p);
  }

  lemma FindIfExact<T(!new)>(s: InfiniteSet<T>, p: T -> bool)
    requires Lawful(s)
    ensures FindIf(s, p).Just? ==> Member(s, FindIf(s, p).value) && p(FindIf(s, p).value)
    ensures FindIf(s, p).Just? <==> exists x :: Member(s, x) && p(x)
  {
    AnyOfExact(s, p);
    Found(s, p);
  }

  lemma ContainsExact<T(!new)>(s: InfiniteSet<T>, x: T)
    requires Lawful(s)
    ensures Contains(s, x) <==> Member(s, x)
  {
    AnyOfExact(s, y => y == x);
  }

  lemma IsSubsetExact<T(!new)>(xs: InfiniteSet<T>, ys: InfiniteSet<T>)
    requires Lawful(xs) && Lawful(ys)
    ensures IsSubset(xs, ys) <==> forall x :: Member(xs, x) ==> Member(ys, x)
  {
    var within := x => Contains(ys, x);
    var missing := x => !within(x);
    AnyOfExact(xs, missing);
    forall x ensures missing(x) <==> !Member(ys, x) { ContainsExact(ys, x); }
    assert IsSubset(xs, ys) == !AnyOf(xs, missing);
  }

  /** On lawful sets `equal` decides having the same members. */
  lemma EqualExact<T(!new)>(xs: InfiniteSet<T>, ys: InfiniteSet<T>)
    requires Lawful(xs) && Lawful(ys)
    ensures Equal(xs, ys) <==> forall x :: Member(xs, x) <==> Member(ys, x)
  {
    IsSubsetExact(xs, ys);
    IsSubsetExact(ys, xs);
  }

  // ---------- The constructors keep the law ----------

  // y is the image of a member.
  ghost predicate InImage<A(!new), B>(s: InfiniteSet<A>, f: A -> B, y: B) {
    exists x :: Member(s, x) && f(x) == y
  }

  // x is a member of a member.
  ghost predicate InMember<T(!new)>(s: InfiniteSet<InfiniteSet<T>>, x: T) {
    exists inner :: Member(s, inner) && Member(inner, x)
  }

  // y is some member function's value at some member.
  ghost predicate InApplication<A(!new), B(!new)>(fs: InfiniteSet<A -> B>, s: InfiniteSet<A>, y: B) {
    exists f :: Member(fs, f) && InImage(s, f, y)
  }

  lemma SingletonLawful<T(!new)>(x: T)
    ensures Lawful(Singleton(x))
    ensures forall z :: Member(Singleton(x), z) <==> z == x
  {
    Found(Singleton(x), (z: T) => true);
  }

  lemma DoubletonLawful<T(!new)>(x: T, y: T)
    ensures Lawful(Doubleton(x, y))
    ensures forall z :: Member(Doubleton(x, y), z) <==> z == x || z == y
  {
    Found(Doubleton(x, y), (z: T) => true);
    Found(Doubleton(x, y), (z: T) => false);
  }

  lemma TransformLawful<A(!new), B(!new)>(s: InfiniteSet<A>, f: A -> B)
    requires Lawful(s)
    ensures Lawful(Transform(s, f))
    ensures forall y :: Member(Transform(s, f), y) <==> InImage(s, f, y)
  {
    var t := Transform(s, f);
    forall y | Member(t, y) ensures exists x :: Member(s, x) && f(x) == y {
      var q: B -> bool :| t.find(q) == y;
      var x := s.find(Compose(q, f));
      Found(s, Compose(q, f));
      assert Member(s, x) && f(x) == y;
    }
    forall q: B -> bool, x | Member(s, x) && q(f(x)) ensures q(t.find(q)) {
      var p := Compose(q, f);
      assert p(x);
      assert p(s.find(p));
    }
    forall x | Member(s, x) ensures Member(t, f(x)) {
      var q := (y: B) => y == f(x);
      assert q(f(x));
      assert q(t.find(q));
    }
  }

  lemma FlattenLawful<T(!new)>(s: InfiniteSet<InfiniteSet<T>>)
    requires Lawful(s) && AllLawful(s)
    ensures Lawful(Flatten(s))
    ensures forall x :: Member(Flatten(s), x) <==> InMember(s, x)
  {
    var t := Flatten(s);
    forall p: T -> bool ensures exists inner :: Member(s, inner) && Member(inner, t.find(p)) {
      var inner := s.find(i => AnyOf(i, p));
      Found(s, i => AnyOf(i, p));
      Found(inner, p);
      assert Member(s, inner) && Member(inner, t.find(p));
    }
    forall p: T -> bool, inner, x | Member(s, inner) && Member(inner, x) && p(x) ensures p(t.find(p)) {
      var q := i => AnyOf(i, p);
      assert AnyOf(inner, p);
      assert q(inner);
      assert q(s.find(q));
    }
    forall inner, x | Member(s, inner) && Member(inner, x) ensures Member(t, x) {
      var p := (z: T) => z == x;
      assert p(x);
      assert p(t.find(p));
    }
  }

  lemma UnionLawful<T(!new)>(xs: InfiniteSet<T>, ys: InfiniteSet<T>)
    requires Lawful(xs) && Lawful(ys)
    ensures Lawful(Union(xs, ys))
    ensures forall z :: Member(Union(xs, ys), z) <==> Member(xs, z) || Member(ys, z)
  {
    var pair := Doubleton(xs, ys);
    DoubletonLawful(xs, ys);
    FlattenLawful(pair);
    assert Member(pair, xs) && Member(pair, ys);
  }

  lemma ApLawful<A(!new), B(!new)>(fs: InfiniteSet<A -> B>, s: InfiniteSet<A>)
    requires Lawful(fs) && Lawful(s)
    ensures Lawful(Ap(fs, s))
    ensures forall y :: Member(Ap(fs, s), y) <==> InApplication(fs, s, y)
  {
    var g := (f: A -> B) => Transform(s, f);
    var images := Transform(fs, g);
    TransformLawful(fs, g);
    forall inner | Member(images, inner) ensures Lawful(inner) {
      var f :| Member(fs, f) && g(f) == inner;
      TransformLawful(s, f);
    }
    FlattenLawful(images);
    forall y | Member(Ap(fs, s), y) ensures InApplication(fs, s, y) {
      var inner :| Member(images, inner) && Member(inner, y);
      var f :| Member(fs, f) && g(f) == inner;
      TransformLawful(s, f);
      assert InImage(s, f, y);
    }
    forall f, y | Member(fs, f) && InImage(s, f, y) ensures Member(Ap(fs, s), y) {
      TransformLawful(s, f);
      assert InImage(fs, g, g(f));
      assert Member(images, g(f)) && Member(g(f), y);
    }
  }

  // ---------- Monad laws, up to `equal` ----------

  lemma FlattenLift<T(!new)>(s: InfiniteSet<T>)
    requires Lawful(s)
    ensures Equal(Flatten(Lift(s)), s)
  {
    SingletonLawful(s);
    FlattenLawful(Lift(s));
    assert Member(Lift(s), s);
    EqualExact(Flatten(Lift(s)), s);
  }

  lemma FlattenTransformLift<T(!new)>(s: InfiniteSet<T>)
    requires Lawful(s)
    ensures Equal(Flatten(Transform(s, x => Lift(x))), s)
  {
    var lift := (x: T) => Lift(x);
    var t := Transform(s, lift);
    TransformLawful(s, lift);
    forall x: T ensures Lawful(lift(x)) && (forall z :: Member(lift(x), z) <==> z == x) { SingletonLawful(x); }
    FlattenLawful(t);
    forall z ensures Member(Flatten(t), z) <==> Member(s, z) {
      if Member(s, z) { assert Member(t, lift(z)) && Member(lift(z), z); }
    }
    EqualExact(Flatten(t), s);
  }

  // Member of a member of a member.
  ghost predicate InNested<T(!new)>(s: InfiniteSet<InfiniteSet<InfiniteSet<T>>>, x: T) {
    exists mid, i :: Member(s, mid) && Member(mid, i) && Member(i, x)
  }

  lemma OuterFirst<T(!new)>(s: InfiniteSet<InfiniteSet<InfiniteSet<T>>>)
    requires Lawful(s) && AllLawful(s)
    requires forall mid :: Member(s, mid) ==> AllLawful(mid)
    ensures Lawful(Flatten(Flatten(s))) && forall x :: Member(Flatten(Flatten(s)), x) <==> InNested(s, x)
  {
    FlattenLawful(s);
    FlattenLawful(Flatten(s));
  }

  lemma InnerFirst<T(!new)>(s: InfiniteSet<InfiniteSet<InfiniteSet<T>>>, flat: InfiniteSet<InfiniteSet<T>> -> InfiniteSet<T>)
    requires Lawful(s) && AllLawful(s)
    requires forall mid :: Member(s, mid) ==> AllLawful(mid)
    requires forall mid :: flat(mid) == Flatten(mid)
    ensures Lawful(Flatten(Transform(s, flat))) && forall x :: Member(Flatten(Transform(s, flat)), x) <==> InNested(s, x)
  {
    var inner := Transform(s, flat);
    TransformLawful(s, flat);
    forall mid | Member(s, mid)
      ensures Lawful(flat(mid))
      ensures forall x :: Member(flat(mid), x) <==> InMember(mid, x)
    { FlattenLawful(mid); }
    FlattenLawful(inner);
    forall x ensures Member(Flatten(inner), x) <==> InNested(s, x) {
      if Member(Flatten(inner), x) {
        var f :| Member(inner, f) && Member(f, x);
        var mid :| Member(s, mid) && flat(mid) == f;
        assert InMember(mid, x);
      }
      if InNested(s, x) {
        var mid, i :| Member(s, mid) && Member(mid, i) && Member(i, x);
        assert InMember(mid, x);
        assert Member(inner, flat(mid)) && Member(flat(mid), x);
      }
    }
  }

  /** Flattening is associative: collapsing the outer or the inner level first gives the same set. */
  lemma FlattenAssociative<T(!new)>(s: InfiniteSet<InfiniteSet<InfiniteSet<T>>>)
    requires Lawful(s) && AllLawful(s)
    requires forall mid :: Member(s, mid) ==> AllLawful(mid)
    ensures Lawful(Flatten(Flatten(s))) && Lawful(Flatten(Transform(s, mid => Flatten(mid))))
    ensures Equal(Flatten(Flatten(s)), Flatten(Transform(s, mid => Flatten(mid))))
  {
    var flat := (mid: InfiniteSet<InfiniteSet<T>>) => Flatten(mid);
    OuterFirst(s);
    InnerFirst(s, flat);
    EqualExact(Flatten(Flatten(s)), Flatten(Transform(s, flat)));
  }

  function Chain<A, B>(s: InfiniteSet<A>, f: A -> InfiniteSet<B>): InfiniteSet<B> {
    Flatten(Transform(s, f))
  }

  lemma ChainLawful<A(!new), B(!new)>(s: InfiniteSet<A>, f: A -> InfiniteSet<B>)
    requires Lawful(s) && forall x :: Lawful(f(x))
    ensures Lawful(Chain(s, f))
    ensures forall y :: Member(Chain(s, f), y) <==> exists x :: Member(s, x) && Member(f(x), y)
  {
    var t := Transform(s, f);
    TransformLawful(s, f);
    FlattenLawful(t);
    forall y | Member(Chain(s, f), y) ensures exists x :: Member(s, x) && Member(f(x), y) {
      var inner :| Member(t, inner) && Member(inner, y);
      var x :| Member(s, x) && f(x) == inner;
    }
    forall x, y | Member(s, x) && Member(f(x), y) ensures Member(Chain(s, f), y) {
      assert Member(t, f(x));
    }
  }

  /** Searching in stages: nesting the chains either way gives the same set. */
  lemma ChainAssociative<A(!new), B(!new), C(!new)>(s: InfiniteSet<A>, f: A -> InfiniteSet<B>, g: B -> InfiniteSet<C>)
    requires Lawful(s) && (forall x :: Lawful(f(x))) && (forall y :: Lawful(g(y)))
    ensures Equal(Chain(Chain(s, f), g), Chain(s, x => Chain(f(x), g)))
  {
    var h := x => Chain(f(x), g);
    ChainLawful(s, f);
    ChainLawful(Chain(s, f), g);
    forall x
      ensures Lawful(h(x))
      ensures forall z :: Member(h(x), z) <==> exists y :: Member(f(x), y) && Member(g(y), z)
    { ChainLawful(f(x), g); }
    ChainLawful(s, h);
    EqualExact(Chain(Chain(s, f), g), Chain(s, h));
  }

  // ---------- Which member is found ----------

  function MapOption<A, B>(o: Option<A>, f: A -> B): Option<B> {
    match o
    case Nothing => Nothing
    case Just(x) => Just(f(x))
  }

  lemma SingletonFinds<T>(x: T, p: T -> bool)
    ensures FindIf(Singleton(x), p) == if p(x) then Just(x) else Nothing
  {
  }

  // The first member is preferred.
  lemma DoubletonFinds<T>(x: T, y: T, p: T -> bool)
    ensures FindIf(Doubleton(x, y), p) == if p(x) then Just(x) else if p(y) then Just(y) else Nothing
  {
  }

  /** A union is searched from the left: the right set is consulted only when no member of the left
      one will do. */
  lemma UnionFinds<T(!new)>(xs: InfiniteSet<T>, ys: InfiniteSet<T>, p: T -> bool)
    requires Lawful(xs) && Lawful(ys)
    ensures FindIf(Union(xs, ys), p) == if exists x :: Member(xs, x) && p(x) then FindIf(xs, p) else FindIf(ys, p)
  {
    AnyOfExact(xs, p);
  }

  // A mapped set answers the image of the member that the set itself would find.
  lemma TransformFinds<A, B>(s: InfiniteSet<A>, f: A -> B, q: B -> bool)
    ensures FindIf(Transform(s, f), q) == MapOption(FindIf(s, Compose(q, f)), f)
  {
  }

  // The outer set chooses an inner set that has an answer, and that one chooses the member.
  lemma FlattenFinds<T>(s: InfiniteSet<InfiniteSet<T>>, p: T -> bool)
    ensures FindIf(Flatten(s), p) ==
            match FindIf(s, inner => AnyOf(inner, p))
            case Nothing => Nothing
            case Just(inner) => FindIf(inner, p)
  {
  }

  // The set of functions chooses one whose image has an answer, and the argument set chooses for it.
  lemma ApFinds<A, B>(fs: InfiniteSet<A -> B>, s: InfiniteSet<A>, q: B -> bool)
    ensures var image := (f: A -> B) => Transform(s, f);
            var has := (i: InfiniteSet<B>) => AnyOf(i, q);
            FindIf(Ap(fs, s), q) ==
            match FindIf(fs, Compose(has, image))
            case Nothing => Nothing
            case Just(f) => MapOption(FindIf(s, Compose(q, f)), f)
  {
    var image := (f: A -> B) => Transform(s, f);
    var has := (i: InfiniteSet<B>) => AnyOf(i, q);
    FlattenFinds(Transform(fs, image), q);
    TransformFinds(fs, image, has);
    var chosen := FindIf(fs, Compose(has, image));
    assert FindIf(Transform(fs, image), has) == MapOption(chosen, image);
    assert Ap(fs, s) == Flatten(Transform(fs, image));
    if chosen.Just? {
      assert FindIf(Ap(fs, s), q) == FindIf(image(chosen.value), q);
      TransformFinds(s, chosen.value, q);
    }
  }

  // ---------- Finite sets are lists searched from the front ----------

  // The first element that satisfies p; the last one when none does.
  ghost function FirstIn<T>(xs: seq<T>, p: T -> bool): T
    requires xs != []
  {
    if |xs| == 1 || p(xs[0]) then xs[0] else FirstIn(xs[1..], p)
  }

  lemma {:induction false} FirstInMeaning<T>(xs: seq<T>, p: T -> bool) returns (i: nat)
    requires xs != []
    ensures i < |xs| && FirstIn(xs, p) == xs[i] && (forall j | 0 <= j < i :: !p(xs[j]))
    ensures p(xs[i]) || i == |xs| - 1
    decreases |xs|
  {
    if |xs| == 1 || p(xs[0]) {
      i := 0;
    } else {
      var k := FirstInMeaning(xs[1..], p);
      i := k + 1;
      forall j | 0 <= j < i ensures !p(xs[j]) { if j > 0 { assert xs[j] == xs[1..][j - 1]; } }
    }
  }

  /** The set behaves as the list: every search answers the first element that will do. */
  ghost predicate SearchesList<T(!new)>(s: InfiniteSet<T>, xs: seq<T>) {
    xs != [] && forall p: T -> bool :: s.find(p) == FirstIn(xs, p)
  }

  lemma ListMembers<T(!new)>(s: InfiniteSet<T>, xs: seq<T>)
    requires SearchesList(s, xs)
    ensures Lawful(s) && forall x :: Member(s, x) <==> x in xs
  {
    forall x | Member(s, x) ensures x in xs {
      var p: T -> bool :| s.find(p) == x;
      var i := FirstInMeaning(xs, p);
    }
    forall p: T -> bool, x | x in xs && p(x) ensures p(s.find(p)) {
      var k :| 0 <= k < |xs| && xs[k] == x;
      var i := FirstInMeaning(xs, p);
    }
    forall x | x in xs ensures Member(s, x) {
      var p := (y: T) => y == x;
      assert p(x);
      assert p(s.find(p));
    }
  }

  lemma DoubletonList<T(!new)>(x: T, y: T)
    ensures SearchesList(Singleton(x), [x]) && SearchesList(Doubleton(x, y), [x, y])
  {
    assert [x, y][1..] == [y];
  }

  lemma {:induction false} FirstInMapped<A, B>(xs: seq<A>, f: A -> B, q: B -> bool, p: A -> bool)
    requires xs != [] && forall x :: p(x) == q(f(x))
    ensures MapSeq(xs, f) != [] && FirstIn(MapSeq(xs, f), q) == f(FirstIn(xs, p))
    decreases |xs|
  {
    assert MapSeq(xs, f)[1..] == MapSeq(xs[1..], f);
    if |xs| > 1 {
      FirstInMapped(xs[1..], f, q, p);
    } else {
      assert MapSeq(xs[1..], f) == [];
    }
  }

  // `transform` maps the list.
  lemma TransformList<A(!new), B(!new)>(s: InfiniteSet<A>, xs: seq<A>, f: A -> B)
    requires SearchesList(s, xs)
    ensures SearchesList(Transform(s, f), MapSeq(xs, f))
  {
    assert MapSeq(xs, f) != [];
    forall q: B -> bool ensures Transform(s, f).find(q) == FirstIn(MapSeq(xs, f), q) {
      FirstInMapped(xs, f, q, Compose(q, f));
    }
  }

  // Searching a joined list searches its parts in turn.
  lemma {:induction false} FirstInJoined<T>(a: seq<T>, b: seq<T>, p: T -> bool)
    requires a != [] && b != []
    ensures FirstIn(a + b, p) == if p(FirstIn(a, p)) then FirstIn(a, p) else FirstIn(b, p)
    decreases |a|
  {
    assert (a + b)[1..] == a[1..] + b;
    if |a| == 1 { assert a[1..] + b == b; } else { FirstInJoined(a[1..], b, p); }
  }

  ghost predicate SearchLists<T(!new)>(sets: seq<InfiniteSet<T>>, lists: seq<seq<T>>) {
    |sets| == |lists| && forall i | 0 <= i < |sets| :: SearchesList(sets[i], lists[i])
  }

  lemma {:induction false} FirstInConcat<T(!new)>(sets: seq<InfiniteSet<T>>, lists: seq<seq<T>>, p: T -> bool,
                                            q: InfiniteSet<T> -> bool)
    requires sets != [] && SearchLists(sets, lists) && forall s :: q(s) == AnyOf(s, p)
    ensures Concat(lists) != [] && FirstIn(sets, q).find(p) == FirstIn(Concat(lists), p)
    decreases |sets|
  {
    if |sets| == 1 {
      assert lists[1..] == [] && Concat(lists[1..]) == [];
      assert Concat(lists) == lists[0];
    } else {
      FirstInConcat(sets[1..], lists[1..], p, q);
      FirstInJoined(lists[0], Concat(lists[1..]), p);
    }
  }

  /** `flatten` joins the lists, in the order of the outer list. */
  lemma FlattenList<T(!new)>(s: InfiniteSet<InfiniteSet<T>>, sets: seq<InfiniteSet<T>>, lists: seq<seq<T>>)
    requires SearchesList(s, sets) && SearchLists(sets, lists)
    ensures SearchesList(Flatten(s), Concat(lists))
  {
    FirstInConcat(sets, lists, x => true, inner => AnyOf(inner, x => true));
    forall p: T -> bool ensures Flatten(s).find(p) == FirstIn(Concat(lists), p) {
      FirstInConcat(sets, lists, p, inner => AnyOf(inner, p));
    }
  }

  // `union_` puts the right list behind the left one.
  lemma UnionList<T(!new)>(xs: InfiniteSet<T>, ys: InfiniteSet<T>, a: seq<T>, b: seq<T>)
    requires SearchesList(xs, a) && SearchesList(ys, b)
    ensures SearchesList(Union(xs, ys), a + b)
  {
    DoubletonList(xs, ys);
    FlattenList(Doubleton(xs, ys), [xs, ys], [a, b]);
    assert [a, b][1..] == [b] && [b][1..] == [];
    assert Concat([b]) == b + [] == b;
  }

  /** `ap` lists, function by function, the mapped arguments. */
  lemma ApList<A(!new), B(!new)>(fs: InfiniteSet<A -> B>, s: InfiniteSet<A>, gs: seq<A -> B>, xs: seq<A>)
    requires SearchesList(fs, gs) && SearchesList(s, xs)
    ensures SearchesList(Ap(fs, s), Concat(MapSeq(gs, g => MapSeq(xs, g))))
  {
    var image := (g: A -> B) => Transform(s, g);
    var row := (g: A -> B) => MapSeq(xs, g);
    TransformList(fs, gs, image);
    RowsListed(s, xs, gs, image, row);
    FlattenList(Transform(fs, image), MapSeq(gs, image), MapSeq(gs, row));
  }

  lemma {:induction false} RowsListed<A(!new), B(!new)>(s: InfiniteSet<A>, xs: seq<A>, gs: seq<A -> B>,
                                            image: (A -> B) -> InfiniteSet<B>, row: (A -> B) -> seq<B>)
    requires SearchesList(s, xs)
    requires forall g :: image(g) == Transform(s, g) && row(g) == MapSeq(xs, g)
    ensures SearchLists(MapSeq(gs, image), MapSeq(gs, row))
    decreases |gs|
  {
    if gs != [] {
      TransformList(s, xs, gs[0]);
      RowsListed(s, xs, gs[1..], image, row);
    }
  }

  // A search that ignores its predicate on a two-element set is not lawful, and `any_of` errs.
  lemma UnlawfulSearch()
    ensures var s := InfiniteSet((p: bool -> bool) => p(true) && p(false));
            Member(s, true) && Member(s, false) && !Lawful(s) && !AnyOf(s, b => b)
  {
    var s := InfiniteSet((p: bool -> bool) => p(true) && p(false));
    Found(s, b => true);
    Found(s, b => b);
    var p := (b: bool) => b;
    assert p(true) && !p(s.find(p));
  }
}
