/** A trie seen as a map from root paths to stored priorities; its nodes are the map's keys. */
module PrefixTree {
  import opened Rules

  type Tree = map<Path, nat>

  const EMPTY: Tree := map[[] := 0]

  function Parent(p: Path): Path
    requires p != []
  {
    p[..|p| - 1]
  }

  ghost predicate WellFormed(t: Tree) {
    && [] in t
    && (forall p | p in t :: |p| <= 64)
    && (forall p {:trigger Parent(p)} | p in t && p != [] :: Parent(p) in t)
  }

  lemma {:induction false} PrefixIn(t: Tree, p: Path, l: nat)
    requires WellFormed(t) && p in t && l <= |p|
    ensures p[..l] in t
    decreases |p|
  {
    if l == |p| {
      assert p[..l] == p;
    } else {
      var q := Parent(p);
      PrefixIn(t, q, l);
      assert q[..l] == p[..l];
    }
  }

  // ---------- Growing along a path ----------

  // How many nodes of the path below the root already exist.
  function Depth(t: Tree, p: Path): (d: nat)
    ensures d <= |p|
  {
    if p == [] || p in t then |p| else Depth(t, p[..|p| - 1])
  }

  lemma {:induction false} DepthMeaning(t: Tree, p: Path, l: nat)
    requires WellFormed(t) && l <= |p|
    ensures p[..l] in t <==> l <= Depth(t, p)
    decreases |p|
  {
    assert p[..|p|] == p;
    if p in t {
      PrefixIn(t, p, l);
    } else {
      var q := p[..|p| - 1];
      if l < |p| {
        DepthMeaning(t, q, l);
        assert q[..l] == p[..l];
      }
    }
  }

  lemma {:induction false} EmptyDepth(p: Path)
    ensures Depth(EMPTY, p) == 0
    decreases |p|
  {
    if p != [] { EmptyDepth(p[..|p| - 1]); }
  }

  ghost function PrefixesUpTo(p: Path, l: nat): (s: set<Path>)
    requires l <= |p|
    ensures forall q :: q in s <==> |q| <= l && q <= p
  {
    var s := set k: nat | k <= l :: p[..k];
    assert forall q :: q in s <==> |q| <= l && q <= p by {
      forall q | |q| <= l && q <= p ensures q in s { assert q == p[..|q|]; }
    }
    s
  }

  // The tree with the first l nodes of the path present; new nodes carry no rule.
  ghost function Grow(t: Tree, p: Path, l: nat): Tree
    requires l <= |p|
  {
    map q | q in t.Keys + PrefixesUpTo(p, l) :: if q in t then t[q] else 0
  }

  lemma GrowStep(t: Tree, p: Path, l: nat)
    requires l < |p|
    ensures var g := Grow(t, p, l);
            var q := p[..l + 1];
            Grow(t, p, l + 1) == if q in g then g else g[q := 0]
  {
    var g, h := Grow(t, p, l), Grow(t, p, l + 1);
    var q := p[..l + 1];
    forall x ensures x in PrefixesUpTo(p, l + 1) <==> x in PrefixesUpTo(p, l) || x == q {
      if x <= p && |x| == l + 1 { assert x == q; }
    }
    assert q in g ==> h == g;
    assert q !in g ==> h == g[q := 0];
  }

  lemma GrowNothing(t: Tree, p: Path, l: nat)
    requires WellFormed(t) && l <= Depth(t, p)
    ensures Grow(t, p, l) == t
  {
    forall q | q in PrefixesUpTo(p, l) ensures q in t {
      DepthMeaning(t, p, |q|);
      assert q == p[..|q|];
    }
  }

  lemma GrowWellFormed(t: Tree, p: Path, l: nat)
    requires WellFormed(t) && l <= |p| <= 64
    ensures WellFormed(Grow(t, p, l))
  {
    var g := Grow(t, p, l);
    forall q {:trigger Parent(q)} | q in g && q != [] ensures Parent(q) in g {
      if q !in t { assert Parent(q) in PrefixesUpTo(p, l); }
    }
  }

  lemma GrowOne(t: Tree, p: Path, l: nat)
    requires WellFormed(t) && Depth(t, p) < l <= |p|
    ensures p[..l] !in Grow(t, p, l - 1) && Grow(t, p, l) == Grow(t, p, l - 1)[p[..l] := 0]
  {
    DepthMeaning(t, p, l);
    assert p[..l] !in PrefixesUpTo(p, l - 1);
    GrowStep(t, p, l - 1);
  }

  lemma AddedKeySize(g: Tree, q: Path)
    requires q !in g
    ensures |g[q := 0]| == |g| + 1
  {
    assert g[q := 0].Keys == g.Keys + {q};
  }

  lemma GrowOneSize(t: Tree, p: Path, l: nat)
    requires WellFormed(t) && Depth(t, p) < l <= |p|
    ensures |Grow(t, p, l)| == |Grow(t, p, l - 1)| + 1
  {
    GrowOne(t, p, l);
    AddedKeySize(Grow(t, p, l - 1), p[..l]);
  }

  lemma {:induction false} GrowSize(t: Tree, p: Path, l: nat)
    requires WellFormed(t) && Depth(t, p) <= l <= |p|
    ensures |Grow(t, p, l)| == |t| + (l - Depth(t, p))
    decreases l
  {
    if l == Depth(t, p) {
      GrowNothing(t, p, l);
    } else {
      GrowSize(t, p, l - 1);
      GrowOneSize(t, p, l);
    }
  }

  // ---------- The best rule on a path ----------

  // The better of two priorities: smaller wins, 0 is "none".
  function Better(a: nat, b: nat): nat {
    if a == 0 then b else if b == 0 || a <= b then a else b
  }

  function PriorityAt(t: Tree, p: Path): nat {
    if p in t then t[p] else 0
  }

  // The rules a tree holds.
  ghost function RuleMap(t: Tree): map<Path, nat> {
    map p | p in t && t[p] > 0 :: t[p]
  }

  // The best priority stored at depths 1..l of the path; the root is never consulted.
  function Best(t: Tree, k: Path, l: nat): nat
    requires l <= |k|
  {
    if l == 0 then 0 else Better(Best(t, k, l - 1), PriorityAt(t, k[..l]))
  }

  lemma {:induction false} BestUnchanged(t: Tree, u: Tree, k: Path, l: nat)
    requires l <= |k|
    requires forall m: nat | 1 <= m <= l :: PriorityAt(t, k[..m]) == PriorityAt(u, k[..m])
    ensures Best(t, k, l) == Best(u, k, l)
  {
    if l > 0 { BestUnchanged(t, u, k, l - 1); }
  }

  lemma GrowKeepsPriorities(t: Tree, p: Path, l: nat, q: Path)
    requires l <= |p|
    ensures PriorityAt(Grow(t, p, l), q) == PriorityAt(t, q)
  {
  }

  lemma {:induction false} BestBound(t: Tree, k: Path, l: nat, m: nat)
    requires 1 <= m <= l <= |k| && PriorityAt(t, k[..m]) > 0
    ensures 0 < Best(t, k, l) <= PriorityAt(t, k[..m])
  {
    if m < l { BestBound(t, k, l - 1, m); }
  }

  lemma {:induction false} BestWitness(t: Tree, k: Path, l: nat) returns (m: nat)
    requires l <= |k| && Best(t, k, l) > 0
    ensures 1 <= m <= l && PriorityAt(t, k[..m]) == Best(t, k, l)
  {
    if Best(t, k, l) == PriorityAt(t, k[..l]) {
      m := l;
    } else {
      m := BestWitness(t, k, l - 1);
    }
  }

  // Nothing stored deeper than the existing part of the path is ever reached.
  lemma {:induction false} BestStopsAtDepth(t: Tree, k: Path, l: nat)
    requires WellFormed(t) && Depth(t, k) <= l <= |k|
    ensures Best(t, k, l) == Best(t, k, Depth(t, k))
    decreases l
  {
    if l > Depth(t, k) {
      DepthMeaning(t, k, l);
      BestStopsAtDepth(t, k, l - 1);
    }
  }
}
