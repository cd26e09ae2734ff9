/** The prefix mode of the trie: what `insert_prefix_rule_priority` and `expand_rule` do to the
    stored priorities, the node counter and the table of expanded rules, under any node budget. */
module PriorityTrie {
  import opened Words
  import opened Rules
  import opened Expansion
  import opened PrefixTree

  const MAX_EXPANSION: nat := 15

  datatype State = State(tree: Tree, nodeCount: nat, count: nat, table: seq<Rule>)

  // `failed` is the budget error the source returns as 1.
  datatype Outcome = Outcome(state: State, failed: bool)

  const FRESH: State := State(EMPTY, 1, 0, [])

  // ---------- One prefix rule ----------

  // A strictly better rule already sits on the path.
  ghost predicate Skipped(t: Tree, p: Path, priority: nat) {
    exists l: nat :: 1 <= l <= |p| && 0 < PriorityAt(t, p[..l]) < priority
  }

  ghost function Stored(t: Tree, p: Path, priority: nat): Tree {
    Grow(t, p, |p|)[p := priority]
  }

  function Room(threshold: nat, nodeCount: nat): nat {
    if threshold > nodeCount then threshold - nodeCount else 0
  }

  // Skip, run out of nodes part-way down the path, or store.
  ghost function Offer(s: State, threshold: nat, p: Path, priority: nat): Outcome {
    var need := |p| - Depth(s.tree, p);
    var room := Room(threshold, s.nodeCount);
    if Skipped(s.tree, p, priority) then
      Outcome(s, false)
    else if need > room then
      Outcome(s.(tree := Grow(s.tree, p, Depth(s.tree, p) + room), nodeCount := s.nodeCount + room), true)
    else
      Outcome(s.(tree := Stored(s.tree, p, priority), nodeCount := s.nodeCount + need,
                 count := (s.count + 1) % TWO32), false)
  }

  lemma OfferWellFormed(s: State, threshold: nat, p: Path, priority: nat)
    requires WellFormed(s.tree) && |p| <= 64
    ensures WellFormed(Offer(s, threshold, p, priority).state.tree)
  {
    forall l: nat | l <= |p| ensures WellFormed(Grow(s.tree, p, l)) { GrowWellFormed(s.tree, p, l); }
  }

  /** Node accounting: an offer adds to `nodeCount` exactly the nodes it creates, a skipped one
      creates none, and the budget is never overdrawn. */
  lemma OfferAccounting(s: State, threshold: nat, p: Path, priority: nat)
    requires WellFormed(s.tree)
    ensures var o := Offer(s, threshold, p, priority);
            && o.state.nodeCount - s.nodeCount == |o.state.tree| - |s.tree|
            && (Skipped(s.tree, p, priority) ==> o.state == s)
            && o.state.nodeCount <= (if s.nodeCount <= threshold then threshold else s.nodeCount)
            && (o.failed ==> o.state.nodeCount >= threshold)
  {
    var d := Depth(s.tree, p);
    if !Skipped(s.tree, p, priority) {
      if |p| - d > Room(threshold, s.nodeCount) {
        GrowSize(s.tree, p, d + Room(threshold, s.nodeCount));
      } else {
        StoredSize(s.tree, p, priority);
      }
    }
  }

  lemma StoredSize(t: Tree, p: Path, priority: nat)
    requires WellFormed(t)
    ensures |Stored(t, p, priority)| == |t| + (|p| - Depth(t, p))
  {
    GrowSize(t, p, |p|);
    var g := Grow(t, p, |p|);
    assert p in g by {
      DepthMeaning(t, p, |p|);
      assert p[..|p|] == p;
      if p !in t { assert p in PrefixesUpTo(p, |p|); }
    }
    assert g[p := priority].Keys == g.Keys;
    assert |g[p := priority].Keys| == |g.Keys|;
  }

  // A skipped rule could not have improved any lookup.
  lemma SkippedIsHarmless(t: Tree, p: Path, priority: nat, k: Path)
    requires Skipped(t, p, priority) && p <= k
    ensures Better(Best(t, k, |k|), priority) == Best(t, k, |k|)
  {
    var l: nat :| 1 <= l <= |p| && 0 < PriorityAt(t, p[..l]) < priority;
    assert p[..l] == k[..l];
    BestBound(t, k, |k|, l);
  }

  lemma {:induction false} StoredLookup(t: Tree, p: Path, priority: nat, k: Path, l: nat)
    requires 1 <= |p| && priority > 0 && l <= |k| && !Skipped(t, p, priority)
    ensures Best(Stored(t, p, priority), k, l) ==
            if |p| <= l && p <= k then Better(Best(t, k, l), priority) else Best(t, k, l)
  {
    if l > 0 {
      StoredLookup(t, p, priority, k, l - 1);
      var u := Stored(t, p, priority);
      if k[..l] == p {
        assert p[..|p|] == p;
        assert PriorityAt(t, p) == 0 || PriorityAt(t, p) >= priority;
        assert PriorityAt(u, p) == priority;
      } else {
        assert PriorityAt(u, k[..l]) == PriorityAt(t, k[..l]);
        if p <= k { assert p == k[..|p|]; assert |p| != l; }
      }
    }
  }

  lemma OfferLookup(s: State, threshold: nat, p: Path, priority: nat, k: Path)
    requires 1 <= |p| && priority > 0
    ensures var o := Offer(s, threshold, p, priority);
            Best(o.state.tree, k, |k|) ==
            if !o.failed && p <= k then Better(Best(s.tree, k, |k|), priority) else Best(s.tree, k, |k|)
  {
    var o := Offer(s, threshold, p, priority);
    if Skipped(s.tree, p, priority) {
      if p <= k { SkippedIsHarmless(s.tree, p, priority, k); }
    } else if o.failed {
      BestUnchanged(o.state.tree, s.tree, k, |k|);
    } else {
      StoredLookup(s.tree, p, priority, k, |k|);
    }
  }

  // Some depth of the key's path other than d stores a rule at least as good as m.
  ghost predicate OtherRule(t: Tree, k: Path, d: nat, m: nat) {
    exists l: nat :: 1 <= l <= |k| && l != d && 0 < PriorityAt(t, k[..l]) <= m
  }

  /** Why priorities must be positive: an offer of priority 0 erases the rule stored at its path.
      A key below that path keeps its answer if and only if nothing was stored there or another
      depth of the key's path holds a rule at least as good; all other keys keep theirs. */
  lemma ZeroPriorityLookup(s: State, threshold: nat, p: Path, k: Path)
    requires 1 <= |p| && !Offer(s, threshold, p, 0).failed
    ensures var t, u := s.tree, Offer(s, threshold, p, 0).state.tree;
            Best(u, k, |k|) == Best(t, k, |k|) <==>
              (p <= k ==> PriorityAt(t, p) == 0 || OtherRule(t, k, |p|, PriorityAt(t, p)))
  {
    var t, u := s.tree, Offer(s, threshold, p, 0).state.tree;
    assert u == Stored(t, p, 0);
    forall q ensures PriorityAt(u, q) == if q == p then 0 else PriorityAt(t, q) { }
    assert forall m: nat | m <= |k| :: k[..m] == p <==> p <= k && m == |p|;
    if !(p <= k) || PriorityAt(t, p) == 0 {
      BestUnchanged(u, t, k, |k|);
    } else {
      ErasedLookup(t, u, k, |p|);
    }
  }

  // Erasing the rule at depth d of a path.
  lemma ErasedLookup(t: Tree, u: Tree, k: Path, d: nat)
    requires 1 <= d <= |k| && PriorityAt(t, k[..d]) > 0
    requires forall m: nat | 1 <= m <= |k| :: PriorityAt(u, k[..m]) == if m == d then 0 else PriorityAt(t, k[..m])
    ensures Best(u, k, |k|) == Best(t, k, |k|) <==> OtherRule(t, k, d, PriorityAt(t, k[..d]))
  {
    var e := PriorityAt(t, k[..d]);
    BestBound(t, k, |k|, d);
    var m := BestWitness(t, k, |k|);
    if m != d {
      BestBound(u, k, |k|, m);
    }
    if Best(u, k, |k|) > 0 {
      var n := BestWitness(u, k, |k|);
      BestBound(t, k, |k|, n);
    }
    if OtherRule(t, k, d, e) {
      var l: nat :| 1 <= l <= |k| && l != d && 0 < PriorityAt(t, k[..l]) <= e;
      BestBound(u, k, |k|, l);
    }
  }

  // ---------- How a walk ends ----------

  // No node at depths 1..l of the path carries a strictly better rule.
  ghost predicate Unbeaten(t: Tree, p: Path, priority: nat, l: nat)
    requires l <= |p|
  {
    forall m: nat | 1 <= m <= l :: !(0 < PriorityAt(t, p[..m]) < priority)
  }

  // The node counter of a walk that has reached `level`.
  ghost function Walked(s: State, p: Path, level: nat): nat {
    s.nodeCount + if level <= Depth(s.tree, p) then 0 else level - Depth(s.tree, p)
  }

  lemma SkippedWalk(s: State, threshold: nat, p: Path, priority: nat, level: nat)
    requires WellFormed(s.tree) && 1 <= level <= |p|
    requires 0 < PriorityAt(s.tree, p[..level]) < priority
    ensures Offer(s, threshold, p, priority) == Outcome(s, false)
    ensures Grow(s.tree, p, level) == s.tree && Walked(s, p, level) == s.nodeCount
  {
    DepthMeaning(s.tree, p, level);
    GrowNothing(s.tree, p, level);
  }

  lemma UnbeatenThroughout(t: Tree, p: Path, priority: nat, level: nat)
    requires WellFormed(t) && Depth(t, p) <= level <= |p| && Unbeaten(t, p, priority, level)
    ensures !Skipped(t, p, priority)
  {
    forall m: nat | 1 <= m <= |p| ensures !(0 < PriorityAt(t, p[..m]) < priority) {
      DepthMeaning(t, p, m);
    }
  }

  lemma FailedWalk(s: State, threshold: nat, p: Path, priority: nat, level: nat)
    requires WellFormed(s.tree) && Depth(s.tree, p) <= level < |p| && Unbeaten(s.tree, p, priority, level)
    requires Walked(s, p, level) + 1 > threshold
    requires level > Depth(s.tree, p) ==> Walked(s, p, level) <= threshold
    ensures Offer(s, threshold, p, priority) ==
            Outcome(s.(tree := Grow(s.tree, p, level), nodeCount := Walked(s, p, level)), true)
  {
    hide WellFormed, Unbeaten, Grow, Depth, Skipped, Stored;
    UnbeatenThroughout(s.tree, p, priority, level);
  }

  lemma StoredWalk(s: State, threshold: nat, p: Path, priority: nat)
    requires WellFormed(s.tree) && Unbeaten(s.tree, p, priority, |p|)
    requires |p| > Depth(s.tree, p) ==> Walked(s, p, |p|) <= threshold
    ensures Offer(s, threshold, p, priority) ==
            Outcome(State(Grow(s.tree, p, |p|)[p := priority], Walked(s, p, |p|), (s.count + 1) % TWO32, s.table), false)
  {
    hide WellFormed, Unbeaten, Grow, Depth, Skipped, Offer;
    UnbeatenThroughout(s.tree, p, priority, |p|);
    OfferStores(s, threshold, p, priority);
  }

  lemma OfferStores(s: State, threshold: nat, p: Path, priority: nat)
    requires !Skipped(s.tree, p, priority) && |p| - Depth(s.tree, p) <= Room(threshold, s.nodeCount)
    ensures Offer(s, threshold, p, priority) ==
            Outcome(State(Stored(s.tree, p, priority), s.nodeCount + (|p| - Depth(s.tree, p)),
                          (s.count + 1) % TWO32, s.table), false)
  {
    hide Skipped, Grow, Depth, Stored;
  }

  // While walking, the next node is missing exactly when the walk is past the old depth.
  lemma GrownNode(t: Tree, p: Path, level: nat)
    requires WellFormed(t) && level < |p|
    ensures p[..level + 1] in Grow(t, p, level) <==> level < Depth(t, p)
  {
    DepthMeaning(t, p, level + 1);
    assert p[..level + 1] !in PrefixesUpTo(p, level);
  }

  // Stepping onto a node, created without a rule when it is missing.
  ghost function Stepped(t: State, q: Path): State {
    if q in t.tree then t else t.(tree := t.tree[q := 0], nodeCount := t.nodeCount + 1)
  }

  // What a walk down the path has made of s at `level`.
  ghost predicate Descended(s: State, t: State, p: Path, level: nat) {
    level <= |p| && t == State(Grow(s.tree, p, level), Walked(s, p, level), s.count, s.table)
  }

  // The same for the walk of an offer, which keeps to the budget and has met no better rule.
  ghost predicate Walking(s: State, t: State, threshold: nat, p: Path, priority: nat, level: nat) {
    && Descended(s, t, p, level)
    && (level > Depth(s.tree, p) ==> t.nodeCount <= threshold)
    && Unbeaten(s.tree, p, priority, level)
  }

  lemma DescentStarts(s: State, p: Path)
    requires WellFormed(s.tree)
    ensures p[..0] == [] && Descended(s, s, p, 0)
  {
    GrowNothing(s.tree, p, 0);
  }

  lemma DescentGoesOn(s: State, t: State, p: Path, level: nat)
    requires WellFormed(s.tree) && Descended(s, t, p, level) && level < |p|
    ensures Descended(s, Stepped(t, p[..level + 1]), p, level + 1)
  {
    hide Depth, WellFormed, Grow;
    GrowStep(s.tree, p, level);
    GrownNode(s.tree, p, level);
  }

  lemma WalkStarts(s: State, threshold: nat, p: Path, priority: nat)
    requires WellFormed(s.tree)
    ensures p[..0] == [] && Walking(s, s, threshold, p, priority, 0)
  {
    DescentStarts(s, p);
  }

  // One step of a walk, in terms of the original tree.
  lemma WalkStep(s: State, p: Path, priority: nat, level: nat)
    requires WellFormed(s.tree) && level < |p|
    ensures var g, q := Grow(s.tree, p, level), p[..level + 1];
            && Grow(s.tree, p, level + 1) == (if q in g then g else g[q := 0])
            && (q in g <==> level < Depth(s.tree, p))
            && PriorityAt(s.tree, q) == PriorityAt(g, q)
    ensures Walked(s, p, level + 1) == Walked(s, p, level) + (if level < Depth(s.tree, p) then 0 else 1)
    ensures Unbeaten(s.tree, p, priority, level) && !(0 < PriorityAt(s.tree, p[..level + 1]) < priority) ==>
              Unbeaten(s.tree, p, priority, level + 1)
  {
    hide Depth, WellFormed, Grow, Unbeaten;
    GrowStep(s.tree, p, level);
    GrownNode(s.tree, p, level);
    UnbeatenStep(s.tree, p, priority, level);
    GrowKeepsPriorities(s.tree, p, level, p[..level + 1]);
  }

  lemma UnbeatenStep(t: Tree, p: Path, priority: nat, level: nat)
    requires level < |p|
    ensures Unbeaten(t, p, priority, level) && !(0 < PriorityAt(t, p[..level + 1]) < priority) ==>
              Unbeaten(t, p, priority, level + 1)
  {
  }

  // A walk either lacks the budget for the next node, or steps onto it and then goes on or stops
  // because the rule there is better.
  lemma WalkGoesOn(s: State, t: State, threshold: nat, p: Path, priority: nat, level: nat)
    requires WellFormed(s.tree) && Walking(s, t, threshold, p, priority, level) && level < |p|
    ensures var q, o := p[..level + 1], Offer(s, threshold, p, priority);
            var u := Stepped(t, q);
            if q !in t.tree && t.nodeCount + 1 > threshold then o == Outcome(t, true)
            else if 0 < PriorityAt(u.tree, q) < priority then o == Outcome(u, false)
            else Walking(s, u, threshold, p, priority, level + 1)
  {
    hide Depth, WellFormed, Grow, Unbeaten, Offer, Walked;
    var q := p[..level + 1];
    var u := Stepped(t, q);
    WalkStep(s, p, priority, level);
    if q !in t.tree && t.nodeCount + 1 > threshold {
      FailedWalk(s, threshold, p, priority, level);
    } else if 0 < PriorityAt(u.tree, q) < priority {
      SkippedWalk(s, threshold, p, priority, level + 1);
    }
  }

  lemma WalkStores(s: State, t: State, threshold: nat, p: Path, priority: nat)
    requires WellFormed(s.tree) && Walking(s, t, threshold, p, priority, |p|)
    ensures Offer(s, threshold, p, priority) ==
            Outcome(State(t.tree[p := priority], t.nodeCount, (s.count + 1) % TWO32, s.table), false)
    ensures t.count == s.count && t.table == s.table
  {
    hide Depth, WellFormed, Grow, Unbeaten, Offer, Walked;
    StoredWalk(s, threshold, p, priority);
  }

  // The least of the collected priorities.
  function MinElement(s: seq<nat>): (m: nat)
    requires s != []
    ensures m in s && forall x | x in s :: m <= x
  {
    if |s| == 1 then s[0]
    else
      var n := |s| - 1;
      var m := MinElement(s[..n]);
      assert forall x | x in s :: x in s[..n] || x == s[n];
      if s[n] < m then s[n] else m
  }

  // Pushing a stored priority and taking the minimum is `Better`.
  lemma MinIsBetter(s: seq<nat>, x: nat)
    requires x > 0 && forall y | y in s :: y > 0
    ensures MinElement(s + [x]) == Better(if s == [] then 0 else MinElement(s), x)
  {
    assert (s + [x])[..|s|] == s;
  }

  // ---------- `expand_rule` ----------

  ghost predicate PrefixRules(rs: seq<Rule>) {
    forall r | r in rs :: r.mask != ALL_ONES
  }

  // Offer rules in turn, recording each one that did not hit the budget; stop at the first failure.
  ghost function OfferAll(s: State, threshold: nat, rs: seq<Rule>): Outcome
    requires PrefixRules(rs)
    decreases |rs|
  {
    if rs == [] then Outcome(s, false)
    else
      var r := rs[0];
      var o := Offer(s, threshold, RulePath(r), r.priority);
      if o.failed then o
      else OfferAll(o.state.(table := s.table + [r]), threshold, rs[1..])
  }

  ghost function Expand(s: State, threshold: nat, r: Rule): Outcome {
    if !Fits(r) then Outcome(s, false)
    else OfferAll(s, threshold, ExpandedRules(r))
  }

  lemma OfferNothing(s: State, threshold: nat)
    ensures OfferAll(s, threshold, []) == Outcome(s, false)
  {
  }

  lemma OfferAllStep(s: State, threshold: nat, rs: seq<Rule>, i: nat)
    requires PrefixRules(rs) && i < |rs|
    ensures rs[i] in rs && PrefixRules(rs[i..]) && PrefixRules(rs[i + 1..])
    ensures var o := Offer(s, threshold, RulePath(rs[i]), rs[i].priority);
            && o.state.table == s.table
            && OfferAll(s, threshold, rs[i..]) ==
               if o.failed then o else OfferAll(o.state.(table := s.table + [rs[i]]), threshold, rs[i + 1..])
  {
    assert rs[i..][1..] == rs[i + 1..];
  }

  // The rule does not take the blow-up exit.
  predicate Fits(r: Rule) {
    NewNum(r.mask) <= MAX_EXPANSION
  }

  // The same, read off the mask: it has a clear bit, and at most 15 wildcards above the lowest one.
  ghost predicate Expandable(mask: Word) {
    mask != ALL_ONES && ExpandedWildcards(mask) <= 15
  }

  lemma FitsMeaning(r: Rule)
    ensures Fits(r) <==> Expandable(r.mask)
  {
    if r.mask == ALL_ONES { AllOnesBlowsUp(); } else { NewNumMeaning(r.mask); }
  }

  // A whole run of `expand_rule` calls; `failed` when any of them hit the budget.
  ghost function ExpandAll(threshold: nat, rules: seq<Rule>): Outcome {
    if rules == [] then Outcome(FRESH, false)
    else
      var n := |rules| - 1;
      var before := ExpandAll(threshold, rules[..n]);
      var o := Expand(before.state, threshold, rules[n]);
      Outcome(o.state, before.failed || o.failed)
  }

  // ---------- The exact state invariant ----------

  ghost predicate OnPath(r: Rule, k: Path) {
    r.mask != ALL_ONES && RulePath(r) <= k
  }

  // The best priority among the rules whose path is a prefix of k.
  ghost function TableBest(rs: seq<Rule>, k: Path): nat {
    if rs == [] then 0
    else
      var n := |rs| - 1;
      Better(TableBest(rs[..n], k), if OnPath(rs[n], k) then rs[n].priority else 0)
  }

  ghost predicate Invariant(s: State) {
    && WellFormed(s.tree)
    && s.nodeCount == |s.tree|
    && (forall r | r in s.table :: r.priority > 0)
    && (forall k: Path :: Best(s.tree, k, |k|) == TableBest(s.table, k))
  }

  lemma FreshInvariant()
    ensures Invariant(FRESH)
  {
    forall k: Path ensures Best(EMPTY, k, |k|) == 0 { BestOfEmpty(k, |k|); }
  }

  lemma {:induction false} BestOfEmpty(k: Path, l: nat)
    requires l <= |k|
    ensures Best(EMPTY, k, l) == 0
  {
    if l > 0 { BestOfEmpty(k, l - 1); }
  }

  lemma OfferInvariant(s: State, threshold: nat, r: Rule)
    requires Invariant(s) && r.mask != ALL_ONES && r.priority > 0
    ensures var o := Offer(s, threshold, RulePath(r), r.priority);
            && (o.failed ==> Invariant(o.state))
            && (!o.failed ==> Invariant(o.state.(table := s.table + [r])))
  {
    var p := RulePath(r);
    var o := Offer(s, threshold, p, r.priority);
    OfferWellFormed(s, threshold, p, r.priority);
    OfferAccounting(s, threshold, p, r.priority);
    assert o.state.table == s.table;
    var table := s.table + [r];
    assert table[..|s.table|] == s.table;
    forall k: Path ensures Best(o.state.tree, k, |k|) == TableBest(if o.failed then s.table else table, k) {
      OfferLookup(s, threshold, p, r.priority, k);
      assert Best(s.tree, k, |k|) == TableBest(s.table, k);
    }
  }

  lemma {:induction false} OfferAllInvariant(s: State, threshold: nat, rs: seq<Rule>)
    requires PrefixRules(rs) && Invariant(s) && forall r | r in rs :: r.priority > 0
    ensures Invariant(OfferAll(s, threshold, rs).state)
    decreases |rs|
  {
    if rs != [] {
      var r := rs[0];
      OfferInvariant(s, threshold, r);
      var o := Offer(s, threshold, RulePath(r), r.priority);
      if !o.failed { OfferAllInvariant(o.state.(table := s.table + [r]), threshold, rs[1..]); }
    }
  }

  lemma ExpandInvariant(s: State, threshold: nat, r: Rule)
    requires Invariant(s) && r.priority > 0
    ensures Invariant(Expand(s, threshold, r).state)
  {
    if Fits(r) {
      OfferAllInvariant(s, threshold, ExpandedRules(r));
    }
  }

  ghost predicate Positive(rules: seq<Rule>) {
    forall r | r in rules :: r.priority > 0
  }

  lemma {:induction false} RunInvariant(threshold: nat, rules: seq<Rule>)
    requires Positive(rules)
    ensures Invariant(ExpandAll(threshold, rules).state)
    decreases |rules|
  {
    if rules == [] {
      FreshInvariant();
    } else {
      var n := |rules| - 1;
      RunInvariant(threshold, rules[..n]);
      ExpandInvariant(ExpandAll(threshold, rules[..n]).state, threshold, rules[n]);
    }
  }

  // ---------- The budget ----------

  ghost predicate Counted(s: State) {
    WellFormed(s.tree) && s.nodeCount == |s.tree|
  }

  lemma OfferCounted(s: State, threshold: nat, p: Path, priority: nat)
    requires Counted(s) && |p| <= 64
    ensures Counted(Offer(s, threshold, p, priority).state)
    ensures Offer(s, threshold, p, priority).state.nodeCount >= s.nodeCount
  {
    OfferAccounting(s, threshold, p, priority);
    OfferWellFormed(s, threshold, p, priority);
  }

  lemma {:induction false} OfferAllCounted(s: State, threshold: nat, rs: seq<Rule>)
    requires PrefixRules(rs) && Counted(s)
    ensures Counted(OfferAll(s, threshold, rs).state)
    ensures OfferAll(s, threshold, rs).state.nodeCount >= s.nodeCount
    decreases |rs|
  {
    if rs != [] {
      var r := rs[0];
      OfferCounted(s, threshold, RulePath(r), r.priority);
      var o := Offer(s, threshold, RulePath(r), r.priority);
      if !o.failed { OfferAllCounted(o.state.(table := s.table + [r]), threshold, rs[1..]); }
    }
  }

  // Whatever the priorities, every run keeps the trie well formed and its nodes counted.
  lemma {:induction false} RunCounted(threshold: nat, rules: seq<Rule>)
    ensures Counted(ExpandAll(threshold, rules).state)
    decreases |rules|
  {
    if rules != [] {
      var n := |rules| - 1;
      RunCounted(threshold, rules[..n]);
      if Fits(rules[n]) {
        OfferAllCounted(ExpandAll(threshold, rules[..n]).state, threshold, ExpandedRules(rules[n]));
      }
    }
  }

  lemma {:induction false} OfferAllBudget(s: State, threshold: nat, rs: seq<Rule>)
    requires PrefixRules(rs) && WellFormed(s.tree)
    ensures OfferAll(s, threshold, rs).state.nodeCount <= if s.nodeCount <= threshold then threshold else s.nodeCount
    decreases |rs|
  {
    if rs != [] {
      var r := rs[0];
      var p := RulePath(r);
      OfferAccounting(s, threshold, p, r.priority);
      OfferWellFormed(s, threshold, p, r.priority);
      var o := Offer(s, threshold, p, r.priority);
      if !o.failed { OfferAllBudget(o.state.(table := s.table + [r]), threshold, rs[1..]); }
    }
  }

  lemma {:induction false} RunBudget(threshold: nat, rules: seq<Rule>)
    ensures ExpandAll(threshold, rules).state.nodeCount <= if threshold < 1 then 1 else threshold
    decreases |rules|
  {
    if rules != [] {
      var n := |rules| - 1;
      RunBudget(threshold, rules[..n]);
      RunCounted(threshold, rules[..n]);
      var s := ExpandAll(threshold, rules[..n]).state;
      if Fits(rules[n]) { OfferAllBudget(s, threshold, ExpandedRules(rules[n])); }
    }
  }

  // With the budget at most one node, as the source leaves it, no rule is ever found.
  lemma NoBudgetNoRules(threshold: nat, rules: seq<Rule>, k: Path)
    requires threshold <= 1 && |k| == 64
    ensures ExpandAll(threshold, rules).state.tree.Keys == {[]}
    ensures Best(ExpandAll(threshold, rules).state.tree, k, 64) == 0
  {
    RunBudget(threshold, rules);
    RunCounted(threshold, rules);
    var t := ExpandAll(threshold, rules).state.tree;
    assert |t.Keys| == |t| <= 1;
    assert [] in t.Keys;
    SingletonSet(t.Keys, []);
    BestUnchanged(t, EMPTY, k, 64);
    BestOfEmpty(k, 64);
  }

  lemma SingletonSet(s: set<Path>, x: Path)
    requires x in s && |s| <= 1
    ensures s == {x}
  {
    assert |s - {x}| == |s| - 1;
    assert s == (s - {x}) + {x};
  }

  // ---------- Meaning of a lookup ----------

  // Some agreeing rule has priority m.
  ghost predicate Answers(rs: seq<Rule>, key: Word, m: nat) {
    exists r | r in rs :: Agrees(r, key) && r.priority == m
  }

  /** `m` is what a priority search over `rs` must answer: the smallest priority of an agreeing
      rule, 0 when none agrees. */
  ghost predicate IsBestPriority(rs: seq<Rule>, key: Word, m: nat) {
    && (m == 0 <==> forall r | r in rs :: !Agrees(r, key))
    && (m > 0 ==> Answers(rs, key, m))
    && (forall r | r in rs && Agrees(r, key) :: m <= r.priority)
  }

  lemma BestPriorityUnique(rs: seq<Rule>, key: Word, m: nat, n: nat)
    requires IsBestPriority(rs, key, m) && IsBestPriority(rs, key, n)
    ensures m == n
  {
  }

  ghost predicate SuffixMask(r: Rule) {
    exists b: nat :: b < 64 && r.mask == Pow2(b) - 1
  }

  // Every rule kept in the table has a mask of trailing ones.
  ghost predicate SuffixMasks(rs: seq<Rule>) {
    forall r | r in rs :: SuffixMask(r)
  }

  lemma {:induction false} TableBestMeaning(rs: seq<Rule>, key: Word)
    requires SuffixMasks(rs) && Positive(rs)
    ensures IsBestPriority(rs, key, TableBest(rs, KeyPath(key)))
    decreases |rs|
  {
    if rs != [] {
      var n := |rs| - 1;
      var front, last := rs[..n], rs[n];
      assert forall r | r in rs :: r in front || r == last;
      assert forall r | r in front :: r in rs;
      assert last in rs;
      TableBestMeaning(front, key);
      assert SuffixMask(last);
      var b: nat :| b < 64 && last.mask == Pow2(b) - 1;
      PathPrefixMeansAgrees(last, b, key);
    }
  }

  lemma ExpandedSuffixMasks(r: Rule)
    ensures SuffixMasks(ExpandedRules(r))
  {
    FirstClearMeaning(r.mask, 0);
    forall e | e in ExpandedRules(r) ensures SuffixMask(e) {
      assert Boundary(r.mask) < 64 && e.mask == Pow2(Boundary(r.mask)) - 1;
    }
  }

  lemma ShiftPrefix(table: seq<Rule>, rs: seq<Rule>, m: nat)
    requires m < |rs|
    ensures (table + [rs[0]]) + rs[1..][..m] == table + rs[..m + 1]
  {
  }

  // The rules recorded by one expansion are the first n offered, all of them without a failure.
  lemma {:induction false} OfferAllTable(s: State, threshold: nat, rs: seq<Rule>) returns (n: nat)
    requires PrefixRules(rs)
    ensures var o := OfferAll(s, threshold, rs);
            && n <= |rs|
            && o.state.table == s.table + rs[..n]
            && (o.failed <==> n < |rs|)
    decreases |rs|
  {
    if rs == [] {
      n := 0;
    } else {
      var r := rs[0];
      var o := Offer(s, threshold, RulePath(r), r.priority);
      if o.failed {
        n := 0;
      } else {
        var m := OfferAllTable(o.state.(table := s.table + [r]), threshold, rs[1..]);
        n := m + 1;
        ShiftPrefix(s.table, rs, m);
      }
    }
  }

  lemma {:induction false} OfferAllSuffixMasks(s: State, threshold: nat, rs: seq<Rule>)
    requires PrefixRules(rs) && SuffixMasks(s.table) && SuffixMasks(rs)
    ensures SuffixMasks(OfferAll(s, threshold, rs).state.table)
    decreases |rs|
  {
    if rs != [] {
      var r := rs[0];
      var o := Offer(s, threshold, RulePath(r), r.priority);
      if !o.failed { OfferAllSuffixMasks(o.state.(table := s.table + [r]), threshold, rs[1..]); }
    }
  }

  lemma {:induction false} RunSuffixMasks(threshold: nat, rules: seq<Rule>)
    ensures SuffixMasks(ExpandAll(threshold, rules).state.table)
    decreases |rules|
  {
    if rules != [] {
      var n := |rules| - 1;
      RunSuffixMasks(threshold, rules[..n]);
      if Fits(rules[n]) {
        ExpandedSuffixMasks(rules[n]);
        OfferAllSuffixMasks(ExpandAll(threshold, rules[..n]).state, threshold, ExpandedRules(rules[n]));
      }
    }
  }

  /** In every state `expand_rule` can reach, under any budget and with any mix of blown-up,
      half-expanded and complete rules, a lookup answers the best priority among the recorded
      expanded rules that agree with the key, and the counter is the number of nodes, within
      the budget. */
  lemma LookupMatchesRecordedRules(threshold: nat, rules: seq<Rule>, key: Word)
    requires Positive(rules)
    ensures var s := ExpandAll(threshold, rules).state;
            && IsBestPriority(s.table, key, Best(s.tree, KeyPath(key), 64))
            && s.nodeCount == |s.tree|
            && s.nodeCount <= if threshold < 1 then 1 else threshold
  {
    var s := ExpandAll(threshold, rules).state;
    RunInvariant(threshold, rules);
    RunSuffixMasks(threshold, rules);
    RunBudget(threshold, rules);
    TableBestMeaning(s.table, key);
    var k := KeyPath(key);
    assert Best(s.tree, k, |k|) == TableBest(s.table, k);
  }

  // ---------- Complete runs ----------

  ghost function OfferedFor(r: Rule): seq<Rule> {
    if Fits(r) then ExpandedRules(r) else []
  }

  ghost function FittingPart(r: Rule): seq<Rule> {
    if Expandable(r.mask) then [r] else []
  }

  // All the prefix rules a run offers; blown-up rules contribute none.
  ghost function AllExpanded(rules: seq<Rule>): seq<Rule> {
    if rules == [] then []
    else
      var n := |rules| - 1;
      AllExpanded(rules[..n]) + OfferedFor(rules[n])
  }

  // The rules that do not blow up.
  ghost function Fitting(rules: seq<Rule>): seq<Rule> {
    if rules == [] then []
    else
      var n := |rules| - 1;
      Fitting(rules[..n]) + FittingPart(rules[n])
  }

  lemma {:induction false} CompleteRunTable(threshold: nat, rules: seq<Rule>)
    requires !ExpandAll(threshold, rules).failed
    ensures ExpandAll(threshold, rules).state.table == AllExpanded(rules)
    decreases |rules|
  {
    if rules != [] {
      var n := |rules| - 1;
      CompleteRunTable(threshold, rules[..n]);
      if Fits(rules[n]) {
        var es := ExpandedRules(rules[n]);
        var m := OfferAllTable(ExpandAll(threshold, rules[..n]).state, threshold, es);
        assert es[..m] == es;
      }
    }
  }

  // What a single rule leaves in the table of expanded rules.
  lemma SingleRuleRun(threshold: nat, r: Rule) returns (n: nat)
    ensures var o := ExpandAll(threshold, [r]);
            && n <= |OfferedFor(r)| && o.state.table == OfferedFor(r)[..n]
            && (o.failed <==> n < |OfferedFor(r)|)
  {
    assert [r][..0] == [];
    n := 0;
    if Fits(r) { n := OfferAllTable(FRESH, threshold, ExpandedRules(r)); }
  }

  ghost predicate AllSafe(rules: seq<Rule>) {
    forall r | r in rules :: ExpansionSafe(r)
  }

  // The rule is expanded, and its expansion reaches the key.
  ghost predicate Reaches(r: Rule, key: Word) {
    Expandable(r.mask) && Covers(r, key)
  }

  // Some rule that reaches the key has priority m.
  ghost predicate ReachedWith(rules: seq<Rule>, key: Word, m: nat) {
    exists r | r in rules :: Reaches(r, key) && r.priority == m
  }

  lemma OneExpansionAnswers(r: Rule, key: Word, m: nat)
    ensures Answers(OfferedFor(r), key, m) <==> Reaches(r, key) && r.priority == m
  {
    FitsMeaning(r);
    if !Fits(r) { return; }
    hide Agrees, Covers, ExpandedWildcards;
    var es := ExpandedRules(r);
    if Reaches(r, key) && r.priority == m {
      var i := ExpansionComplete(r, key);
      assert es[i] in es;
    }
    if Answers(es, key, m) {
      var e :| e in es && Agrees(e, key) && e.priority == m;
      var i :| 0 <= i < |es| && es[i] == e;
      ExpansionSound(r, i, key);
    }
  }

  lemma AnswersConcat(a: seq<Rule>, b: seq<Rule>, key: Word, m: nat)
    ensures Answers(a + b, key, m) <==> Answers(a, key, m) || Answers(b, key, m)
  {
    forall r ensures r in a + b <==> r in a || r in b { }
  }

  // The expanded rules offer a key exactly the priorities of the rules that reach it.
  lemma {:induction false} ExpandedAnswers(rules: seq<Rule>, key: Word, m: nat)
    ensures Answers(AllExpanded(rules), key, m) <==> ReachedWith(rules, key, m)
    decreases |rules|
  {
    if rules != [] {
      hide Reaches, Answers, OfferedFor;
      var n := |rules| - 1;
      ExpandedAnswers(rules[..n], key, m);
      OneExpansionAnswers(rules[n], key, m);
      AnswersConcat(AllExpanded(rules[..n]), OfferedFor(rules[n]), key, m);
      assert forall r :: r in rules <==> r in rules[..n] || r == rules[n];
    } else {
      assert AllExpanded(rules) == [];
    }
  }

  // Only offered rules are ever recorded.
  lemma {:induction false} RecordedWereOffered(threshold: nat, rules: seq<Rule>)
    ensures forall e | e in ExpandAll(threshold, rules).state.table :: e in AllExpanded(rules)
    decreases |rules|
  {
    if rules != [] {
      var n := |rules| - 1;
      RecordedWereOffered(threshold, rules[..n]);
      if Fits(rules[n]) {
        var es := ExpandedRules(rules[n]);
        var m := OfferAllTable(ExpandAll(threshold, rules[..n]).state, threshold, es);
        assert forall e | e in es[..m] :: e in es;
      }
    }
  }

  lemma {:induction false} FittingElements(rules: seq<Rule>)
    ensures forall r :: r in Fitting(rules) <==> r in rules && Expandable(r.mask)
    decreases |rules|
  {
    if rules != [] {
      var n := |rules| - 1;
      FittingElements(rules[..n]);
      assert forall r :: r in rules <==> r in rules[..n] || r == rules[n];
    }
  }

  lemma FittingAnswers(rules: seq<Rule>, key: Word, m: nat)
    requires AllSafe(rules)
    ensures Answers(Fitting(rules), key, m) <==> ReachedWith(rules, key, m)
  {
    FittingElements(rules);
    forall r | r in rules ensures Reaches(r, key) <==> Expandable(r.mask) && Agrees(r, key) { SafeCovers(r, key); }
  }

  /** Under any budget, with rules blown up, half expanded or carrying stray value bits, a hit is
      never invented: it is the priority of some agreeing rule, and so never better than the best
      agreeing one. */
  lemma HitsAreReal(threshold: nat, rules: seq<Rule>, key: Word, best: nat)
    requires Positive(rules) && IsBestPriority(rules, key, best)
    ensures var m := Best(ExpandAll(threshold, rules).state.tree, KeyPath(key), 64);
            m > 0 ==> Answers(rules, key, m) && 0 < best <= m
  {
    var s := ExpandAll(threshold, rules).state;
    var m := Best(s.tree, KeyPath(key), 64);
    LookupMatchesRecordedRules(threshold, rules, key);
    if m > 0 {
      RecordedAnswers(threshold, rules, key, m);
      var r :| r in rules && Agrees(r, key) && r.priority == m;
    }
  }

  // What a recorded rule offers a key, some agreeing original rule offers too.
  lemma RecordedAnswers(threshold: nat, rules: seq<Rule>, key: Word, m: nat)
    requires Answers(ExpandAll(threshold, rules).state.table, key, m)
    ensures ReachedWith(rules, key, m) && Answers(rules, key, m)
  {
    var e :| e in ExpandAll(threshold, rules).state.table && Agrees(e, key) && e.priority == m;
    RecordedWereOffered(threshold, rules);
    assert Answers(AllExpanded(rules), key, m);
    ExpandedAnswers(rules, key, m);
  }

  // What a lookup must answer when the rules that reach a key decide it.
  ghost predicate IsBestReaching(rules: seq<Rule>, key: Word, m: nat) {
    && (m == 0 <==> forall r | r in rules :: !Reaches(r, key))
    && (m > 0 ==> ReachedWith(rules, key, m))
    && (forall r | r in rules && Reaches(r, key) :: m <= r.priority)
  }

  /** A run that never hits the budget answers, for every key and every order of arrival, the best
      priority among the original rules that reach the key, stray value bits included. */
  lemma LookupMatchesReaching(threshold: nat, rules: seq<Rule>, key: Word)
    requires Positive(rules) && !ExpandAll(threshold, rules).failed
    ensures IsBestReaching(rules, key, Best(ExpandAll(threshold, rules).state.tree, KeyPath(key), 64))
  {
    var m := Best(ExpandAll(threshold, rules).state.tree, KeyPath(key), 64);
    LookupMatchesRecordedRules(threshold, rules, key);
    CompleteRunTable(threshold, rules);
    BestReachingTransfer(rules, key, m);
  }

  lemma BestReachingTransfer(rules: seq<Rule>, key: Word, m: nat)
    requires Positive(rules) && IsBestPriority(AllExpanded(rules), key, m)
    ensures IsBestReaching(rules, key, m)
  {
    hide Reaches, Agrees, AllExpanded;
    ExpandedAnswers(rules, key, m);
    forall r | r in rules && Reaches(r, key) ensures 0 < m <= r.priority {
      ExpandedAnswers(rules, key, r.priority);
      assert Answers(AllExpanded(rules), key, r.priority);
    }
  }

  /** Every recorded rule comes from an inserted one that did not blow up: it carries that rule's
      priority and action, and matches only keys the rule reaches. */
  lemma RecordedFrom(threshold: nat, rules: seq<Rule>, e: Rule) returns (r: Rule)
    requires e in ExpandAll(threshold, rules).state.table
    ensures r in rules && Expandable(r.mask) && e.priority == r.priority && e.action == r.action
    ensures forall key: Word | Agrees(e, key) :: Reaches(r, key)
  {
    RecordedWereOffered(threshold, rules);
    r := OfferedFrom(rules, e);
    FitsMeaning(r);
    var es := ExpandedRules(r);
    var i :| 0 <= i < |es| && es[i] == e;
    forall key: Word | Agrees(e, key) ensures Reaches(r, key) { ExpansionSound(r, i, key); }
  }

  lemma {:induction false} OfferedFrom(rules: seq<Rule>, e: Rule) returns (r: Rule)
    requires e in AllExpanded(rules)
    ensures r in rules && Fits(r) && e in ExpandedRules(r)
    decreases |rules|
  {
    var n := |rules| - 1;
    if e in OfferedFor(rules[n]) {
      r := rules[n];
    } else {
      r := OfferedFrom(rules[..n], e);
    }
  }

  // A best priority depends only on the priorities on offer.
  lemma BestPriorityTransfer(a: seq<Rule>, b: seq<Rule>, key: Word, m: nat)
    requires forall n: nat :: Answers(a, key, n) <==> Answers(b, key, n)
    requires IsBestPriority(a, key, m)
    ensures IsBestPriority(b, key, m)
  {
    forall r | r in b && Agrees(r, key) ensures 0 < m <= r.priority {
      assert Answers(b, key, r.priority);
      assert Answers(a, key, r.priority);
      var e :| e in a && Agrees(e, key) && e.priority == r.priority;
    }
    if m > 0 {
      assert Answers(b, key, m);
    }
  }

  /** A run that never hits the budget answers, for every key and every order of arrival, the
      best priority among the original rules that did not blow up. */
  lemma LookupMatchesRules(threshold: nat, rules: seq<Rule>, key: Word)
    requires Positive(rules) && AllSafe(rules) && !ExpandAll(threshold, rules).failed
    ensures IsBestPriority(Fitting(rules), key, Best(ExpandAll(threshold, rules).state.tree, KeyPath(key), 64))
  {
    LookupMatchesRecordedRules(threshold, rules, key);
    CompleteRunTable(threshold, rules);
    forall m: nat ensures Answers(AllExpanded(rules), key, m) <==> Answers(Fitting(rules), key, m) {
      ExpandedAnswers(rules, key, m);
      FittingAnswers(rules, key, m);
    }
    BestPriorityTransfer(AllExpanded(rules), Fitting(rules), key,
                         Best(ExpandAll(threshold, rules).state.tree, KeyPath(key), 64));
  }
}
