/** Longest prefix against best priority: when the deepest rule on a key's path is the best one. */
module LongestPrefix {
  import opened Words
  import opened Rules
  import opened Expansion
  import opened PrefixTree
  import opened PriorityTrie

  ghost predicate Sorted(rules: seq<Rule>) {
    forall i, j | 0 <= i <= j < |rules| :: rules[i].priority <= rules[j].priority
  }

  // Stored priorities never increase with depth on a root path.
  ghost predicate Sinking(t: Tree) {
    forall p, q | p in t && q in t && p <= q && p != [] && t[p] > 0 && t[q] > 0 :: t[q] <= t[p]
  }

  ghost predicate AtMost(t: Tree, bound: nat) {
    forall p | p in t :: t[p] <= bound
  }

  // The priority of the deepest rule at depths 1..l of the path.
  ghost function DeepestRule(t: Tree, k: Path, l: nat): nat
    requires l <= |k|
  {
    if l == 0 then 0
    else if PriorityAt(t, k[..l]) > 0 then PriorityAt(t, k[..l])
    else DeepestRule(t, k, l - 1)
  }

  lemma {:induction false} DeepestIsBest(t: Tree, k: Path, l: nat)
    requires Sinking(t) && l <= |k|
    ensures DeepestRule(t, k, l) == Best(t, k, l)
  {
    if l > 0 {
      DeepestIsBest(t, k, l - 1);
      if PriorityAt(t, k[..l]) > 0 && Best(t, k, l - 1) > 0 {
        var m := BestWitness(t, k, l - 1);
        assert k[..m] <= k[..l];
      }
    }
  }

  lemma StoredSinks(t: Tree, p: Path, priority: nat)
    requires Sinking(t) && AtMost(t, priority) && !Skipped(t, p, priority)
    ensures Sinking(Stored(t, p, priority)) && AtMost(Stored(t, p, priority), priority)
  {
    var u := Stored(t, p, priority);
    forall a, b | a in u && b in u && a <= b && a != [] && u[a] > 0 && u[b] > 0 ensures u[b] <= u[a] {
      if b == p && a != p {
        assert a == p[..|a|];
        assert PriorityAt(t, p[..|a|]) == u[a];
      }
    }
  }

  lemma OfferSinks(s: State, threshold: nat, p: Path, priority: nat)
    requires Sinking(s.tree) && AtMost(s.tree, priority)
    ensures Sinking(Offer(s, threshold, p, priority).state.tree)
    ensures AtMost(Offer(s, threshold, p, priority).state.tree, priority)
  {
    if !Skipped(s.tree, p, priority) { StoredSinks(s.tree, p, priority); }
  }

  lemma {:induction false} OfferAllSinks(s: State, threshold: nat, rs: seq<Rule>, priority: nat)
    requires PrefixRules(rs) && forall r | r in rs :: r.priority == priority
    requires Sinking(s.tree) && AtMost(s.tree, priority)
    ensures Sinking(OfferAll(s, threshold, rs).state.tree)
    ensures AtMost(OfferAll(s, threshold, rs).state.tree, priority)
    decreases |rs|
  {
    if rs != [] {
      var r := rs[0];
      OfferSinks(s, threshold, RulePath(r), r.priority);
      var o := Offer(s, threshold, RulePath(r), r.priority);
      if !o.failed { OfferAllSinks(o.state.(table := s.table + [r]), threshold, rs[1..], priority); }
    }
  }

  lemma {:induction false} RunSinks(threshold: nat, rules: seq<Rule>)
    requires Sorted(rules)
    ensures Sinking(ExpandAll(threshold, rules).state.tree)
    ensures AtMost(ExpandAll(threshold, rules).state.tree, if rules == [] then 0 else rules[|rules| - 1].priority)
    decreases |rules|
  {
    if rules != [] {
      var n := |rules| - 1;
      RunSinks(threshold, rules[..n]);
      if Fits(rules[n]) {
        OfferAllSinks(ExpandAll(threshold, rules[..n]).state, threshold, ExpandedRules(rules[n]), rules[n].priority);
      }
    }
  }

  /** When rules arrive in non-decreasing priority the deepest rule on a key's path is the best
      one, in every reachable state and under every budget. */
  lemma LongestPrefixIsBest(threshold: nat, rules: seq<Rule>, k: Path)
    requires Sorted(rules) && |k| == 64
    ensures Sinking(ExpandAll(threshold, rules).state.tree)
    ensures DeepestRule(ExpandAll(threshold, rules).state.tree, k, 64) ==
            Best(ExpandAll(threshold, rules).state.tree, k, 64)
  {
    RunSinks(threshold, rules);
    DeepestIsBest(ExpandAll(threshold, rules).state.tree, k, 64);
  }

  // ---------- The exact condition on a trie ----------

  // The node q is the last rule on the 64-bit path k.
  ghost predicate LastOn(t: Tree, q: Path, k: Path) {
    |k| == 64 && q <= k && forall m: nat | |q| < m <= 64 :: PriorityAt(t, k[..m]) == 0
  }

  // Some key's search ends its rules at q: no pair of deeper rules hides it.
  ghost predicate Exposed(t: Tree, q: Path) {
    exists k :: LastOn(t, q, k)
  }

  ghost predicate ExposedSinking(t: Tree) {
    forall p, q | p in t && q in t && p <= q && p != [] && t[p] > 0 && t[q] > 0 && Exposed(t, q) :: t[q] <= t[p]
  }

  lemma {:induction false} DeepestSkipsRuleless(t: Tree, k: Path, l: nat, m: nat)
    requires m <= l <= |k| && forall n: nat | m < n <= l :: PriorityAt(t, k[..n]) == 0
    ensures DeepestRule(t, k, l) == DeepestRule(t, k, m)
    decreases l
  {
    if m < l { DeepestSkipsRuleless(t, k, l - 1, m); }
  }

  lemma {:induction false} DeepestWitness(t: Tree, k: Path, l: nat) returns (m: nat)
    requires l <= |k| && DeepestRule(t, k, l) > 0
    ensures 1 <= m <= l && PriorityAt(t, k[..m]) == DeepestRule(t, k, l)
    ensures forall n: nat | m < n <= l :: PriorityAt(t, k[..n]) == 0
  {
    if PriorityAt(t, k[..l]) > 0 {
      m := l;
    } else {
      m := DeepestWitness(t, k, l - 1);
    }
  }

  lemma LastRuleIsDeepest(t: Tree, q: Path, k: Path)
    requires LastOn(t, q, k) && q != [] && PriorityAt(t, q) > 0
    ensures DeepestRule(t, k, 64) == PriorityAt(t, q)
  {
    assert k[..|q|] == q;
    DeepestSkipsRuleless(t, k, 64, |q|);
  }

  /** Longest prefix and best priority agree on every key if and only if no rule that is the last
      on some key's path has a strictly better rule above it. */
  lemma AgreementExact(t: Tree)
    ensures (forall k: Path | |k| == 64 :: DeepestRule(t, k, 64) == Best(t, k, 64)) <==> ExposedSinking(t)
  {
    if forall k: Path | |k| == 64 :: DeepestRule(t, k, 64) == Best(t, k, 64) {
      forall p, q | p in t && q in t && p <= q && p != [] && t[p] > 0 && t[q] > 0 && Exposed(t, q)
        ensures t[q] <= t[p]
      {
        var k :| LastOn(t, q, k);
        LastRuleIsDeepest(t, q, k);
        assert k[..|p|] == p;
        BestBound(t, k, 64, |p|);
      }
    }
    if ExposedSinking(t) {
      forall k: Path | |k| == 64 ensures DeepestRule(t, k, 64) == Best(t, k, 64) {
        ExposedAgreement(t, k);
      }
    }
  }

  lemma ExposedAgreement(t: Tree, k: Path)
    requires ExposedSinking(t) && |k| == 64
    ensures DeepestRule(t, k, 64) == Best(t, k, 64)
  {
    if Best(t, k, 64) > 0 {
      var b := BestWitness(t, k, 64);
      if DeepestRule(t, k, 64) == 0 { NoDeepestRule(t, k, 64, b); }
      var d := DeepestWitness(t, k, 64);
      BestBound(t, k, 64, d);
      assert LastOn(t, k[..d], k);
      assert k[..b] <= k[..d];
    } else if DeepestRule(t, k, 64) > 0 {
      var d := DeepestWitness(t, k, 64);
      BestBound(t, k, 64, d);
    }
  }

  lemma {:induction false} NoDeepestRule(t: Tree, k: Path, l: nat, b: nat)
    requires 1 <= b <= l <= |k| && DeepestRule(t, k, l) == 0
    ensures PriorityAt(t, k[..b]) == 0
  {
    if b < l { NoDeepestRule(t, k, l - 1, b); }
  }

  // ---------- The exact guard on an insertion ----------

  // No rule strictly below the path is worse than the priority.
  ghost predicate NothingWorseBelow(t: Tree, p: Path, priority: nat) {
    forall q | q in t && p <= q && q != p && t[q] > 0 :: t[q] <= priority
  }

  /** Storing a rule keeps priorities from increasing with depth if and only if nothing worse is
      stored below its path. */
  lemma StoredSinkingExact(t: Tree, p: Path, priority: nat)
    requires Sinking(t) && p != [] && priority > 0 && !Skipped(t, p, priority)
    ensures Sinking(Stored(t, p, priority)) <==> NothingWorseBelow(t, p, priority)
  {
    var u := Stored(t, p, priority);
    if Sinking(u) {
      forall q | q in t && p <= q && q != p && t[q] > 0 ensures t[q] <= priority {
        assert u[q] == t[q] && u[p] == priority;
      }
    }
    if NothingWorseBelow(t, p, priority) {
      forall a, b | a in u && b in u && a <= b && a != [] && u[a] > 0 && u[b] > 0 ensures u[b] <= u[a] {
        if b == p && a != p {
          assert a == p[..|a|];
          assert PriorityAt(t, p[..|a|]) == u[a];
        }
      }
    }
  }

  // The guard, checkable before the call; a rule that is not stored is always harmless.
  ghost predicate Guarded(s: State, threshold: nat, p: Path, priority: nat) {
    || Skipped(s.tree, p, priority)
    || Offer(s, threshold, p, priority).failed
    || NothingWorseBelow(s.tree, p, priority)
  }

  lemma OfferSinkingExact(s: State, threshold: nat, p: Path, priority: nat)
    requires Sinking(s.tree) && p != [] && priority > 0
    ensures Sinking(Offer(s, threshold, p, priority).state.tree) <==> Guarded(s, threshold, p, priority)
  {
    if !Skipped(s.tree, p, priority) { StoredSinkingExact(s.tree, p, priority); }
  }

  // Every trie passed through while offering the rules is sinking.
  ghost predicate SinkingOffers(s: State, threshold: nat, rs: seq<Rule>)
    requires PrefixRules(rs)
    decreases |rs|
  {
    rs == [] ||
    var r := rs[0];
    var o := Offer(s, threshold, RulePath(r), r.priority);
    && Sinking(o.state.tree)
    && (!o.failed ==> SinkingOffers(o.state.(table := s.table + [r]), threshold, rs[1..]))
  }

  // Every rule meets the guard when it is offered.
  ghost predicate GuardedOffers(s: State, threshold: nat, rs: seq<Rule>)
    requires PrefixRules(rs)
    decreases |rs|
  {
    rs == [] ||
    var r := rs[0];
    var o := Offer(s, threshold, RulePath(r), r.priority);
    && Guarded(s, threshold, RulePath(r), r.priority)
    && (!o.failed ==> GuardedOffers(o.state.(table := s.table + [r]), threshold, rs[1..]))
  }

  ghost predicate SinkingRun(threshold: nat, rules: seq<Rule>) {
    rules == [] ||
    var n := |rules| - 1;
    && SinkingRun(threshold, rules[..n])
    && SinkingOffers(ExpandAll(threshold, rules[..n]).state, threshold, OfferedFor(rules[n]))
  }

  ghost predicate GuardedRun(threshold: nat, rules: seq<Rule>) {
    rules == [] ||
    var n := |rules| - 1;
    && GuardedRun(threshold, rules[..n])
    && GuardedOffers(ExpandAll(threshold, rules[..n]).state, threshold, OfferedFor(rules[n]))
  }

  lemma {:induction false} OffersSinkingExact(s: State, threshold: nat, rs: seq<Rule>)
    requires PrefixRules(rs) && Positive(rs) && Sinking(s.tree)
    ensures SinkingOffers(s, threshold, rs) <==> GuardedOffers(s, threshold, rs)
    ensures SinkingOffers(s, threshold, rs) ==> Sinking(OfferAll(s, threshold, rs).state.tree)
    decreases |rs|
  {
    if rs != [] {
      var r := rs[0];
      OfferSinkingExact(s, threshold, RulePath(r), r.priority);
      var o := Offer(s, threshold, RulePath(r), r.priority);
      if !o.failed && Sinking(o.state.tree) {
        OffersSinkingExact(o.state.(table := s.table + [r]), threshold, rs[1..]);
      }
    }
  }

  /** Over whole runs, with any budget and in any order of arrival: the trie is sinking after every
      single insertion if and only if every stored rule found nothing worse below its path; and
      then the deepest rule is the best one on every key. */
  lemma {:induction false} RunSinkingExact(threshold: nat, rules: seq<Rule>)
    requires Positive(rules)
    ensures SinkingRun(threshold, rules) <==> GuardedRun(threshold, rules)
    ensures GuardedRun(threshold, rules) ==> Sinking(ExpandAll(threshold, rules).state.tree)
    ensures GuardedRun(threshold, rules) ==>
              forall k: Path | |k| == 64 ::
                DeepestRule(ExpandAll(threshold, rules).state.tree, k, 64) ==
                Best(ExpandAll(threshold, rules).state.tree, k, 64)
    decreases |rules|
  {
    if rules != [] {
      var n := |rules| - 1;
      RunSinkingExact(threshold, rules[..n]);
      if SinkingRun(threshold, rules[..n]) {
        OffersSinkingExact(ExpandAll(threshold, rules[..n]).state, threshold, OfferedFor(rules[n]));
      }
    }
    if GuardedRun(threshold, rules) {
      var t := ExpandAll(threshold, rules).state.tree;
      forall k: Path | |k| == 64 ensures DeepestRule(t, k, 64) == Best(t, k, 64) { DeepestIsBest(t, k, 64); }
    }
  }

  lemma {:induction false} SortedOffersAreGuarded(s: State, threshold: nat, rs: seq<Rule>, priority: nat)
    requires PrefixRules(rs) && forall r | r in rs :: r.priority == priority
    requires Sinking(s.tree) && AtMost(s.tree, priority)
    ensures GuardedOffers(s, threshold, rs)
    decreases |rs|
  {
    if rs != [] {
      var r := rs[0];
      OfferSinks(s, threshold, RulePath(r), r.priority);
      var o := Offer(s, threshold, RulePath(r), r.priority);
      if !o.failed { SortedOffersAreGuarded(o.state.(table := s.table + [r]), threshold, rs[1..], priority); }
    }
  }

  /** Arrival in non-decreasing priority meets the guard at every insertion, under every budget. */
  lemma {:induction false} SortedRunIsGuarded(threshold: nat, rules: seq<Rule>)
    requires Sorted(rules)
    ensures GuardedRun(threshold, rules)
    decreases |rules|
  {
    if rules != [] {
      var n := |rules| - 1;
      SortedRunIsGuarded(threshold, rules[..n]);
      RunSinks(threshold, rules[..n]);
      if Fits(rules[n]) {
        SortedOffersAreGuarded(ExpandAll(threshold, rules[..n]).state, threshold, ExpandedRules(rules[n]), rules[n].priority);
      }
    }
  }

  // ---------- Two rules ----------

  // A rule that already has a mask of trailing ones expands to itself.
  lemma SuffixRuleAlone(r: Rule)
    requires SuffixMask(r)
    ensures r.mask != ALL_ONES && Fits(r) && ExpandedRules(r) == [r]
  {
    var b: nat :| b < 64 && r.mask == Pow2(b) - 1;
    PathPrefixMeansAgrees(r, b, 0);
    forall i: nat ensures Bit(r.mask, i) == (i < b) { LowMaskBit(b, i); }
    FirstClearMeaning(r.mask, 0);
    assert !Bit(r.mask, b) && Boundary(r.mask) >= b;
    assert Boundary(r.mask) == b;
    NoPositions(r.mask, b + 1, 64);
    assert ExpandedRule(r, 0) == r;
  }

  lemma ExpandSuffixRule(s: State, threshold: nat, r: Rule)
    requires SuffixMask(r)
    ensures r.mask != ALL_ONES
    ensures var o := Offer(s, threshold, RulePath(r), r.priority);
            Expand(s, threshold, r) == if o.failed then o else Outcome(o.state.(table := s.table + [r]), false)
  {
    SuffixRuleAlone(r);
    hide Offer, RulePath, ExpandedRules;
    assert [r][0] == r && [r][1..] == [];
    var s' := Offer(s, threshold, RulePath(r), r.priority).state.(table := s.table + [r]);
    assert OfferAll(s', threshold, []) == Outcome(s', false);
  }

  lemma StoredPriority(t: Tree, p: Path, priority: nat, q: Path)
    ensures PriorityAt(Stored(t, p, priority), q) == if q == p then priority else PriorityAt(t, q)
  {
  }

  // What two suffix rules leave in the trie: the second is dropped only when the first is
  // better and on its path.
  lemma TwoRuleTree(threshold: nat, r1: Rule, r2: Rule, q: Path)
    requires SuffixMask(r1) && SuffixMask(r2) && r1.priority > 0 && r2.priority > 0
    requires r1.mask != ALL_ONES && r2.mask != ALL_ONES
    requires !ExpandAll(threshold, [r1, r2]).failed
    ensures PriorityAt(ExpandAll(threshold, [r1, r2]).state.tree, q) ==
            var p1, p2 := RulePath(r1), RulePath(r2);
            if q == p2 && !(p1 <= p2 && r1.priority < r2.priority) then r2.priority
            else if q == p1 then r1.priority else 0
  {
    var p1, p2 := RulePath(r1), RulePath(r2);
    TwoRuleRun(threshold, r1, r2);
    var o := Offer(FRESH, threshold, p1, r1.priority);
    var t := o.state.tree;
    assert t == Stored(EMPTY, p1, r1.priority);
    forall x ensures PriorityAt(t, x) == if x == p1 then r1.priority else 0 { StoredPriority(EMPTY, p1, r1.priority, x); }
    assert Skipped(t, p2, r2.priority) <==> p1 <= p2 && r1.priority < r2.priority by {
      if p1 <= p2 { assert p2[..|p1|] == p1; }
    }
    StoredPriority(t, p2, r2.priority, q);
  }

  lemma TwoRuleRun(threshold: nat, r1: Rule, r2: Rule)
    requires SuffixMask(r1) && SuffixMask(r2)
    requires r1.mask != ALL_ONES && r2.mask != ALL_ONES
    ensures var o1 := Offer(FRESH, threshold, RulePath(r1), r1.priority);
            var s1 := if o1.failed then o1.state else o1.state.(table := [r1]);
            var o2 := Offer(s1, threshold, RulePath(r2), r2.priority);
            && ExpandAll(threshold, [r1, r2]).failed == (o1.failed || o2.failed)
            && ExpandAll(threshold, [r1, r2]).state.tree == o2.state.tree
  {
    hide Offer, RulePath, Expand, SuffixMask;
    assert [r1, r2][..1] == [r1] && [r1][..0] == [];
    ExpandSuffixRule(FRESH, threshold, r1);
    assert FRESH.table + [r1] == [r1];
    assert ExpandAll(threshold, []) == Outcome(FRESH, false);
    assert ExpandAll(threshold, [r1]).state == Expand(FRESH, threshold, r1).state;
    ExpandSuffixRule(ExpandAll(threshold, [r1]).state, threshold, r2);
  }

  /** Two suffix rules in order of arrival: longest prefix and best priority agree on every key if
      and only if the second is not both better and strictly shorter on the first one's path. */
  lemma TwoRulesExact(threshold: nat, r1: Rule, r2: Rule)
    requires SuffixMask(r1) && SuffixMask(r2) && r1.priority > 0 && r2.priority > 0
    requires r1.mask != ALL_ONES && r2.mask != ALL_ONES
    requires !ExpandAll(threshold, [r1, r2]).failed
    ensures (forall k: Path | |k| == 64 ::
               DeepestRule(ExpandAll(threshold, [r1, r2]).state.tree, k, 64) ==
               Best(ExpandAll(threshold, [r1, r2]).state.tree, k, 64))
            <==> !(RulePath(r2) < RulePath(r1) && r2.priority < r1.priority)
  {
    hide ExpandAll, RulePath, SuffixMask;
    var t := ExpandAll(threshold, [r1, r2]).state.tree;
    var p1, p2 := RulePath(r1), RulePath(r2);
    forall q ensures PriorityAt(t, q) == if q == p2 && !(p1 <= p2 && r1.priority < r2.priority) then r2.priority
                                         else if q == p1 then r1.priority else 0
    { TwoRuleTree(threshold, r1, r2, q); }
    TwoNodesExact(t, p1, r1.priority, p2, r2.priority);
    AgreementExact(t);
  }

  lemma TwoNodesExact(t: Tree, p1: Path, m1: nat, p2: Path, m2: nat)
    requires 1 <= |p1| <= 64 && 1 <= |p2| <= 64 && m1 > 0 && m2 > 0
    requires forall q :: PriorityAt(t, q) == if q == p2 && !(p1 <= p2 && m1 < m2) then m2 else if q == p1 then m1 else 0
    ensures ExposedSinking(t) <==> !(p2 < p1 && m2 < m1)
  {
    if p2 < p1 && m2 < m1 {
      var k := p1 + seq(64 - |p1|, i => false);
      assert LastOn(t, p1, k);
      assert PriorityAt(t, p1) == m1 && PriorityAt(t, p2) == m2;
    } else {
      forall p, q | p in t && q in t && p <= q && p != [] && t[p] > 0 && t[q] > 0 && Exposed(t, q)
        ensures t[q] <= t[p]
      {
        assert PriorityAt(t, p) == t[p] && PriorityAt(t, q) == t[q];
      }
    }
  }

  /** The failing family: for any value, a longer rule and then a shorter, better one on the same
      path, passed to `expand_rule` with room for them, make the two lookups differ on that value. */
  lemma UnsortedArrivalBreaks(threshold: nat, r1: Rule, r2: Rule, b1: nat, b2: nat)
    requires b1 < b2 < 64 && r1.mask == Pow2(b1) - 1 && r2.mask == Pow2(b2) - 1
    requires r1.value == r2.value && 0 < r2.priority < r1.priority
    requires threshold >= 65 - b1
    ensures var t := ExpandAll(threshold, [r1, r2]).state.tree;
            && DeepestRule(t, KeyPath(r1.value), 64) == r1.priority
            && Best(t, KeyPath(r1.value), 64) == r2.priority
  {
    var k := KeyPath(r1.value);
    PathPrefixMeansAgrees(r1, b1, 0);
    PathPrefixMeansAgrees(r2, b2, 0);
    var p1, p2 := RulePath(r1), RulePath(r2);
    assert SuffixMask(r1) && SuffixMask(r2);
    assert p1 == k[..64 - b1] && p2 == k[..64 - b2] && p2 < p1;
    NestedRulesFit(threshold, r1, r2);
    var t := ExpandAll(threshold, [r1, r2]).state.tree;
    forall q ensures PriorityAt(t, q) == if q == p2 then r2.priority else if q == p1 then r1.priority else 0
    { TwoRuleTree(threshold, r1, r2, q); }
    LastRuleIsDeepest(t, p1, k);
    BestBound(t, k, 64, |p2|);
    var m := BestWitness(t, k, 64);
  }

  lemma NestedRulesFit(threshold: nat, r1: Rule, r2: Rule)
    requires SuffixMask(r1) && SuffixMask(r2) && r1.mask != ALL_ONES && r2.mask != ALL_ONES
    requires RulePath(r2) < RulePath(r1) && threshold >= 1 + |RulePath(r1)|
    ensures !ExpandAll(threshold, [r1, r2]).failed
  {
    var p1, p2 := RulePath(r1), RulePath(r2);
    TwoRuleRun(threshold, r1, r2);
    assert !Skipped(EMPTY, p1, r1.priority);
    assert p2 in PrefixesUpTo(p1, |p1|);
    assert p2 in Stored(EMPTY, p1, r1.priority);
  }
}
