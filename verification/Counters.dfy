/** What the trie's counters say in prefix mode: exactly when a node budget is hit, and exactly
    when `count` is the number of rules. */
module Counters {
  import opened Words
  import opened Rules
  import opened Expansion
  import opened PrefixTree
  import opened PriorityTrie
  import opened SkippingTrie
  import opened LongestPrefix

  // ---------- The exact budget ----------

  // An offer that succeeds with one budget does the same with any budget that holds its result.
  lemma OfferWithOtherBudget(s: State, ample: nat, threshold: nat, p: Path, priority: nat)
    requires var o := Offer(s, ample, p, priority);
             !o.failed && (o.state.nodeCount <= threshold || o.state.nodeCount == s.nodeCount)
    ensures Offer(s, threshold, p, priority) == Offer(s, ample, p, priority)
  {
    hide Skipped, Stored, Grow, Depth;
  }

  lemma {:induction false} OfferAllWithOtherBudget(s: State, ample: nat, threshold: nat, rs: seq<Rule>)
    requires PrefixRules(rs) && Counted(s)
    requires var o := OfferAll(s, ample, rs);
             !o.failed && (o.state.nodeCount <= threshold || o.state.nodeCount == s.nodeCount)
    ensures OfferAll(s, threshold, rs) == OfferAll(s, ample, rs)
    decreases |rs|
  {
    if rs != [] {
      hide Offer;
      var r := rs[0];
      var o := Offer(s, ample, RulePath(r), r.priority);
      var s' := o.state.(table := s.table + [r]);
      OfferCounted(s, ample, RulePath(r), r.priority);
      OfferAllCounted(s', ample, rs[1..]);
      OfferWithOtherBudget(s, ample, threshold, RulePath(r), r.priority);
      OfferAllWithOtherBudget(s', ample, threshold, rs[1..]);
    }
  }

  lemma {:induction false} RunWithOtherBudget(ample: nat, threshold: nat, rules: seq<Rule>)
    requires var o := ExpandAll(ample, rules);
             !o.failed && (o.state.nodeCount <= threshold || o.state.nodeCount == 1)
    ensures ExpandAll(threshold, rules) == ExpandAll(ample, rules)
    decreases |rules|
  {
    if rules != [] {
      hide OfferAll;
      var n := |rules| - 1;
      var before := ExpandAll(ample, rules[..n]);
      RunCounted(ample, rules[..n]);
      assert [] in before.state.tree;
      assert before.state.nodeCount >= 1 by { AtLeastRoot(before.state.tree); }
      if Fits(rules[n]) { OfferAllCounted(before.state, ample, ExpandedRules(rules[n])); }
      RunWithOtherBudget(ample, threshold, rules[..n]);
      if Fits(rules[n]) { OfferAllWithOtherBudget(before.state, ample, threshold, ExpandedRules(rules[n])); }
    }
  }

  lemma AtLeastRoot(t: Tree)
    requires [] in t
    ensures |t| >= 1
  {
    assert t.Keys == {[]} + (t.Keys - {[]});
    assert |t| == |t.Keys|;
  }

  /** Given the final node count of a run that did not fail, every other budget is decided: the
      same run fails if and only if its budget is below that count (a bare root needs none), and
      otherwise reaches the identical state. */
  lemma RunBudgetExact(ample: nat, threshold: nat, rules: seq<Rule>)
    requires !ExpandAll(ample, rules).failed
    ensures var final := ExpandAll(ample, rules).state.nodeCount;
            && (ExpandAll(threshold, rules).failed <==> 1 < final && threshold < final)
            && (!ExpandAll(threshold, rules).failed ==> ExpandAll(threshold, rules) == ExpandAll(ample, rules))
  {
    hide ExpandAll;
    var final := ExpandAll(ample, rules).state.nodeCount;
    if final <= threshold || final == 1 {
      RunWithOtherBudget(ample, threshold, rules);
    } else {
      RunBudget(ample, rules);
      RunBudget(threshold, rules);
      RunCounted(ample, rules);
      RunCounted(threshold, rules);
      AtLeastRoot(ExpandAll(ample, rules).state.tree);
      AtLeastRoot(ExpandAll(threshold, rules).state.tree);
      if !ExpandAll(threshold, rules).failed { RunWithOtherBudget(threshold, ample, rules); }
    }
  }

  // Such a run always exists: a budget that holds the reference trie is never hit.
  lemma ReferenceBudgetSuffices(rules: seq<Rule>)
    ensures PrefixRules(AllExpanded(rules))
    ensures !ExpandAll(|Reference(AllExpanded(rules))|, rules).failed
  {
    AllExpandedPrefixRules(rules);
    ReferenceHosts(AllExpanded(rules));
    RunWithin(|Reference(AllExpanded(rules))|, rules, Reference(AllExpanded(rules)));
  }

  // ---------- The budget read off the rules ----------

  // A better one of the rules has a path that is a prefix of the rule's path.
  ghost predicate Outdone(rs: seq<Rule>, r: Rule)
    requires PrefixRules(rs) && r.mask != ALL_ONES
  {
    exists e | e in rs :: RulePath(e) <= RulePath(r) && e.priority < r.priority
  }

  // The root and every prefix of the path of each rule that no earlier one outdoes.
  ghost function Needed(rs: seq<Rule>): set<Path>
    requires PrefixRules(rs)
  {
    if rs == [] then {[]}
    else
      var n := |rs| - 1;
      assert rs[n] in rs && forall e | e in rs[..n] :: e in rs;
      var p := RulePath(rs[n]);
      Needed(rs[..n]) + if Outdone(rs[..n], rs[n]) then {} else PrefixesUpTo(p, |p|)
  }

  lemma {:induction false} TableBestIsSmallest(rs: seq<Rule>, k: Path, priority: nat)
    requires PrefixRules(rs) && Positive(rs)
    ensures 0 < TableBest(rs, k) < priority <==> exists e | e in rs :: RulePath(e) <= k && e.priority < priority
    decreases |rs|
  {
    if rs != [] {
      hide RulePath;
      var n := |rs| - 1;
      assert forall e :: e in rs <==> e in rs[..n] || e == rs[n];
      TableBestIsSmallest(rs[..n], k, priority);
    }
  }

  // In every reachable state an offer is skipped exactly when a recorded rule outdoes it.
  lemma SkippedIffOutdone(s: State, r: Rule)
    requires Invariant(s) && PrefixRules(s.table) && r.mask != ALL_ONES
    ensures Skipped(s.tree, RulePath(r), r.priority) <==> Outdone(s.table, r)
  {
    var p := RulePath(r);
    TableBestIsSmallest(s.table, p, r.priority);
    assert Best(s.tree, p, |p|) == TableBest(s.table, p);
    if Skipped(s.tree, p, r.priority) {
      var l: nat :| 1 <= l <= |p| && 0 < PriorityAt(s.tree, p[..l]) < r.priority;
      BestBound(s.tree, p, |p|, l);
    }
    if 0 < Best(s.tree, p, |p|) < r.priority { var l := BestWitness(s.tree, p, |p|); }
  }

  ghost predicate NodesNeeded(s: State) {
    Invariant(s) && PrefixRules(s.table) && s.tree.Keys == Needed(s.table)
  }

  lemma OfferNodes(s: State, threshold: nat, r: Rule)
    requires NodesNeeded(s) && r.mask != ALL_ONES && r.priority > 0
    requires !Offer(s, threshold, RulePath(r), r.priority).failed
    ensures NodesNeeded(Offer(s, threshold, RulePath(r), r.priority).state.(table := s.table + [r]))
  {
    var p := RulePath(r);
    OfferInvariant(s, threshold, r);
    SkippedIffOutdone(s, r);
    assert (s.table + [r])[..|s.table|] == s.table;
    assert p in PrefixesUpTo(p, |p|);
  }

  lemma {:induction false} OfferAllNodes(s: State, threshold: nat, rs: seq<Rule>)
    requires PrefixRules(rs) && Positive(rs) && NodesNeeded(s) && !OfferAll(s, threshold, rs).failed
    ensures NodesNeeded(OfferAll(s, threshold, rs).state)
    decreases |rs|
  {
    if rs != [] {
      hide Offer, NodesNeeded;
      var r := rs[0];
      OfferNodes(s, threshold, r);
      OfferAllNodes(Offer(s, threshold, RulePath(r), r.priority).state.(table := s.table + [r]), threshold, rs[1..]);
    }
  }

  lemma {:induction false} RunNodes(threshold: nat, rules: seq<Rule>)
    requires Positive(rules) && !ExpandAll(threshold, rules).failed
    ensures NodesNeeded(ExpandAll(threshold, rules).state)
    decreases |rules|
  {
    if rules == [] {
      FreshInvariant();
    } else {
      hide NodesNeeded, OfferAll;
      var n := |rules| - 1;
      RunNodes(threshold, rules[..n]);
      if Fits(rules[n]) {
        OfferAllNodes(ExpandAll(threshold, rules[..n]).state, threshold, ExpandedRules(rules[n]));
      }
    }
  }

  /** The budget of a run, read off its rules: it is hit if and only if it is below the number of
      prefixes, the root included, of the paths of the offered rules that no earlier offered rule
      outdoes; a run that does not hit it creates exactly those nodes. */
  lemma NeededBudgetExact(threshold: nat, rules: seq<Rule>)
    requires Positive(rules)
    ensures PrefixRules(AllExpanded(rules))
    ensures var needed := Needed(AllExpanded(rules));
            && (ExpandAll(threshold, rules).failed <==> 1 < |needed| && threshold < |needed|)
            && (!ExpandAll(threshold, rules).failed ==> ExpandAll(threshold, rules).state.tree.Keys == needed)
  {
    hide ExpandAll, AllExpanded, Needed;
    ReferenceBudgetSuffices(rules);
    var ample := |Reference(AllExpanded(rules))|;
    RunNodes(ample, rules);
    RunCounted(ample, rules);
    CompleteRunTable(ample, rules);
    RunBudgetExact(ample, threshold, rules);
    var t := ExpandAll(ample, rules).state.tree;
    assert |t| == |t.Keys|;
  }

  // With sorted rules the order of offering drops out: outdone by any of them.
  lemma {:induction false} NeededMeaning(rs: seq<Rule>, q: Path)
    requires PrefixRules(rs) && Sorted(rs)
    ensures q in Needed(rs) <==> q == [] || exists r | r in rs :: q <= RulePath(r) && !Outdone(rs, r)
    decreases |rs|
  {
    if rs != [] {
      hide RulePath;
      var n := |rs| - 1;
      var front, last := rs[..n], rs[n];
      assert forall e :: e in rs <==> e in front || e == last;
      assert forall e | e in front :: e.priority <= last.priority;
      NeededMeaning(front, q);
      forall r | r in rs ensures Outdone(rs, r) <==> Outdone(front, r) { }
      assert forall x :: x in PrefixesUpTo(RulePath(last), |RulePath(last)|) <==> x <= RulePath(last);
    }
  }

  lemma {:induction false} ExpandedKeepOrder(rules: seq<Rule>)
    requires Sorted(rules)
    ensures Sorted(AllExpanded(rules))
    ensures rules != [] ==> forall e | e in AllExpanded(rules) :: e.priority <= rules[|rules| - 1].priority
    decreases |rules|
  {
    if rules != [] {
      var n := |rules| - 1;
      ExpandedKeepOrder(rules[..n]);
      OfferedPriority(rules[n]);
      hide OfferedFor;
      assert AllExpanded(rules) == AllExpanded(rules[..n]) + OfferedFor(rules[n]);
      SortedConcat(AllExpanded(rules[..n]), OfferedFor(rules[n]), rules[n].priority);
    }
  }

  lemma OfferedPriority(r: Rule)
    ensures forall e | e in OfferedFor(r) :: e.priority == r.priority
  {
  }

  lemma SortedConcat(a: seq<Rule>, b: seq<Rule>, bound: nat)
    requires Sorted(a) && (forall e | e in a :: e.priority <= bound) && forall e | e in b :: e.priority == bound
    ensures Sorted(a + b) && forall e | e in a + b :: e.priority <= bound
  {
  }

  // ---------- A budget of one node ----------

  /** A suffix rule alone is found if and only if the budget holds its path and the root. */
  lemma SuffixRuleFound(threshold: nat, r: Rule)
    requires SuffixMask(r) && r.mask != ALL_ONES && r.priority > 0
    ensures Best(ExpandAll(threshold, [r]).state.tree, KeyPath(r.value), 64) ==
            if threshold >= 1 + |RulePath(r)| then r.priority else 0
  {
    OfferedAlone(r);
    AloneNeeded(r);
    var n := SingleRuleRun(threshold, r);
    hide ExpandAll, Best, KeyPath, RulePath, AllExpanded, Needed, SuffixMask, OfferedFor;
    NeededBudgetExact(threshold, [r]);
    LookupMatchesRecordedRules(threshold, [r], r.value);
    assert [r][..0] == [] && [r][..1] == [r] && r in [r] && Agrees(r, r.value);
  }

  lemma OfferedAlone(r: Rule)
    requires SuffixMask(r)
    ensures OfferedFor(r) == [r] && AllExpanded([r]) == [r]
  {
    SuffixRuleAlone(r);
    hide ExpandedRules;
    assert [r][..0] == [];
  }

  lemma AloneNeeded(r: Rule)
    requires r.mask != ALL_ONES
    ensures PrefixRules([r]) && |Needed([r])| == 1 + |RulePath(r)|
  {
    var p := RulePath(r);
    hide RulePath;
    EmptyDepth(p);
    GrowSize(EMPTY, p, |p|);
    assert [r][..0] == [];
    assert Grow(EMPTY, p, |p|).Keys == Needed([r]);
    assert |Grow(EMPTY, p, |p|)| == |Grow(EMPTY, p, |p|).Keys|;
  }

  lemma SuffixRule(b: nat) returns (r: Rule)
    requires b < 64
    ensures SuffixMask(r) && r.mask != ALL_ONES && |RulePath(r)| == 64 - b && r.priority == 1
  {
    Pow2Strict(b, 64);
    TwoTo64();
    r := Rule(0, Pow2(b) - 1, 1, 0);
    PathPrefixMeansAgrees(r, b, 0);
  }

  /** Every lookup of every run misses if and only if the budget is at most one node. */
  lemma NoBudgetExact(threshold: nat)
    ensures (forall rules, key: Word ::
               Best(ExpandAll(threshold, rules).state.tree, KeyPath(key), 64) == 0) <==> threshold <= 1
  {
    if threshold <= 1 {
      forall rules, key: Word
        ensures Best(ExpandAll(threshold, rules).state.tree, KeyPath(key), 64) == 0
      { NoBudgetNoRules(threshold, rules, KeyPath(key)); }
    } else {
      var r := SuffixRule(63);
      hide Best, ExpandAll, KeyPath, RulePath, SuffixMask;
      SuffixRuleFound(threshold, r);
    }
  }

  // ---------- The rule counter ----------

  // The offer is stored over a rule already at its path.
  ghost predicate Overwrites(s: State, threshold: nat, p: Path, priority: nat) {
    !Skipped(s.tree, p, priority) && !Offer(s, threshold, p, priority).failed && PriorityAt(s.tree, p) > 0
  }

  // None of the rules is stored over another one when it is offered.
  ghost predicate NoOverwrites(s: State, threshold: nat, rs: seq<Rule>)
    requires PrefixRules(rs)
    decreases |rs|
  {
    rs == [] ||
    var r := rs[0];
    var o := Offer(s, threshold, RulePath(r), r.priority);
    && !Overwrites(s, threshold, RulePath(r), r.priority)
    && (!o.failed ==> NoOverwrites(o.state.(table := s.table + [r]), threshold, rs[1..]))
  }

  ghost predicate NoOverwritesInRun(threshold: nat, rules: seq<Rule>) {
    rules == [] ||
    var n := |rules| - 1;
    && NoOverwritesInRun(threshold, rules[..n])
    && NoOverwrites(ExpandAll(threshold, rules[..n]).state, threshold, OfferedFor(rules[n]))
  }

  // The excess of `count` over the number of stored rules.
  ghost function Excess(s: State): int {
    s.count - |RuleMap(s.tree)|
  }

  lemma GrowKeepsRules(t: Tree, p: Path, l: nat)
    requires l <= |p|
    ensures RuleMap(Grow(t, p, l)) == RuleMap(t)
  {
  }

  lemma StoredRules(t: Tree, p: Path, priority: nat)
    requires priority > 0
    ensures |RuleMap(Stored(t, p, priority))| == |RuleMap(t)| + if PriorityAt(t, p) > 0 then 0 else 1
  {
    StoredRuleMap(t, p, priority);
    MapSize(RuleMap(t), p, priority);
    assert p in RuleMap(t) <==> PriorityAt(t, p) > 0;
  }

  lemma StoredRuleMap(t: Tree, p: Path, priority: nat)
    requires priority > 0
    ensures RuleMap(Stored(t, p, priority)) == RuleMap(t)[p := priority]
  {
    GrowKeepsRules(t, p, |p|);
  }

  lemma MapSize(m: map<Path, nat>, p: Path, v: nat)
    ensures |m[p := v]| == |m| + if p in m then 0 else 1
  {
    assert m[p := v].Keys == m.Keys + {p};
    assert |m[p := v]| == |m[p := v].Keys| && |m| == |m.Keys|;
    if p in m { assert m.Keys + {p} == m.Keys; }
  }

  lemma OfferExcess(s: State, threshold: nat, p: Path, priority: nat)
    requires priority > 0 && s.count + 1 < TWO32
    ensures var o := Offer(s, threshold, p, priority);
            && Excess(o.state) == Excess(s) + (if Overwrites(s, threshold, p, priority) then 1 else 0)
            && s.count <= o.state.count <= s.count + 1
  {
    hide Skipped, Depth, RuleMap;
    forall l: nat | l <= |p| ensures RuleMap(Grow(s.tree, p, l)) == RuleMap(s.tree) { GrowKeepsRules(s.tree, p, l); }
    StoredRules(s.tree, p, priority);
  }

  lemma {:induction false} OfferAllExcess(s: State, threshold: nat, rs: seq<Rule>)
    requires PrefixRules(rs) && Positive(rs) && s.count + |rs| < TWO32
    ensures var o := OfferAll(s, threshold, rs);
            && Excess(o.state) >= Excess(s)
            && (Excess(o.state) == Excess(s) <==> NoOverwrites(s, threshold, rs))
            && o.state.count <= s.count + |rs|
    decreases |rs|
  {
    if rs != [] {
      hide Offer, RuleMap, Overwrites;
      var r := rs[0];
      OfferExcess(s, threshold, RulePath(r), r.priority);
      var o := Offer(s, threshold, RulePath(r), r.priority);
      if !o.failed { OfferAllExcess(o.state.(table := s.table + [r]), threshold, rs[1..]); }
    }
  }

  /** In prefix mode `count` is never below the number of stored rules, and equals it if and only
      if no rule was stored over another one. */
  lemma {:induction false} RunCountExact(threshold: nat, rules: seq<Rule>)
    requires Positive(rules) && |AllExpanded(rules)| < TWO32
    ensures var s := ExpandAll(threshold, rules).state;
            && s.count >= |RuleMap(s.tree)|
            && (s.count == |RuleMap(s.tree)| <==> NoOverwritesInRun(threshold, rules))
            && s.count <= |AllExpanded(rules)|
    decreases |rules|
  {
    if rules == [] {
      assert RuleMap(EMPTY) == map[];
    } else {
      hide RuleMap, NoOverwrites, OfferAll, ExpandedRules;
      var n := |rules| - 1;
      RunCountExact(threshold, rules[..n]);
      var s := ExpandAll(threshold, rules[..n]).state;
      assert AllExpanded(rules) == AllExpanded(rules[..n]) + OfferedFor(rules[n]);
      OfferAllExcess(s, threshold, OfferedFor(rules[n]));
      if !Fits(rules[n]) { OfferNothing(s, threshold); }
    }
  }
}
