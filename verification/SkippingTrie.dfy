/** What skipping costs: nothing. The trie is compared with a reference trie that stores every
    offered prefix rule. */
module SkippingTrie {
  import opened Words
  import opened Rules
  import opened Expansion
  import opened PrefixTree
  import opened PriorityTrie

  // ---------- The reference trie ----------

  ghost function StoreAlways(t: Tree, p: Path, priority: nat): Tree {
    Grow(t, p, |p|)[p := Better(PriorityAt(t, p), priority)]
  }

  ghost function Reference(rs: seq<Rule>): Tree
    requires PrefixRules(rs)
  {
    if rs == [] then EMPTY
    else
      var n := |rs| - 1;
      StoreAlways(Reference(rs[..n]), RulePath(rs[n]), rs[n].priority)
  }

  lemma {:induction false} ReferenceWellFormed(rs: seq<Rule>)
    requires PrefixRules(rs)
    ensures WellFormed(Reference(rs))
    decreases |rs|
  {
    if rs != [] {
      var n := |rs| - 1;
      ReferenceWellFormed(rs[..n]);
      var t, p := Reference(rs[..n]), RulePath(rs[n]);
      GrowWellFormed(t, p, |p|);
      TargetGrown(t, p);
    }
  }

  lemma TargetGrown(t: Tree, p: Path)
    requires WellFormed(t)
    ensures p in Grow(t, p, |p|)
  {
    assert p in PrefixesUpTo(p, |p|);
  }

  // The reference trie has exactly the nodes on the paths of the offered rules.
  lemma {:induction false} ReferenceNodes(rs: seq<Rule>, q: Path)
    requires PrefixRules(rs)
    ensures q in Reference(rs) <==> q == [] || exists r | r in rs :: q <= RulePath(r)
    decreases |rs|
  {
    if rs != [] {
      var n := |rs| - 1;
      var front, last := rs[..n], rs[n];
      assert forall r | r in rs :: r in front || r == last;
      assert forall r | r in front :: r in rs;
      assert last in rs;
      ReferenceNodes(front, q);
      var p := RulePath(last);
      assert q in Reference(rs) <==> q in Reference(front) || q in PrefixesUpTo(p, |p|) || q == p;
    }
  }

  lemma {:induction false} StoreAlwaysLookup(t: Tree, p: Path, priority: nat, k: Path, l: nat)
    requires 1 <= |p| && l <= |k|
    ensures Best(StoreAlways(t, p, priority), k, l) ==
            if |p| <= l && p <= k then Better(Best(t, k, l), priority) else Best(t, k, l)
  {
    if l > 0 {
      StoreAlwaysLookup(t, p, priority, k, l - 1);
      var u := StoreAlways(t, p, priority);
      if k[..l] == p {
        assert PriorityAt(u, p) == Better(PriorityAt(t, p), priority);
      } else {
        assert PriorityAt(u, k[..l]) == PriorityAt(t, k[..l]);
        if p <= k { assert p == k[..|p|]; assert |p| != l; }
      }
    }
  }

  lemma {:induction false} ReferenceLookup(rs: seq<Rule>, k: Path)
    requires PrefixRules(rs) && |k| == 64
    ensures Best(Reference(rs), k, 64) == TableBest(rs, k)
    decreases |rs|
  {
    if rs == [] {
      BestOfEmpty(k, 64);
    } else {
      var n := |rs| - 1;
      ReferenceLookup(rs[..n], k);
      StoreAlwaysLookup(Reference(rs[..n]), RulePath(rs[n]), rs[n].priority, k, 64);
      assert rs[n] in rs;
    }
  }

  // ---------- The skipping trie stays inside the reference trie ----------

  ghost predicate Hosts(host: Tree, rs: seq<Rule>) {
    WellFormed(host) && forall r | r in rs :: r.mask != ALL_ONES && RulePath(r) in host
  }

  lemma GrowWithin(t: Tree, p: Path, l: nat, host: Tree)
    requires WellFormed(host) && p in host && t.Keys <= host.Keys && l <= |p|
    ensures Grow(t, p, l).Keys <= host.Keys
  {
    forall q | q in PrefixesUpTo(p, l) ensures q in host {
      PrefixIn(host, p, |q|);
      assert q == p[..|q|];
    }
  }

  lemma OfferWithin(s: State, threshold: nat, p: Path, priority: nat, host: Tree)
    requires Counted(s)
    requires WellFormed(host) && p in host && s.tree.Keys <= host.Keys
    ensures Offer(s, threshold, p, priority).state.tree.Keys <= host.Keys
    ensures |host| <= threshold ==> !Offer(s, threshold, p, priority).failed
  {
    forall l: nat | l <= |p| ensures Grow(s.tree, p, l).Keys <= host.Keys { GrowWithin(s.tree, p, l, host); }
    GrowSize(s.tree, p, |p|);
    SubsetSize(Grow(s.tree, p, |p|), host);
  }

  lemma SubsetSize(t: Tree, host: Tree)
    requires t.Keys <= host.Keys
    ensures |t| <= |host|
  {
    assert host.Keys == t.Keys + (host.Keys - t.Keys);
    assert |t| == |t.Keys| && |host| == |host.Keys|;
  }

  lemma {:induction false} OfferAllWithin(s: State, threshold: nat, rs: seq<Rule>, host: Tree)
    requires PrefixRules(rs) && Counted(s) && Hosts(host, rs) && s.tree.Keys <= host.Keys
    ensures OfferAll(s, threshold, rs).state.tree.Keys <= host.Keys
    ensures |host| <= threshold ==> !OfferAll(s, threshold, rs).failed
    decreases |rs|
  {
    if rs != [] {
      var r := rs[0];
      OfferWithin(s, threshold, RulePath(r), r.priority, host);
      OfferCounted(s, threshold, RulePath(r), r.priority);
      var o := Offer(s, threshold, RulePath(r), r.priority);
      if !o.failed { OfferAllWithin(o.state.(table := s.table + [r]), threshold, rs[1..], host); }
    }
  }

  lemma {:induction false} RunWithin(threshold: nat, rules: seq<Rule>, host: Tree)
    requires Hosts(host, AllExpanded(rules))
    ensures ExpandAll(threshold, rules).state.tree.Keys <= host.Keys
    ensures |host| <= threshold ==> !ExpandAll(threshold, rules).failed
    decreases |rules|
  {
    if rules != [] {
      var n := |rules| - 1;
      var es := OfferedFor(rules[n]);
      assert AllExpanded(rules) == AllExpanded(rules[..n]) + es;
      assert Hosts(host, AllExpanded(rules[..n])) && Hosts(host, es);
      RunWithin(threshold, rules[..n], host);
      RunCounted(threshold, rules[..n]);
      if Fits(rules[n]) {
        OfferAllWithin(ExpandAll(threshold, rules[..n]).state, threshold, es, host);
      }
    }
  }

  lemma {:induction false} AllExpandedPrefixRules(rules: seq<Rule>)
    ensures PrefixRules(AllExpanded(rules))
    decreases |rules|
  {
    if rules != [] { AllExpandedPrefixRules(rules[..|rules| - 1]); }
  }

  lemma ReferenceHosts(rs: seq<Rule>)
    requires PrefixRules(rs)
    ensures Hosts(Reference(rs), rs)
  {
    ReferenceWellFormed(rs);
    forall r | r in rs ensures RulePath(r) in Reference(rs) { ReferenceNodes(rs, RulePath(r)); }
  }

  /** Skipping is free: for every order of arrival and every budget the trie's nodes are among
      the reference trie's, a run whose reference trie fits the budget never fails, and a run
      that does not fail answers every lookup as the reference trie does. */
  lemma SkippingIsFree(threshold: nat, rules: seq<Rule>)
    requires Positive(rules)
    ensures PrefixRules(AllExpanded(rules))
    ensures var o, full := ExpandAll(threshold, rules), Reference(AllExpanded(rules));
            && o.state.tree.Keys <= full.Keys
            && (|full| <= threshold ==> !o.failed)
            && (!o.failed ==> forall k: Path | |k| == 64 :: Best(o.state.tree, k, 64) == Best(full, k, 64))
  {
    AllExpandedPrefixRules(rules);
    var rs := AllExpanded(rules);
    ReferenceHosts(rs);
    RunWithin(threshold, rules, Reference(rs));
    var o := ExpandAll(threshold, rules);
    if !o.failed {
      CompleteRunTable(threshold, rules);
      RunInvariant(threshold, rules);
      forall k: Path | |k| == 64 ensures Best(o.state.tree, k, 64) == Best(Reference(rs), k, 64) {
        ReferenceLookup(rs, k);
        assert Best(o.state.tree, k, |k|) == TableBest(rs, k);
      }
    }
  }

  // ---------- Order of arrival ----------

  /** Permuting the rules, even changing the budget, never changes a lookup, as long as neither
      run hits its budget. */
  lemma OrderIsIrrelevant(threshold: nat, rules: seq<Rule>, threshold': nat, rules': seq<Rule>, key: Word)
    requires multiset(rules) == multiset(rules') && Positive(rules)
    requires !ExpandAll(threshold, rules).failed && !ExpandAll(threshold', rules').failed
    ensures Best(ExpandAll(threshold, rules).state.tree, KeyPath(key), 64) ==
            Best(ExpandAll(threshold', rules').state.tree, KeyPath(key), 64)
  {
    forall r ensures r in rules <==> r in rules' {
      assert r in rules <==> r in multiset(rules);
      assert r in rules' <==> r in multiset(rules');
    }
    var a, b := AllExpanded(rules), AllExpanded(rules');
    CompleteRunTable(threshold, rules);
    CompleteRunTable(threshold', rules');
    LookupMatchesRecordedRules(threshold, rules, key);
    LookupMatchesRecordedRules(threshold', rules', key);
    forall n: nat ensures Answers(a, key, n) <==> Answers(b, key, n) {
      ExpandedAnswers(rules, key, n);
      ExpandedAnswers(rules', key, n);
    }
    var m := Best(ExpandAll(threshold, rules).state.tree, KeyPath(key), 64);
    BestPriorityTransfer(a, b, key, m);
    BestPriorityUnique(b, key, m, Best(ExpandAll(threshold', rules').state.tree, KeyPath(key), 64));
  }
}
