/** The two matchers side by side, as a caller uses them. */
module Client {
  import opened Words
  import opened Rules
  import opened Expansion
  import opened PrefixTree
  import opened PriorityTrie
  import opened SkippingTrie
  import opened LongestPrefix
  import opened LinearTable
  import opened Refinement
  import opened Tries
  import opened Counters
  import opened ExactTrie
  import opened KeyExpansion
  import opened KeyPriorities
  import opened MixedTrie

  // The rules as the table's insertion hands them back.
  ghost function NormaliseAll(rules: seq<Rule>): (ns: seq<Rule>)
    ensures |ns| == |rules| && forall i | 0 <= i < |rules| :: ns[i] == Normalise(rules[i])
  {
    seq(|rules|, i requires 0 <= i < |rules| => Normalise(rules[i]))
  }

  lemma {:induction false} SameTable(rules: seq<Rule>)
    ensures BuildTable(NormaliseAll(rules)) == BuildTable(rules)
    decreases |rules|
  {
    if rules != [] {
      var n := |rules| - 1;
      SameTable(rules[..n]);
      assert NormaliseAll(rules)[..n] == NormaliseAll(rules[..n]);
      NormaliseMeaning(rules[n], 0);
      NormaliseMeaning(Normalise(rules[n]), 0);
    }
  }

  lemma NormaliseKeepsOrder(rules: seq<Rule>)
    requires Sorted(rules) && Positive(rules)
    ensures Sorted(NormaliseAll(rules)) && Positive(NormaliseAll(rules))
    ensures forall n | n in NormaliseAll(rules) :: Normalised(n)
  {
    var ns := NormaliseAll(rules);
    forall n | n in ns ensures n.priority > 0 && Normalised(n) {
      var i :| 0 <= i < |rules| && ns[i] == n;
      assert rules[i] in rules;
      NormaliseMeaning(rules[i], 0);
    }
  }

  // Some rule with at most 15 expanded wildcards agrees with the key and is as good as the bound.
  ghost predicate FittingWithin(rules: seq<Rule>, key: Word, bound: nat) {
    exists f | f in rules :: Expandable(f.mask) && Agrees(f, key) && f.priority <= bound
  }

  // Every rule that agrees with the key is outdone, or matched, by one that does not blow up.
  ghost predicate AllFitting(rules: seq<Rule>, key: Word) {
    forall r | r in rules && Agrees(r, key) :: FittingWithin(rules, key, r.priority)
  }

  lemma FittingReaches(r: Rule, key: Word)
    ensures Reaches(Normalise(r), key) <==> Expandable(r.mask) && Agrees(r, key)
  {
    NormaliseMeaning(r, key);
    NormalisedIsSafe(Normalise(r));
    SafeCovers(Normalise(r), key);
  }

  // Normalised rules reach what the raw rules that fit agree with.
  lemma NormalisedReached(rules: seq<Rule>, key: Word)
    ensures AllReached(NormaliseAll(rules), key) <==> AllFitting(rules, key)
  {
    var ns := NormaliseAll(rules);
    hide Agrees, Reaches, NormaliseAll;
    forall r ensures Reaches(Normalise(r), key) <==> Expandable(r.mask) && Agrees(r, key) { FittingReaches(r, key); }
    forall r ensures Agrees(Normalise(r), key) <==> Agrees(r, key) { NormaliseMeaning(r, key); }
    forall bound: nat ensures ReachedWithin(ns, key, bound) <==> FittingWithin(rules, key, bound) {
      WithinBound(rules, ns, key, bound);
    }
    if AllReached(ns, key) {
      forall r | r in rules && Agrees(r, key) ensures FittingWithin(rules, key, r.priority) {
        var i :| 0 <= i < |rules| && rules[i] == r;
        assert ns[i] in ns;
      }
    }
    if AllFitting(rules, key) {
      forall n | n in ns && Agrees(n, key) ensures ReachedWithin(ns, key, n.priority) {
        var i :| 0 <= i < |ns| && ns[i] == n;
        assert rules[i] in rules;
      }
    }
  }

  lemma WithinBound(rules: seq<Rule>, ns: seq<Rule>, key: Word, bound: nat)
    requires |ns| == |rules| && forall i | 0 <= i < |rules| :: ns[i] == Normalise(rules[i])
    requires forall r :: Reaches(Normalise(r), key) <==> Expandable(r.mask) && Agrees(r, key)
    ensures ReachedWithin(ns, key, bound) <==> FittingWithin(rules, key, bound)
  {
    hide Agrees, Reaches;
    if ReachedWithin(ns, key, bound) {
      var f :| f in ns && Reaches(f, key) && f.priority <= bound;
      var i :| 0 <= i < |ns| && ns[i] == f;
      assert rules[i] in rules && Expandable(rules[i].mask) && Agrees(rules[i], key);
    }
    if FittingWithin(rules, key, bound) {
      var f :| f in rules && Expandable(f.mask) && Agrees(f, key) && f.priority <= bound;
      var i :| 0 <= i < |rules| && rules[i] == f;
      assert ns[i] in ns && Reaches(ns[i], key);
    }
  }

  /** Inserts every rule into the table and expands what the table hands back into the trie, then
      looks the key up in both. Unless the trie's budget was hit, the answers are equal if and only
      if every agreeing rule is outdone or matched by an agreeing one with at most 15 expanded
      wildcards; and the trie never answers better than the table. */
  method BuildAndSearch(budget: nat, rules: seq<Rule>, key: Word) returns (fast: SearchResult, slow: SearchResult)
    requires Sorted(rules) && Positive(rules)
    ensures IsFirstMatch(BuildTable(rules), key, slow)
    ensures !ExpandAll(budget, NormaliseAll(rules)).failed ==>
              (fast.priority == slow.priority <==> AllFitting(rules, key))
    ensures !ExpandAll(budget, NormaliseAll(rules)).failed && AllFit(rules) ==> fast.priority == slow.priority
    ensures PrefixRules(AllExpanded(NormaliseAll(rules)))
    ensures var needed := |Needed(AllExpanded(NormaliseAll(rules)))|;
            ExpandAll(budget, NormaliseAll(rules)).failed <==> 1 < needed && budget < needed
    ensures fast.priority > 0 ==> 0 < slow.priority <= fast.priority
  {
    hide Best, IsFirstMatch, Needed, AllExpanded, Sorted, Positive, AllFitting, AllFit;
    hide Trie.Shape, Trie.Valid, Lawful, Expand, ExpandAll, TableInsert, BuildTable;
    RunStart(budget);
    var trie := new Trie(budget);
    var table := new LinearTable();
    ghost var ns := NormaliseAll(rules);
    var i := 0;
    assert rules[..0] == [] && ns[..0] == [];
    while i < |rules|
      invariant 0 <= i <= |rules|
      invariant trie.Valid() && fresh(trie) && fresh(trie.repr) && trie.threshold == budget
      invariant table.Valid() && fresh(table)
      invariant table.ruleTable == BuildTable(rules[..i])
      invariant trie.State() == ExpandAll(budget, ns[..i]).state
    {
      RunStep(budget, ns, i);
      TableStep(rules, i);
      var updated := table.InsertRule(rules[i]);
      trie.ExpandRule(updated);
      i := i + 1;
    }
    assert rules[..i] == rules && ns[..i] == ns;
    fast := trie.LPM1SearchRule(key);
    slow := table.SearchRule(key);
    SameAnswers(budget, rules, key, fast.priority, slow);
  }

  lemma RunStart(budget: nat)
    ensures ExpandAll(budget, []).state == FRESH && BuildTable([]) == []
  {
  }

  lemma RunStep(budget: nat, rules: seq<Rule>, i: nat)
    requires i < |rules|
    ensures ExpandAll(budget, rules[..i + 1]).state == Expand(ExpandAll(budget, rules[..i]).state, budget, rules[i]).state
  {
    assert rules[..i + 1][..i] == rules[..i];
  }

  lemma TableStep(rules: seq<Rule>, i: nat)
    requires i < |rules|
    ensures BuildTable(rules[..i + 1]) == TableInsert(BuildTable(rules[..i]), rules[i])
  {
    assert rules[..i + 1][..i] == rules[..i];
  }

  lemma SameAnswers(budget: nat, rules: seq<Rule>, key: Word, fast: nat, slow: SearchResult)
    requires Sorted(rules) && Positive(rules)
    requires IsFirstMatch(BuildTable(rules), key, slow)
    requires fast == Best(ExpandAll(budget, NormaliseAll(rules)).state.tree, KeyPath(key), 64)
    ensures !ExpandAll(budget, NormaliseAll(rules)).failed ==> (fast == slow.priority <==> AllFitting(rules, key))
    ensures AllFit(rules) ==> AllFitting(rules, key)
    ensures PrefixRules(AllExpanded(NormaliseAll(rules)))
    ensures var needed := |Needed(AllExpanded(NormaliseAll(rules)))|;
            ExpandAll(budget, NormaliseAll(rules)).failed <==> 1 < needed && budget < needed
    ensures fast > 0 ==> 0 < slow.priority <= fast
  {
    var ns := NormaliseAll(rules);
    hide ExpandAll, Best, BuildTable, IsFirstMatch, KeyPath, Needed, AllExpanded, NormaliseAll;
    SameTable(rules);
    NormaliseKeepsOrder(rules);
    NormalisedReached(rules, key);
    NeededBudgetExact(budget, ns);
    TrieNeverBeatsTable(budget, ns, key, slow);
    if !ExpandAll(budget, ns).failed { TrieRefinesLinearTable(budget, ns, key, slow); }
  }

  // ---------- One matcher alone ----------

  /** Inserts the rules into the table, in any order of priorities, and searches it: the answer is
      the first inserted rule that agrees with the key. */
  method FillTable(rules: seq<Rule>, key: Word) returns (ret: SearchResult)
    ensures (forall r | r in rules :: !Agrees(r, key)) ==> ret == SearchResult(0, 0, |Entries(rules)|)
    ensures forall f: nat | f < |rules| && Agrees(rules[f], key) && (forall i | 0 <= i < f :: !Agrees(rules[i], key)) ::
              ret == SearchResult(rules[f].priority, rules[f].action, 1 + |Entries(rules[..f])|)
  {
    hide Agrees, Lawful, TableInsert, BuildTable, IsFirstMatch, Entries;
    RunStart(0);
    var table := new LinearTable();
    var i := 0;
    assert rules[..0] == [];
    while i < |rules|
      invariant 0 <= i <= |rules|
      invariant table.Valid() && fresh(table)
      invariant table.ruleTable == BuildTable(rules[..i])
    {
      TableStep(rules, i);
      var updated := table.InsertRule(rules[i]);
      i := i + 1;
    }
    assert rules[..i] == rules;
    ret := table.SearchRule(key);
    if forall r | r in rules :: !Agrees(r, key) {
      NoArrivalMisses(rules, key);
      FirstMatchUnique(BuildTable(rules), key, ret, SearchResult(0, 0, |Entries(rules)|));
    }
    forall f: nat | f < |rules| && Agrees(rules[f], key) && (forall i | 0 <= i < f :: !Agrees(rules[i], key))
      ensures ret == SearchResult(rules[f].priority, rules[f].action, 1 + |Entries(rules[..f])|)
    {
      FirstArrivalWins(rules, key, f);
      FirstMatchUnique(BuildTable(rules), key, ret,
                       SearchResult(rules[f].priority, rules[f].action, 1 + |Entries(rules[..f])|));
    }
  }

  /** Expands the rules into single keys on a fresh trie and looks a key up: the answer is the number
      of the key's last insertion. */
  method FillKeys(budget: nat, rules: seq<Rule>, key: Word) returns (ret: SearchResult, found: bool)
    requires AllDefined(rules) && KeyTotal(rules) < TWO32
    ensures ret.priority == Arrival(rules, key)
    ensures found <==> exists r :: r in rules && Generated(r, key)
  {
    hide Trie.Shape, Trie.Valid, InsertKeys, ConvertedKeys, Generated, KeyNumber, LargerKeys, PriorityAt, Best, KeyPath;
    var trie := new Trie(budget);
    var i := 0;
    assert rules[..0] == [];
    while i < |rules|
      invariant 0 <= i <= |rules|
      invariant trie.Valid() && fresh(trie) && fresh(trie.repr)
      invariant trie.State() == InsertRules(rules[..i])
    {
      assert rules[i] in rules;
      assert rules[..i + 1][..i] == rules[..i];
      trie.InsertRule(rules[i]);
      i := i + 1;
    }
    assert rules[..i] == rules;
    LastInsertionWins(rules, key);
    ArrivalExists(rules, key);
    ret := trie.LPM1SearchRule(key);
    found := trie.SearchRule(key);
  }

  lemma {:induction false} ArrivalExists(rules: seq<Rule>, key: Word)
    ensures Arrival(rules, key) > 0 <==> exists r :: r in rules && Generated(r, key)
    decreases |rules|
  {
    if rules != [] {
      hide Generated;
      var n := |rules| - 1;
      ArrivalExists(rules[..n], key);
      assert forall r :: r in rules <==> r in rules[..n] || r == rules[n];
    }
  }

  // ---------- Both modes on one trie ----------

  /** Plays the calls on one trie, then looks the key up in both modes. */
  method ServeCalls(budget: nat, calls: seq<Call>, key: Word) returns (best: SearchResult, found: bool)
    requires Positive(PrefixPart(calls))
    ensures var s := RunCalls(budget, calls);
            && best.priority == Best(s.tree, KeyPath(key), 64)
            && (found <==> Found(s.tree, key))
            && (key !in NamedKeys(calls) ==> IsBestPriority(s.table, key, best.priority))
            && (NotWhole(s.table, key) && Inserts(ExactPart(calls)) + |s.table| < TWO32 ==>
                  (found <==> key in LiveKeys(ExactPart(calls))))
  {
    hide Best, Trie.Shape, Trie.Valid, Expand, InsertOne, Delete, NotWhole, Found;
    var trie := new Trie(budget);
    var i := 0;
    assert calls[..0] == [];
    while i < |calls|
      invariant 0 <= i <= |calls|
      invariant trie.Valid() && fresh(trie) && fresh(trie.repr) && trie.threshold == budget
      invariant trie.State() == RunCalls(budget, calls[..i])
    {
      assert calls[..i + 1][..i] == calls[..i];
      match calls[i] {
        case Prefix(rule) => trie.ExpandRule(rule);
        case Exact(op) =>
          if op.Insert? {
            trie.InsertRuleValue(op.key);
          } else {
            trie.DeleteRule(op.key);
          }
      }
      i := i + 1;
    }
    assert calls[..i] == calls;
    ModesApart(budget, calls, key);
    best := trie.LPM1SearchRule(key);
    found := trie.SearchRule(key);
  }
}
