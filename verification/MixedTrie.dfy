/** One trie used in both modes: calls of `expand_rule`, `insert_rule_value` and `delete_rule` in
    any order, compared with a trie for the prefix rules and another one for the single keys. */
module MixedTrie {
  import opened Words
  import opened Rules
  import opened Expansion
  import opened PrefixTree
  import opened PriorityTrie
  import opened ExactTrie

  datatype Call = Prefix(rule: Rule) | Exact(op: Op)

  ghost function Apply(s: State, threshold: nat, c: Call): State {
    match c
    case Prefix(rule) => Expand(s, threshold, rule).state
    case Exact(op) => Step(s, op)
  }

  ghost function RunCalls(threshold: nat, calls: seq<Call>): State {
    if calls == [] then FRESH
    else
      var n := |calls| - 1;
      Apply(RunCalls(threshold, calls[..n]), threshold, calls[n])
  }

  // The two kinds of calls, each in order.
  ghost function PrefixPart(calls: seq<Call>): seq<Rule> {
    if calls == [] then []
    else
      var n := |calls| - 1;
      PrefixPart(calls[..n]) + if calls[n].Prefix? then [calls[n].rule] else []
  }

  ghost function ExactPart(calls: seq<Call>): seq<Op> {
    if calls == [] then []
    else
      var n := |calls| - 1;
      ExactPart(calls[..n]) + if calls[n].Exact? then [calls[n].op] else []
  }

  // The keys that single-key calls have named.
  ghost function NamedKeys(calls: seq<Call>): set<Word> {
    if calls == [] then {}
    else
      var n := |calls| - 1;
      NamedKeys(calls[..n]) + if calls[n].Exact? then {calls[n].op.key} else {}
  }

  // No recorded prefix rule is the whole key.
  ghost predicate NotWhole(table: seq<Rule>, key: Word) {
    forall r | r in table :: r.mask != ALL_ONES && RulePath(r) != KeyPath(key)
  }

  // ---------- Single-key calls seen from elsewhere ----------

  // Only the rule at p may differ.
  ghost predicate SameElsewhere(t: Tree, u: Tree, p: Path) {
    forall q | q != p :: PriorityAt(u, q) == PriorityAt(t, q)
  }

  lemma ExactStepLocal(s: State, op: Op)
    requires WellFormed(s.tree)
    ensures WellFormed(Step(s, op).tree) && SameElsewhere(s.tree, Step(s, op).tree, KeyPath(op.key))
    ensures Step(s, op).table == s.table
  {
    var p := KeyPath(op.key);
    var u := Step(s, op).tree;
    if op.Insert? {
      StoredWellFormed(s.tree, p, (s.count + 1) % TWO32);
    } else {
      DeleteWellFormed(s.tree, p);
      DeleteRules(s.tree, p);
      forall q | q != p ensures PriorityAt(u, q) == PriorityAt(s.tree, q) {
        assert q in RuleMap(u) <==> q in RuleMap(s.tree);
      }
    }
  }

  lemma BestElsewhere(t: Tree, u: Tree, p: Path, k: Path)
    requires SameElsewhere(t, u, p) && !(p <= k)
    ensures Best(u, k, |k|) == Best(t, k, |k|)
  {
    forall m: nat | 1 <= m <= |k| ensures PriorityAt(u, k[..m]) == PriorityAt(t, k[..m]) { assert k[..m] <= k; }
    BestUnchanged(u, t, k, |k|);
  }

  // ---------- Prefix lookups ----------

  // Keys that no single-key call has named, and all paths too short for one, are answered by the
  // recorded rules alone.
  ghost predicate LookupsApart(s: State, named: set<Word>) {
    && WellFormed(s.tree)
    && SuffixMasks(s.table) && Positive(s.table)
    && (forall k: Path | |k| < 64 :: Best(s.tree, k, |k|) == TableBest(s.table, k))
    && (forall key: Word | key !in named :: Best(s.tree, KeyPath(key), 64) == TableBest(s.table, KeyPath(key)))
  }

  lemma OfferApart(s: State, threshold: nat, r: Rule, named: set<Word>)
    requires LookupsApart(s, named) && r.mask != ALL_ONES && SuffixMask(r) && r.priority > 0
    ensures var o := Offer(s, threshold, RulePath(r), r.priority);
            && (o.failed ==> LookupsApart(o.state, named))
            && (!o.failed ==> LookupsApart(o.state.(table := s.table + [r]), named))
  {
    hide RulePath, SuffixMask;
    var p := RulePath(r);
    var o := Offer(s, threshold, p, r.priority);
    OfferWellFormed(s, threshold, p, r.priority);
    assert o.state.table == s.table;
    var table := s.table + [r];
    assert table[..|s.table|] == s.table;
    hide Offer;
    forall k: Path | Best(s.tree, k, |k|) == TableBest(s.table, k)
      ensures Best(o.state.tree, k, |k|) == TableBest(if o.failed then s.table else table, k)
    {
      OfferLookup(s, threshold, p, r.priority, k);
    }
  }

  lemma {:induction false} OfferAllApart(s: State, threshold: nat, rs: seq<Rule>, named: set<Word>)
    requires PrefixRules(rs) && SuffixMasks(rs) && Positive(rs) && LookupsApart(s, named)
    ensures LookupsApart(OfferAll(s, threshold, rs).state, named)
    decreases |rs|
  {
    if rs != [] {
      hide Offer, LookupsApart, SuffixMask, RulePath;
      var r := rs[0];
      OfferApart(s, threshold, r, named);
      var o := Offer(s, threshold, RulePath(r), r.priority);
      if !o.failed { OfferAllApart(o.state.(table := s.table + [r]), threshold, rs[1..], named); }
    }
  }

  lemma ExactStepApart(s: State, op: Op, named: set<Word>)
    requires LookupsApart(s, named)
    ensures LookupsApart(Step(s, op), named + {op.key})
  {
    var u, p := Step(s, op).tree, KeyPath(op.key);
    ExactStepLocal(s, op);
    hide Step;
    forall k: Path | |k| < 64 ensures Best(u, k, |k|) == Best(s.tree, k, |k|) { BestElsewhere(s.tree, u, p, k); }
    forall key: Word | key != op.key ensures Best(u, KeyPath(key), 64) == Best(s.tree, KeyPath(key), 64) {
      if KeyPath(key) == p { KeyPathInjective(key, op.key); }
      BestElsewhere(s.tree, u, p, KeyPath(key));
    }
  }

  lemma ExpandApart(s: State, threshold: nat, r: Rule, named: set<Word>)
    requires LookupsApart(s, named) && r.priority > 0
    ensures LookupsApart(Expand(s, threshold, r).state, named)
  {
    hide LookupsApart, OfferAll, SuffixMask;
    if Fits(r) {
      ExpandedSuffixMasks(r);
      OfferAllApart(s, threshold, ExpandedRules(r), named);
    }
  }

  lemma FreshApart()
    ensures LookupsApart(FRESH, {})
  {
    forall k: Path ensures Best(EMPTY, k, |k|) == 0 { BestOfEmpty(k, |k|); }
  }

  lemma {:induction false} RunApart(threshold: nat, calls: seq<Call>)
    requires Positive(PrefixPart(calls))
    ensures LookupsApart(RunCalls(threshold, calls), NamedKeys(calls))
    decreases |calls|
  {
    if calls == [] {
      FreshApart();
    } else {
      hide LookupsApart, Step, Expand;
      var n := |calls| - 1;
      var s := RunCalls(threshold, calls[..n]);
      assert PrefixPart(calls[..n]) <= PrefixPart(calls);
      RunApart(threshold, calls[..n]);
      match calls[n]
      case Prefix(rule) =>
        assert rule in PrefixPart(calls);
        ExpandApart(s, threshold, rule, NamedKeys(calls[..n]));
        assert NamedKeys(calls) == NamedKeys(calls[..n]);
      case Exact(op) =>
        ExactStepApart(s, op, NamedKeys(calls[..n]));
    }
  }

  // ---------- Single-key searches ----------

  // Keys that are not whole recorded rules are found exactly when they are live.
  ghost predicate SearchesApart(s: State, live: set<Word>) {
    && WellFormed(s.tree)
    && (forall key: Word | NotWhole(s.table, key) :: Found(s.tree, key) <==> key in live)
  }

  lemma OfferFound(s: State, threshold: nat, r: Rule, live: set<Word>)
    requires SearchesApart(s, live) && r.mask != ALL_ONES
    ensures var o := Offer(s, threshold, RulePath(r), r.priority);
            && o.state.count <= s.count + 1 && o.state.table == s.table
            && (o.failed ==> o.state.count == s.count && SearchesApart(o.state, live))
            && (!o.failed ==> SearchesApart(o.state.(table := s.table + [r]), live))
  {
    var p := RulePath(r);
    var o := Offer(s, threshold, p, r.priority);
    OfferWellFormed(s, threshold, p, r.priority);
    hide RulePath;
    forall key: Word | NotWhole(if o.failed then s.table else s.table + [r], key)
      ensures NotWhole(s.table, key) && (Found(o.state.tree, key) <==> Found(s.tree, key))
    {
      assert forall e | e in s.table :: e in s.table + [r];
      assert !o.failed ==> r in s.table + [r];
    }
  }

  lemma {:induction false} OfferAllFound(s: State, threshold: nat, rs: seq<Rule>, live: set<Word>)
    requires PrefixRules(rs) && SearchesApart(s, live)
    ensures var t := OfferAll(s, threshold, rs).state;
            SearchesApart(t, live) && s.table <= t.table && t.count <= s.count + (|t.table| - |s.table|)
    decreases |rs|
  {
    if rs != [] {
      hide Offer, SearchesApart, RulePath;
      var r := rs[0];
      OfferFound(s, threshold, r, live);
      var o := Offer(s, threshold, RulePath(r), r.priority);
      if !o.failed { OfferAllFound(o.state.(table := s.table + [r]), threshold, rs[1..], live); }
    }
  }

  lemma ExactStepFound(s: State, op: Op, live: set<Word>)
    requires SearchesApart(s, live) && (op.Insert? ==> s.count + 1 < TWO32)
    ensures SearchesApart(Step(s, op), LiveStep(live, op))
    ensures Step(s, op).count == s.count + if op.Insert? then 1 else 0
  {
    ExactStepLocal(s, op);
    forall key: Word | NotWhole(s.table, key) ensures Found(Step(s, op).tree, key) <==> key in LiveStep(live, op) {
      if op.Insert? { InsertFound(s, op.key, key); } else { DeleteFound(s.tree, op.key, key); }
    }
  }

  lemma {:induction false} RunFound(threshold: nat, calls: seq<Call>)
    requires Inserts(ExactPart(calls)) + |RunCalls(threshold, calls).table| < TWO32
    ensures var s := RunCalls(threshold, calls);
            && SearchesApart(s, LiveKeys(ExactPart(calls)))
            && s.count <= Inserts(ExactPart(calls)) + |s.table|
    decreases |calls|
  {
    if calls != [] {
      hide SearchesApart, OfferAll;
      var n := |calls| - 1;
      var s, ops := RunCalls(threshold, calls[..n]), ExactPart(calls[..n]);
      TableGrows(s, threshold, calls[n]);
      match calls[n]
      case Prefix(rule) =>
        assert ExactPart(calls) == ops;
        RunFound(threshold, calls[..n]);
        if Fits(rule) { OfferAllFound(s, threshold, ExpandedRules(rule), LiveKeys(ops)); }
      case Exact(op) =>
        assert ExactPart(calls)[..|ops|] == ops && ExactPart(calls)[|ops|] == op;
        RunFound(threshold, calls[..n]);
        ExactStepFound(s, op, LiveKeys(ops));
    }
  }

  lemma TableGrows(s: State, threshold: nat, c: Call)
    ensures s.table <= Apply(s, threshold, c).table
  {
    if c.Prefix? && Fits(c.rule) { var n := OfferAllTable(s, threshold, ExpandedRules(c.rule)); }
  }

  // ---------- Two separate tries ----------

  // No prefix call hits the budget.
  ghost predicate NeverHit(threshold: nat, calls: seq<Call>) {
    calls == [] ||
    var n := |calls| - 1;
    && NeverHit(threshold, calls[..n])
    && (calls[n].Prefix? ==> !Expand(RunCalls(threshold, calls[..n]), threshold, calls[n].rule).failed)
  }

  lemma {:induction false} CompleteCallsTable(threshold: nat, calls: seq<Call>)
    requires NeverHit(threshold, calls)
    ensures RunCalls(threshold, calls).table == AllExpanded(PrefixPart(calls))
    decreases |calls|
  {
    if calls != [] {
      hide OfferAll;
      var n := |calls| - 1;
      var s, rules := RunCalls(threshold, calls[..n]), PrefixPart(calls[..n]);
      CompleteCallsTable(threshold, calls[..n]);
      match calls[n]
      case Prefix(rule) =>
        assert PrefixPart(calls)[..|rules|] == rules;
        if Fits(rule) {
          var es := ExpandedRules(rule);
          var m := OfferAllTable(s, threshold, es);
          assert es[..m] == es;
        }
      case Exact(op) =>
        assert PrefixPart(calls) == rules;
    }
  }

  /** The modes do not disturb each other's answers. In every state the calls can reach, under any
      budget, a priority lookup of a key that no single-key call named answers the best recorded
      rule that agrees with it; any other key that is not a whole recorded rule answers the better
      of that and its own entry; and `search_rule` on such a key answers membership in the set of
      live keys, as long as the 32-bit count cannot have wrapped. */
  lemma ModesApart(threshold: nat, calls: seq<Call>, key: Word)
    requires Positive(PrefixPart(calls))
    ensures var s := RunCalls(threshold, calls);
            && (key !in NamedKeys(calls) ==> IsBestPriority(s.table, key, Best(s.tree, KeyPath(key), 64)))
            && (NotWhole(s.table, key) ==>
                  Best(s.tree, KeyPath(key), 64) ==
                  Better(TableBest(s.table, KeyPath(key)), PriorityAt(s.tree, KeyPath(key))))
            && (NotWhole(s.table, key) && Inserts(ExactPart(calls)) + |s.table| < TWO32 ==>
                  (Found(s.tree, key) <==> key in LiveKeys(ExactPart(calls))))
  {
    var s, k := RunCalls(threshold, calls), KeyPath(key);
    RunApart(threshold, calls);
    TableBestMeaning(s.table, key);
    if NotWhole(s.table, key) {
      OwnEntry(s, NamedKeys(calls), key);
      if Inserts(ExactPart(calls)) + |s.table| < TWO32 { RunFound(threshold, calls); }
    }
  }

  lemma OwnEntry(s: State, named: set<Word>, key: Word)
    requires LookupsApart(s, named) && NotWhole(s.table, key)
    ensures Best(s.tree, KeyPath(key), 64) ==
            Better(TableBest(s.table, KeyPath(key)), PriorityAt(s.tree, KeyPath(key)))
  {
    var k := KeyPath(key);
    var short := k[..63];
    assert k[..64] == k;
    assert Best(s.tree, short, |short|) == TableBest(s.table, short);
    forall m: nat | 1 <= m <= 63 ensures PriorityAt(s.tree, short[..m]) == PriorityAt(s.tree, k[..m]) {
      assert short[..m] == k[..m];
    }
    SamePathBest(s.tree, short, k, 63);
    ShortPathRules(s.table, key);
  }

  lemma {:induction false} SamePathBest(t: Tree, p: Path, k: Path, l: nat)
    requires l <= |p| && l <= |k| && p[..l] == k[..l]
    ensures Best(t, p, l) == Best(t, k, l)
  {
    if l > 0 {
      assert p[..l - 1] == p[..l][..l - 1] && k[..l - 1] == k[..l][..l - 1];
      SamePathBest(t, p, k, l - 1);
    }
  }

  lemma {:induction false} ShortPathRules(rs: seq<Rule>, key: Word)
    requires NotWhole(rs, key)
    ensures TableBest(rs, KeyPath(key)[..63]) == TableBest(rs, KeyPath(key))
    decreases |rs|
  {
    if rs != [] {
      var n := |rs| - 1;
      var k, p := KeyPath(key), RulePath(rs[n]);
      assert rs[n] in rs && forall r | r in rs[..n] :: r in rs;
      ShortPathRules(rs[..n], key);
      assert k[..64] == k;
      if p <= k { assert p == k[..|p|]; }
    }
  }

  /** One trie serves as two: when no prefix call hits a budget, a key that no single-key call named
      is looked up as in a trie that saw only the prefix rules, and a key that is no whole prefix
      rule is searched for as in a trie that saw only the single keys. */
  lemma OneTrieServesAsTwo(threshold: nat, calls: seq<Call>, budget: nat, key: Word)
    requires Positive(PrefixPart(calls))
    requires NeverHit(threshold, calls) && !ExpandAll(budget, PrefixPart(calls)).failed
    ensures key !in NamedKeys(calls) ==>
              Best(RunCalls(threshold, calls).tree, KeyPath(key), 64) ==
              Best(ExpandAll(budget, PrefixPart(calls)).state.tree, KeyPath(key), 64)
    ensures NotWhole(AllExpanded(PrefixPart(calls)), key)
            && Inserts(ExactPart(calls)) + |AllExpanded(PrefixPart(calls))| < TWO32 ==>
              (Found(RunCalls(threshold, calls).tree, key) <==> Found(Run(ExactPart(calls)).tree, key))
  {
    hide Best, KeyPath, NotWhole, Agrees, ExpandAll, RunCalls, AllExpanded;
    var rules := PrefixPart(calls);
    var table := AllExpanded(rules);
    ModesApart(threshold, calls, key);
    CompleteCallsTable(threshold, calls);
    CompleteRunTable(budget, rules);
    LookupMatchesRecordedRules(budget, rules, key);
    if key !in NamedKeys(calls) {
      BestPriorityUnique(table, key, Best(RunCalls(threshold, calls).tree, KeyPath(key), 64),
                         Best(ExpandAll(budget, rules).state.tree, KeyPath(key), 64));
    }
    if Inserts(ExactPart(calls)) + |table| < TWO32 { RunIsExact(ExactPart(calls)); }
  }
}
