/** The trie agrees with the linear table on every key. */
module Refinement {
  import opened Words
  import opened Rules
  import opened Expansion
  import opened PrefixTree
  import opened PriorityTrie
  import opened SkippingTrie
  import opened LongestPrefix
  import opened LinearTable

  // The rule is represented by an entry at least as good.
  ghost predicate Kept(ts: seq<Rule>, r: Rule) {
    exists e | e in ts :: SameEntry(e, Normalise(r)) && e.priority <= r.priority
  }

  ghost predicate Represents(ts: seq<Rule>, rules: seq<Rule>) {
    && (forall e | e in ts :: From(rules, e))
    && (forall r | r in rules :: Kept(ts, r))
    && Sorted(ts)
  }

  lemma {:induction false} BuiltTableRepresents(rules: seq<Rule>)
    requires Sorted(rules)
    ensures Represents(BuildTable(rules), rules)
    decreases |rules|
  {
    if rules != [] {
      hide Represents, TableInsert, Sorted;
      var front, last := rules[..|rules| - 1], rules[|rules| - 1];
      SortedFront(rules);
      BuiltTableRepresents(front);
      InsertRepresents(BuildTable(front), front, last);
      assert front + [last] == rules;
    }
  }

  lemma SortedFront(rules: seq<Rule>)
    requires rules != [] && Sorted(rules)
    ensures Sorted(rules[..|rules| - 1])
    ensures forall q | q in rules[..|rules| - 1] :: q.priority <= rules[|rules| - 1].priority
  {
  }

  lemma InsertRepresents(ts: seq<Rule>, rules: seq<Rule>, r: Rule)
    requires Represents(ts, rules) && forall q | q in rules :: q.priority <= r.priority
    ensures Represents(TableInsert(ts, r), rules + [r])
  {
    var us, all := TableInsert(ts, r), rules + [r];
    forall e | e in ts ensures e.priority <= r.priority { EntryBound(ts, rules, r, e); }
    InsertSorted(ts, r);
    NewRuleKept(ts, r);
    forall e | e in us ensures From(all, e) { InsertFrom(ts, rules, r, e); }
    forall q | q in all ensures Kept(us, q) {
      if q in rules { KeptMonotone(ts, us, q); }
    }
  }

  lemma InsertSorted(ts: seq<Rule>, r: Rule)
    requires Sorted(ts) && forall e | e in ts :: e.priority <= r.priority
    ensures ts <= TableInsert(ts, r) && Sorted(TableInsert(ts, r))
  {
  }

  lemma InsertFrom(ts: seq<Rule>, rules: seq<Rule>, r: Rule, e: Rule)
    requires e in TableInsert(ts, r) && forall q | q in ts :: From(rules, q)
    ensures From(rules + [r], e)
  {
    if e in ts { FromMonotone(rules, r, e); } else { assert r in rules + [r]; }
  }

  lemma NewRuleKept(ts: seq<Rule>, r: Rule)
    requires forall e | e in ts :: e.priority <= r.priority
    ensures Kept(TableInsert(ts, r), r)
  {
    if Listed(ts, Normalise(r)) {
      var i :| 0 <= i < |ts| && SameEntry(ts[i], Normalise(r));
      assert ts[i] in ts;
    } else {
      assert Normalise(r) in ts + [Normalise(r)];
    }
  }

  lemma KeptMonotone(ts: seq<Rule>, us: seq<Rule>, r: Rule)
    requires Kept(ts, r) && ts <= us
    ensures Kept(us, r)
  {
    var e :| e in ts && SameEntry(e, Normalise(r)) && e.priority <= r.priority;
    assert e in us;
  }

  lemma EntryBound(ts: seq<Rule>, rules: seq<Rule>, r: Rule, e: Rule)
    requires From(rules, e) && forall q | q in rules :: q.priority <= r.priority
    ensures e.priority <= r.priority
  {
    var q :| q in rules && Normalise(q) == e;
  }

  // A matching entry is a rule that agrees with the key.
  lemma EntryIsRule(rules: seq<Rule>, e: Rule, key: Word) returns (q: Rule)
    requires From(rules, e) && Matches(e, key)
    ensures q in rules && Agrees(q, key) && q.priority == e.priority
  {
    q :| q in rules && Normalise(q) == e;
    MatchesMeaning(e, key);
    NormaliseMeaning(q, key);
  }

  // A rule that agrees with the key has a matching entry that is at least as good.
  lemma RuleHasEntry(ts: seq<Rule>, r: Rule, key: Word) returns (i: nat)
    requires Kept(ts, r) && Agrees(r, key)
    ensures i < |ts| && Matches(ts[i], key) && ts[i].priority <= r.priority
  {
    var e :| e in ts && SameEntry(e, Normalise(r)) && e.priority <= r.priority;
    i :| 0 <= i < |ts| && ts[i] == e;
    NormaliseMeaning(r, key);
    MatchesMeaning(Normalise(r), key);
  }

  /** With rules in non-decreasing positive priority, the table's first match carries the best
      priority among all the rules that agree with the key, duplicates included. */
  lemma TableAnswersBest(rules: seq<Rule>, key: Word, ret: SearchResult)
    requires Sorted(rules) && Positive(rules)
    requires IsFirstMatch(BuildTable(rules), key, ret)
    ensures IsBestPriority(rules, key, ret.priority)
  {
    var ts := BuildTable(rules);
    BuiltTableRepresents(rules);
    if forall i | 0 <= i < |ts| :: !Matches(ts[i], key) {
      MissIsNone(ts, rules, key);
    } else {
      var f :| 0 <= f < |ts| && Matches(ts[f], key) && ret == SearchResult(ts[f].priority, ts[f].action, f + 1)
        && forall j | 0 <= j < f :: !Matches(ts[j], key);
      HitIsBest(ts, rules, key, f);
    }
  }

  lemma MissIsNone(ts: seq<Rule>, rules: seq<Rule>, key: Word)
    requires Represents(ts, rules) && forall i | 0 <= i < |ts| :: !Matches(ts[i], key)
    ensures IsBestPriority(rules, key, 0)
  {
    forall r | r in rules ensures !Agrees(r, key) {
      if Agrees(r, key) { var i := RuleHasEntry(ts, r, key); }
    }
  }

  lemma HitIsBest(ts: seq<Rule>, rules: seq<Rule>, key: Word, f: nat)
    requires Represents(ts, rules) && Positive(rules)
    requires f < |ts| && Matches(ts[f], key) && forall j | 0 <= j < f :: !Matches(ts[j], key)
    ensures IsBestPriority(rules, key, ts[f].priority)
  {
    hide Agrees, Matches, From, Kept;
    assert ts[f] in ts;
    var q := EntryIsRule(rules, ts[f], key);
    assert Answers(rules, key, ts[f].priority);
    forall r | r in rules && Agrees(r, key) ensures ts[f].priority <= r.priority {
      var i := RuleHasEntry(ts, r, key);
    }
  }

  ghost predicate AllFit(rules: seq<Rule>) {
    forall r | r in rules :: Expandable(r.mask)
  }

  // ---------- Exactly when the two matchers agree ----------

  // Some listed rule agrees with the key and is at least as good as the bound.
  ghost predicate AnsweredWithin(rs: seq<Rule>, key: Word, bound: nat) {
    exists f | f in rs :: Agrees(f, key) && f.priority <= bound
  }

  // Every rule that agrees with the key is answered by a listed rule at least as good.
  ghost predicate AllAnswered(listed: seq<Rule>, rules: seq<Rule>, key: Word) {
    forall r | r in rules && Agrees(r, key) :: AnsweredWithin(listed, key, r.priority)
  }

  // Some rule whose expansion reaches the key is at least as good as the bound.
  ghost predicate ReachedWithin(rules: seq<Rule>, key: Word, bound: nat) {
    exists f | f in rules :: Reaches(f, key) && f.priority <= bound
  }

  // Every rule that agrees with the key is outdone, or matched, by one that reaches it: something
  // to check on the rules before any of them is inserted.
  ghost predicate AllReached(rules: seq<Rule>, key: Word) {
    forall r | r in rules && Agrees(r, key) :: ReachedWithin(rules, key, r.priority)
  }

  // Two priority searches, one offering only priorities that the other offers as well.
  lemma SameBestExact(listed: seq<Rule>, rules: seq<Rule>, key: Word, m: nat, n: nat)
    requires IsBestPriority(listed, key, m) && IsBestPriority(rules, key, n)
    requires forall x: nat :: Answers(listed, key, x) ==> Answers(rules, key, x)
    ensures m == n <==> AllAnswered(listed, rules, key)
  {
    hide Agrees;
    if m == n {
      forall r | r in rules && Agrees(r, key) ensures AnsweredWithin(listed, key, r.priority) {
        var f :| f in listed && Agrees(f, key) && f.priority == m;
      }
    }
    if AllAnswered(listed, rules, key) && n > 0 {
      var r :| r in rules && Agrees(r, key) && r.priority == n;
      assert AnsweredWithin(listed, key, n);
      assert m > 0 && Answers(rules, key, m);
    }
  }

  /** Under any budget, blown-up rules, stray value bits and half-expanded rules included, the trie
      answers a key as the table's first match does if and only if every rule agreeing with the key
      is answered by a recorded expanded rule at least as good. */
  lemma RefinementExact(threshold: nat, rules: seq<Rule>, key: Word, ret: SearchResult)
    requires Sorted(rules) && Positive(rules)
    requires IsFirstMatch(BuildTable(rules), key, ret)
    ensures Best(ExpandAll(threshold, rules).state.tree, KeyPath(key), 64) == ret.priority
            <==> AllAnswered(ExpandAll(threshold, rules).state.table, rules, key)
  {
    var s := ExpandAll(threshold, rules).state;
    TableAnswersBest(rules, key, ret);
    LookupMatchesRecordedRules(threshold, rules, key);
    forall m: nat | Answers(s.table, key, m) ensures Answers(rules, key, m) {
      RecordedAnswers(threshold, rules, key, m);
    }
    SameBestExact(s.table, rules, key, Best(s.tree, KeyPath(key), 64), ret.priority);
  }

  // In an unfailed run the recorded rules answer a key exactly as the reaching rules do.
  lemma CompleteRunAnswers(threshold: nat, rules: seq<Rule>, key: Word, bound: nat)
    requires !ExpandAll(threshold, rules).failed
    ensures AnsweredWithin(ExpandAll(threshold, rules).state.table, key, bound) <==> ReachedWithin(rules, key, bound)
  {
    hide Agrees, Reaches;
    CompleteRunTable(threshold, rules);
    var table := ExpandAll(threshold, rules).state.table;
    if AnsweredWithin(table, key, bound) {
      var f :| f in table && Agrees(f, key) && f.priority <= bound;
      ExpandedAnswers(rules, key, f.priority);
      assert Answers(table, key, f.priority);
    }
    if ReachedWithin(rules, key, bound) {
      var f :| f in rules && Reaches(f, key) && f.priority <= bound;
      ExpandedAnswers(rules, key, f.priority);
      assert ReachedWith(rules, key, f.priority);
    }
  }

  lemma BudgetNotHit(threshold: nat, rules: seq<Rule>)
    requires PrefixRules(AllExpanded(rules)) && |Reference(AllExpanded(rules))| <= threshold
    ensures !ExpandAll(threshold, rules).failed
  {
    ReferenceHosts(AllExpanded(rules));
    RunWithin(threshold, rules, Reference(AllExpanded(rules)));
  }

  /** End to end: for rules in non-decreasing positive priority and a budget that holds the
      reference trie, or was never hit, the trie answers a key as the linear table does, misses
      included, if and only if every agreeing rule is outdone or matched by one whose expansion
      reaches the key. Rules with at most 15 wildcards above the suffix and no stray value bits
      there reach every key they agree with, so runs of them answer every key as the table does. */
  lemma TrieRefinesLinearTable(threshold: nat, rules: seq<Rule>, key: Word, ret: SearchResult)
    requires Sorted(rules) && Positive(rules)
    requires !ExpandAll(threshold, rules).failed
             || (PrefixRules(AllExpanded(rules)) && |Reference(AllExpanded(rules))| <= threshold)
    requires IsFirstMatch(BuildTable(rules), key, ret)
    ensures Best(ExpandAll(threshold, rules).state.tree, KeyPath(key), 64) == ret.priority <==> AllReached(rules, key)
    ensures AllFit(rules) && AllSafe(rules) ==>
              Best(ExpandAll(threshold, rules).state.tree, KeyPath(key), 64) == ret.priority
  {
    hide ExpandAll, Best, BuildTable, IsFirstMatch, KeyPath, Agrees, Reaches, AllExpanded, Reference, ReachedWithin, AnsweredWithin;
    hide Sorted, Positive;
    if ExpandAll(threshold, rules).failed { BudgetNotHit(threshold, rules); }
    RefinementExact(threshold, rules, key, ret);
    forall bound: nat
      ensures AnsweredWithin(ExpandAll(threshold, rules).state.table, key, bound) <==> ReachedWithin(rules, key, bound)
    {
      CompleteRunAnswers(threshold, rules, key, bound);
    }
    if AllFit(rules) && AllSafe(rules) { SafeRulesReach(rules, key); }
  }

  lemma SafeRulesReach(rules: seq<Rule>, key: Word)
    requires AllFit(rules) && AllSafe(rules)
    ensures AllReached(rules, key)
  {
    forall r | r in rules && Agrees(r, key) ensures ReachedWithin(rules, key, r.priority) {
      SafeCovers(r, key);
      assert Reaches(r, key);
    }
  }

  /** For a single rule every condition is needed: under any budget the two matchers agree on
      every key if and only if the rule is expanded at all, no value bit is set at an expanded
      position, and the budget was not hit. */
  lemma SingleRuleExact(threshold: nat, r: Rule)
    requires r.priority > 0
    ensures (forall key: Word, ret | IsFirstMatch(BuildTable([r]), key, ret) ::
               Best(ExpandAll(threshold, [r]).state.tree, KeyPath(key), 64) == ret.priority)
            <==> Expandable(r.mask) && ExpansionSafe(r) && !ExpandAll(threshold, [r]).failed
  {
    hide ExpandAll, BuildTable, Best, IsFirstMatch, KeyPath, Agrees;
    if Expandable(r.mask) && ExpansionSafe(r) && !ExpandAll(threshold, [r]).failed {
      SingleRuleConditions(r);
      forall key: Word, ret | IsFirstMatch(BuildTable([r]), key, ret)
        ensures Best(ExpandAll(threshold, [r]).state.tree, KeyPath(key), 64) == ret.priority
      {
        TrieRefinesLinearTable(threshold, [r], key, ret);
      }
    } else {
      var key := SingleRuleUnanswered(threshold, r);
      SingleRuleTable(r, key);
      LookupMatchesRecordedRules(threshold, [r], key);
      assert IsFirstMatch(BuildTable([r]), key, SearchResult(r.priority, r.action, 1));
    }
  }

  lemma SingleRuleConditions(r: Rule)
    requires r.priority > 0 && Expandable(r.mask) && ExpansionSafe(r)
    ensures Sorted([r]) && Positive([r]) && AllSafe([r]) && AllFit([r])
  {
  }

  lemma SingleRuleTable(r: Rule, key: Word)
    requires Agrees(r, key)
    ensures IsFirstMatch(BuildTable([r]), key, SearchResult(r.priority, r.action, 1))
  {
    NormaliseMeaning(r, key);
    MatchesMeaning(Normalise(r), key);
    assert BuildTable([r]) == [Normalise(r)];
    assert Matches([Normalise(r)][0], key);
  }

  // Some agreeing key of the rule is answered by nothing recorded.
  lemma SingleRuleUnanswered(threshold: nat, r: Rule) returns (key: Word)
    requires !(Expandable(r.mask) && ExpansionSafe(r) && !ExpandAll(threshold, [r]).failed)
    ensures Agrees(r, key) && forall e | e in ExpandAll(threshold, [r]).state.table :: !Agrees(e, key)
  {
    FitsMeaning(r);
    hide ExpandAll, Agrees, Expandable;
    var n := SingleRuleRun(threshold, r);
    var es := OfferedFor(r);
    if !Fits(r) {
      key := r.value;
      AgreesWithItself(r);
    } else if !ExpansionSafe(r) {
      AllOnesBlowsUp();
      key := UnsafeKeyMissed(r);
      assert forall i: nat | i < |es| :: es[i] == ExpandedRule(r, i);
    } else {
      AllOnesBlowsUp();
      key := ExpandedRule(r, n).value;
      AgreesWithItself(ExpandedRule(r, n));
      ExpansionSound(r, n, key);
      forall i: nat | i < n ensures !Agrees(es[..n][i], key) {
        if Agrees(es[i], key) { ExpansionDisjoint(r, i, n, key); }
      }
    }
  }

  lemma AgreesWithItself(r: Rule)
    ensures Agrees(r, r.value)
  {
  }

  // Rules that went through the table first are normalised, and so safe to expand.
  lemma NormalisedRunsRefine(threshold: nat, rules: seq<Rule>, key: Word, ret: SearchResult)
    requires Sorted(rules) && Positive(rules) && forall r | r in rules :: Normalised(r)
    requires AllFit(rules)
    requires !ExpandAll(threshold, rules).failed
             || (PrefixRules(AllExpanded(rules)) && |Reference(AllExpanded(rules))| <= threshold)
    requires IsFirstMatch(BuildTable(rules), key, ret)
    ensures Best(ExpandAll(threshold, rules).state.tree, KeyPath(key), 64) == ret.priority
  {
    forall r | r in rules ensures ExpansionSafe(r) { NormalisedIsSafe(r); }
    TrieRefinesLinearTable(threshold, rules, key, ret);
  }

  /** Under any budget, with rules blown up, half expanded or carrying stray value bits, a hit of
      the trie is the priority of an agreeing rule, and the table has a hit at least as good. */
  lemma TrieNeverBeatsTable(threshold: nat, rules: seq<Rule>, key: Word, ret: SearchResult)
    requires Sorted(rules) && Positive(rules)
    requires IsFirstMatch(BuildTable(rules), key, ret)
    ensures var m := Best(ExpandAll(threshold, rules).state.tree, KeyPath(key), 64);
            m > 0 ==> Answers(rules, key, m) && 0 < ret.priority <= m
  {
    TableAnswersBest(rules, key, ret);
    HitsAreReal(threshold, rules, key, ret.priority);
  }

  // ---------- The inputs that miss ----------

  /** A rule with more than 15 expanded wildcards alone: whatever the budget, every key that agrees
      with it misses in the trie and hits in the table. */
  lemma BlownUpMisses(threshold: nat, r: Rule, key: Word)
    requires r.priority > 0 && !Expandable(r.mask) && Agrees(r, key)
    ensures Best(ExpandAll(threshold, [r]).state.tree, KeyPath(key), 64) == 0
    ensures IsFirstMatch(BuildTable([r]), key, SearchResult(r.priority, r.action, 1))
  {
    FitsMeaning(r);
    assert [r][..0] == [];
    assert ExpandAll(threshold, [r]).state == FRESH;
    BestOfEmpty(KeyPath(key), 64);
    SingleRuleTable(r, key);
  }

  /** The cut-off: a normalised rule alone, in a run that did not hit its budget, with lowest clear
      mask bit b. Up to 15 wildcards above b it is found on every key that agrees with it, from 16
      on it is found on none. */
  lemma CutOffAtFifteen(threshold: nat, r: Rule, b: nat, key: Word)
    requires Normalised(r) && r.priority > 0 && Agrees(r, key) && !ExpandAll(threshold, [r]).failed
    requires b < 64 && !Bit(r.mask, b) && forall i: nat | i < b :: Bit(r.mask, i)
    ensures Best(ExpandAll(threshold, [r]).state.tree, KeyPath(key), 64) ==
            if |set p: nat | b < p < 64 && Bit(r.mask, p)| <= 15 then r.priority else 0
  {
    WildcardsAbove(r.mask, b);
    hide ExpandedWildcards, Agrees, Normalised, IsFirstMatch, BuildTable, Best, ExpandAll, KeyPath;
    if Expandable(r.mask) {
      NormalisedIsSafe(r);
      SingleRuleTable(r, key);
      SingleRuleExact(threshold, r);
    } else {
      BlownUpMisses(threshold, r, key);
    }
  }

  /** A budget that is used up by the first expanded rule leaves the rule half expanded: the keys
      of the first prefix rule hit, and every other key that agrees with the rule misses. */
  lemma HalfExpandedMisses(r: Rule, key: Word)
    requires r.priority > 0 && Expandable(r.mask) && ExpandedWildcards(r.mask) > 0 && ExpansionSafe(r) && Agrees(r, key)
    ensures var o := ExpandAll(1 + |RulePath(ExpandedRule(r, 0))|, [r]);
            && o.failed
            && o.state.table == [ExpandedRule(r, 0)]
            && Best(o.state.tree, KeyPath(key), 64) ==
               if Agrees(ExpandedRule(r, 0), key) then r.priority else 0
    ensures Agrees(r, ExpandedRule(r, 1).value) && !Agrees(ExpandedRule(r, 0), ExpandedRule(r, 1).value)
    ensures IsFirstMatch(BuildTable([r]), key, SearchResult(r.priority, r.action, 1))
  {
    FitsMeaning(r);
    NewNumMeaning(r.mask);
    hide ExpandedWildcards;
    var e := ExpandedRule(r, 0);
    var threshold := 1 + |RulePath(e)|;
    HalfExpansion(r);
    SingleRuleTable(r, key);
    LookupMatchesRecordedRules(threshold, [r], key);
    var s := ExpandAll(threshold, [r]).state;
    assert e in s.table;
    BestPriorityUnique(s.table, key, Best(s.tree, KeyPath(key), 64), if Agrees(e, key) then r.priority else 0);
  }

  lemma SecondRuleApart(r: Rule)
    requires r.mask != ALL_ONES && ExpansionSafe(r) && NewNum(r.mask) > 0
    ensures var e, f := ExpandedRule(r, 0), ExpandedRule(r, 1);
            && Agrees(r, f.value) && !Agrees(e, f.value)
            && |RulePath(e)| == |RulePath(f)| && RulePath(e) != RulePath(f)
  {
    var e, f := ExpandedRule(r, 0), ExpandedRule(r, 1);
    assert Agrees(f, f.value);
    ExpansionSound(r, 1, f.value);
    assert Pow2(NewNum(r.mask)) >= 2;
    if Agrees(e, f.value) { ExpansionDisjoint(r, 0, 1, f.value); }
    ExpandedPath(r, 0, f.value);
    ExpandedPath(r, 1, f.value);
  }

  lemma HalfExpansion(r: Rule)
    requires r.priority > 0 && Fits(r) && r.mask != ALL_ONES && ExpansionSafe(r) && NewNum(r.mask) > 0
    ensures var o := ExpandAll(1 + |RulePath(ExpandedRule(r, 0))|, [r]);
            o.failed && o.state.table == [ExpandedRule(r, 0)]
    ensures Agrees(r, ExpandedRule(r, 1).value) && !Agrees(ExpandedRule(r, 0), ExpandedRule(r, 1).value)
  {
    var rs, e, f := ExpandedRules(r), ExpandedRule(r, 0), ExpandedRule(r, 1);
    var p, q := RulePath(e), RulePath(f);
    var threshold := 1 + |p|;
    SecondRuleApart(r);
    assert Pow2(NewNum(r.mask)) >= 2;
    assert [r][..0] == [];
    SecondOfferFails(p, q, r.priority);
    var o := Offer(FRESH, threshold, p, r.priority);
    OfferAllStep(FRESH, threshold, rs, 0);
    OfferAllStep(o.state.(table := [e]), threshold, rs, 1);
    assert rs[0..] == rs;
    assert FRESH.table + [e] == [e];
  }

  lemma SecondOfferFails(p: Path, q: Path, priority: nat)
    requires |p| == |q| > 0 && p != q && priority > 0
    ensures var o := Offer(FRESH, 1 + |p|, p, priority);
            && !o.failed
            && forall table :: Offer(o.state.(table := table), 1 + |p|, q, priority).failed
  {
    var t := Stored(EMPTY, p, priority);
    assert !Skipped(EMPTY, p, priority);
    assert Depth(EMPTY, p) == 0 by { EmptyDepth(p); }
    assert q !in t;
    assert forall x :: PriorityAt(t, x) == if x == p then priority else 0;
  }
}
