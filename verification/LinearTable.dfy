/** The first-match rule table (`linearTable`), the simple matcher the trie has to agree with. */
module LinearTable {
  import opened Words
  import opened Rules

  // Two rules name the same table entry.
  predicate SameEntry(a: Rule, b: Rule) {
    a.value == b.value && a.mask == b.mask
  }

  // What every operation keeps: normalised entries, pairwise distinct in (value, mask).
  ghost predicate Lawful(ts: seq<Rule>) {
    && (forall r | r in ts :: Normalised(r))
    && (forall i, j | 0 <= i < j < |ts| :: !SameEntry(ts[i], ts[j]))
  }

  ghost predicate Listed(ts: seq<Rule>, r: Rule) {
    exists i :: 0 <= i < |ts| && SameEntry(ts[i], r)
  }

  // The table without the entries that `r` names.
  function Without(ts: seq<Rule>, r: Rule): seq<Rule> {
    if ts == [] then []
    else
      var n := |ts| - 1;
      Without(ts[..n], r) + if SameEntry(ts[n], r) then [] else [ts[n]]
  }

  lemma {:induction false} WithoutConcat(a: seq<Rule>, b: seq<Rule>, r: Rule)
    ensures Without(a + b, r) == Without(a, r) + Without(b, r)
    decreases |b|
  {
    if b == [] {
      assert a + b == a;
    } else {
      var n := |b| - 1;
      assert (a + b)[..|a| + n] == a + b[..n];
      WithoutConcat(a, b[..n], r);
    }
  }

  lemma {:induction false} WithoutUnlisted(ts: seq<Rule>, r: Rule)
    requires forall i | 0 <= i < |ts| :: !SameEntry(ts[i], r)
    ensures Without(ts, r) == ts
    decreases |ts|
  {
    if ts != [] { WithoutUnlisted(ts[..|ts| - 1], r); }
  }

  // Removing the only entry at i.
  lemma WithoutAt(ts: seq<Rule>, r: Rule, i: nat)
    requires i < |ts| && SameEntry(ts[i], r)
    requires forall j | 0 <= j < |ts| && j != i :: !SameEntry(ts[j], r)
    ensures Without(ts, r) == ts[..i] + ts[i + 1..]
  {
    assert ts == ts[..i] + ([ts[i]] + ts[i + 1..]);
    WithoutConcat(ts[..i], [ts[i]] + ts[i + 1..], r);
    WithoutConcat([ts[i]], ts[i + 1..], r);
    WithoutUnlisted(ts[..i], r);
    WithoutUnlisted(ts[i + 1..], r);
    assert Without([ts[i]], r) == [];
  }

  // The outcome of a first-match scan.
  ghost predicate IsFirstMatch(ts: seq<Rule>, key: Word, ret: SearchResult) {
    || (&& ret == SearchResult(0, 0, |ts|)
        && forall i | 0 <= i < |ts| :: !Matches(ts[i], key))
    || (exists i :: 0 <= i < |ts| && Matches(ts[i], key)
          && ret == SearchResult(ts[i].priority, ts[i].action, i + 1)
          && forall j | 0 <= j < i :: !Matches(ts[j], key))
  }

  lemma FirstMatchUnique(ts: seq<Rule>, key: Word, a: SearchResult, b: SearchResult)
    requires IsFirstMatch(ts, key, a) && IsFirstMatch(ts, key, b)
    ensures a == b
  {
    if forall i | 0 <= i < |ts| :: !Matches(ts[i], key) {
    } else {
      var i :| 0 <= i < |ts| && Matches(ts[i], key) && a == SearchResult(ts[i].priority, ts[i].action, i + 1)
        && forall j | 0 <= j < i :: !Matches(ts[j], key);
      var k :| 0 <= k < |ts| && Matches(ts[k], key) && b == SearchResult(ts[k].priority, ts[k].action, k + 1)
        && forall j | 0 <= j < k :: !Matches(ts[j], key);
      assert i == k;
    }
  }

  ghost function TableInsert(ts: seq<Rule>, r: Rule): seq<Rule> {
    if Listed(ts, Normalise(r)) then ts else ts + [Normalise(r)]
  }

  class LinearTable {
    var ruleTable: seq<Rule>

    ghost predicate Valid()
      reads this
    {
      Lawful(ruleTable)
    }

    constructor ()
      ensures Valid() && ruleTable == []
    {
      ruleTable := [];
    }

    // `updated` is the caller's rule after the call: it is normalised by reference.
    method InsertRule(rule: Rule) returns (updated: Rule)
      requires Valid()
      modifies this
      ensures Valid()
      ensures updated == Normalise(rule)
      ensures ruleTable == TableInsert(old(ruleTable), rule)
      ensures ruleTable == if exists e :: e in old(ruleTable) && e.value == updated.value && e.mask == updated.mask
                           then old(ruleTable) else old(ruleTable) + [updated]
    {
      updated := Normalise(rule);
      NormaliseMeaning(rule, 0);
      var i := 0;
      while i < |ruleTable|
        invariant 0 <= i <= |ruleTable|
        invariant ruleTable == old(ruleTable)
        invariant forall j | 0 <= j < i :: !SameEntry(ruleTable[j], updated)
      {
        if updated.value == ruleTable[i].value && updated.mask == ruleTable[i].mask {
          return;
        }
        i := i + 1;
      }
      ruleTable := ruleTable + [updated];
    }

    method SearchRule(key: Word) returns (ret: SearchResult)
      ensures IsFirstMatch(ruleTable, key, ret)
    {
      ret := SearchResult(0, 0, 0);
      var i := 0;
      while i < |ruleTable|
        invariant 0 <= i <= |ruleTable|
        invariant forall j | 0 <= j < i :: !Matches(ruleTable[j], key)
        invariant ret == SearchResult(0, 0, 0)
      {
        if ruleTable[i].value == And(key, Not(ruleTable[i].mask)) {
          assert Matches(ruleTable[i], key);
          ret := SearchResult(ruleTable[i].priority, ruleTable[i].action, i + 1);
          return;
        }
        i := i + 1;
      }
      ret := ret.(attempts := |ruleTable|);
    }

    // Erases while iterating: the element after an erased one is never inspected, which
    // distinctness makes harmless.
    method DeleteRule(rule: Rule) returns (updated: Rule)
      requires Valid()
      modifies this
      ensures Valid()
      ensures updated == Normalise(rule)
      ensures ruleTable == Without(old(ruleTable), Normalise(rule))
      ensures (forall e | e in old(ruleTable) :: e.value != updated.value || e.mask != updated.mask) ==>
                ruleTable == old(ruleTable)
      ensures forall i | 0 <= i < |old(ruleTable)|
                         && old(ruleTable)[i].value == updated.value && old(ruleTable)[i].mask == updated.mask ::
                ruleTable == old(ruleTable)[..i] + old(ruleTable)[i + 1..]
    {
      updated := Normalise(rule);
      NormaliseMeaning(rule, 0);
      ghost var was := ruleTable;
      ghost var hit := -1;
      var i := 0;
      while i < |ruleTable|
        invariant 0 <= i <= |ruleTable| + 1
        invariant hit == -1 ==> ruleTable == was && i <= |was| && forall j | 0 <= j < i :: !SameEntry(was[j], updated)
        invariant hit != -1 ==> 0 <= hit < |was| && SameEntry(was[hit], updated)
                                && ruleTable == was[..hit] + was[hit + 1..] && hit < i
                                && forall j | 0 <= j < |ruleTable| :: !SameEntry(ruleTable[j], updated)
        decreases |ruleTable| + 1 - i
      {
        if updated.value == ruleTable[i].value && updated.mask == ruleTable[i].mask {
          hit := i;
          ruleTable := ruleTable[..i] + ruleTable[i + 1..];
        }
        i := i + 1;
      }
      if hit == -1 {
        WithoutUnlisted(was, updated);
      } else {
        forall j | 0 <= j < |was| && j != hit ensures !SameEntry(was[j], updated) { }
        WithoutAt(was, updated, hit);
      }
      assert forall r | r in ruleTable :: r in was;
    }
  }

  // ---------- Runs of insertions ----------

  // The table after inserting the rules in order.
  ghost function BuildTable(rules: seq<Rule>): seq<Rule> {
    if rules == [] then []
    else
      var n := |rules| - 1;
      TableInsert(BuildTable(rules[..n]), rules[n])
  }

  // The entry came from one of the rules.
  ghost predicate From(rules: seq<Rule>, e: Rule) {
    exists r | r in rules :: Normalise(r) == e
  }

  lemma FromMonotone(rules: seq<Rule>, r: Rule, e: Rule)
    requires From(rules, e)
    ensures From(rules + [r], e)
  {
    var q :| q in rules && Normalise(q) == e;
    assert q in rules + [r];
  }

  // The distinct (value, mask) pairs the rules are listed under.
  ghost function Entries(rules: seq<Rule>): set<(Word, Word)> {
    set r | r in rules :: (Normalise(r).value, r.mask)
  }

  lemma {:induction false} BuiltFromRules(rules: seq<Rule>)
    ensures forall e | e in BuildTable(rules) :: From(rules, e)
    ensures forall r | r in rules :: Listed(BuildTable(rules), Normalise(r))
    ensures |BuildTable(rules)| == |Entries(rules)|
    decreases |rules|
  {
    if rules == [] {
      assert Entries(rules) == {};
    } else {
      var n := |rules| - 1;
      var front, last := rules[..n], rules[n];
      BuiltFromRules(front);
      assert front + [last] == rules;
      InsertedFrom(front, last);
      InsertedListed(front, last);
      EntriesGrow(front, last);
    }
  }

  lemma InsertedFrom(front: seq<Rule>, last: Rule)
    requires forall e | e in BuildTable(front) :: From(front, e)
    ensures forall e | e in TableInsert(BuildTable(front), last) :: From(front + [last], e)
  {
    forall e | e in TableInsert(BuildTable(front), last) ensures From(front + [last], e) {
      if e in BuildTable(front) { FromMonotone(front, last, e); } else { assert last in front + [last]; }
    }
  }

  lemma InsertedListed(front: seq<Rule>, last: Rule)
    requires forall r | r in front :: Listed(BuildTable(front), Normalise(r))
    ensures forall r | r in front + [last] :: Listed(TableInsert(BuildTable(front), last), Normalise(r))
  {
    var ts, us := BuildTable(front), TableInsert(BuildTable(front), last);
    hide Normalise;
    forall r | r in front + [last] ensures Listed(us, Normalise(r)) {
      if Listed(ts, Normalise(r)) {
        var i :| 0 <= i < |ts| && SameEntry(ts[i], Normalise(r));
        assert us[i] == ts[i];
      } else {
        assert us[|ts|] == Normalise(last);
      }
    }
  }

  lemma EntriesGrow(front: seq<Rule>, last: Rule)
    requires forall e | e in BuildTable(front) :: From(front, e)
    requires forall r | r in front :: Listed(BuildTable(front), Normalise(r))
    requires |BuildTable(front)| == |Entries(front)|
    ensures |TableInsert(BuildTable(front), last)| == |Entries(front + [last])|
  {
    var ts, pair := BuildTable(front), (Normalise(last).value, last.mask);
    assert Entries(front + [last]) == Entries(front) + {pair} by {
      assert forall r :: r in front + [last] <==> r in front || r == last;
    }
    if pair in Entries(front) {
      var r :| r in front && (Normalise(r).value, r.mask) == pair;
      var i :| 0 <= i < |ts| && SameEntry(ts[i], Normalise(r));
      assert SameEntry(ts[i], Normalise(last));
    }
    if Listed(ts, Normalise(last)) {
      var i :| 0 <= i < |ts| && SameEntry(ts[i], Normalise(last));
      assert From(front, ts[i]);
      var r :| r in front && Normalise(r) == ts[i];
      assert pair in Entries(front);
      assert Entries(front) + {pair} == Entries(front);
    }
  }

  lemma {:induction false} BuiltPrefix(rules: seq<Rule>, f: nat)
    requires f <= |rules|
    ensures BuildTable(rules[..f]) <= BuildTable(rules)
    decreases |rules|
  {
    if f == |rules| {
      assert rules[..f] == rules;
    } else {
      var n := |rules| - 1;
      BuiltPrefix(rules[..n], f);
      assert rules[..n][..f] == rules[..f];
    }
  }

  // Rules that all disagree with a key leave no entry that matches it.
  lemma DisagreeingUnmatched(rules: seq<Rule>, key: Word)
    requires forall r | r in rules :: !Agrees(r, key)
    ensures forall i | 0 <= i < |BuildTable(rules)| :: !Matches(BuildTable(rules)[i], key)
  {
    hide Agrees;
    BuiltFromRules(rules);
    var ts := BuildTable(rules);
    forall i | 0 <= i < |ts| ensures !Matches(ts[i], key) {
      assert ts[i] in ts;
      var r :| r in rules && Normalise(r) == ts[i];
      NormaliseMeaning(r, key);
      MatchesMeaning(ts[i], key);
    }
  }

  /** Whatever the order of arrival, a key gets the priority and action of the first inserted rule
      that agrees with it, at the position after the distinct entries inserted before. */
  lemma FirstArrivalWins(rules: seq<Rule>, key: Word, f: nat)
    requires f < |rules| && Agrees(rules[f], key)
    requires forall i | 0 <= i < f :: !Agrees(rules[i], key)
    ensures IsFirstMatch(BuildTable(rules), key, SearchResult(rules[f].priority, rules[f].action, 1 + |Entries(rules[..f])|))
  {
    var ts, us, r := BuildTable(rules[..f]), BuildTable(rules), rules[f];
    DisagreeingUnmatched(rules[..f], key);
    BuiltFromRules(rules[..f]);
    BuiltPrefix(rules, f);
    BuiltPrefix(rules, f + 1);
    hide Agrees;
    NormaliseMeaning(r, key);
    MatchesMeaning(Normalise(r), key);
    assert rules[..f + 1][..f] == rules[..f];
    assert forall e | SameEntry(e, Normalise(r)) :: Matches(e, key);
    assert BuildTable(rules[..f + 1]) == ts + [Normalise(r)];
    assert us[|ts|] == Normalise(r);
    assert forall j | 0 <= j < |ts| :: us[j] == ts[j];
  }

  // When no inserted rule agrees, the search misses after the distinct entries.
  lemma NoArrivalMisses(rules: seq<Rule>, key: Word)
    requires forall r | r in rules :: !Agrees(r, key)
    ensures IsFirstMatch(BuildTable(rules), key, SearchResult(0, 0, |Entries(rules)|))
  {
    DisagreeingUnmatched(rules, key);
    BuiltFromRules(rules);
  }

  // ---------- Deleting and searching ----------

  // The first entry that matches the key, not counting the entries that `skip` names.
  ghost predicate FirstOtherMatch(ts: seq<Rule>, key: Word, skip: Rule, i: nat) {
    && i < |ts| && Matches(ts[i], key) && !SameEntry(ts[i], skip)
    && forall j | 0 <= j < i :: !Matches(ts[j], key) || SameEntry(ts[j], skip)
  }

  /** After a deletion, a search finds the first match of the old table that the deleted rule
      did not name, wherever it moved to; the order of the rest is kept. */
  lemma {:induction false} SearchAfterDelete(ts: seq<Rule>, r: Rule, key: Word, i: nat) returns (k: nat)
    requires FirstOtherMatch(ts, key, r, i)
    ensures k < |Without(ts, r)| && Without(ts, r)[k] == ts[i]
    ensures IsFirstMatch(Without(ts, r), key, SearchResult(ts[i].priority, ts[i].action, k + 1))
  {
    var a, b := ts[..i], ts[i + 1..];
    assert ts == a + ([ts[i]] + b);
    WithoutConcat(a, [ts[i]] + b, r);
    WithoutConcat([ts[i]], b, r);
    WithoutUnlisted([ts[i]], r);
    k := |Without(a, r)|;
    WithoutElements(a, r);
    forall j | 0 <= j < k ensures !Matches(Without(ts, r)[j], key) {
      assert Without(ts, r)[j] == Without(a, r)[j];
      assert Without(a, r)[j] in Without(a, r);
    }
  }

  lemma {:induction false} WithoutElements(ts: seq<Rule>, r: Rule)
    ensures forall e :: e in Without(ts, r) <==> e in ts && !SameEntry(e, r)
    decreases |ts|
  {
    if ts != [] {
      var n := |ts| - 1;
      WithoutElements(ts[..n], r);
      assert forall e :: e in ts <==> e in ts[..n] || e == ts[n];
    }
  }

  // When only deleted entries matched, the search misses.
  lemma MissAfterDelete(ts: seq<Rule>, r: Rule, key: Word)
    requires forall e | e in ts && Matches(e, key) :: SameEntry(e, r)
    ensures IsFirstMatch(Without(ts, r), key, SearchResult(0, 0, |Without(ts, r)|))
  {
    WithoutElements(ts, r);
    var u := Without(ts, r);
    forall i | 0 <= i < |u| ensures !Matches(u[i], key) { assert u[i] in u; }
  }
}
