/** Which priority a single key gets: the value of `count` when it was last inserted. */
module KeyPriorities {
  import opened Words
  import opened Rules
  import opened Expansion
  import opened PrefixTree
  import opened PriorityTrie
  import opened KeyExpansion
  import opened ExactTrie

  // ---------- Runs of single keys ----------

  // The number of the insertion that the key is live from; 0 when it is not live.
  ghost function Stamp(ops: seq<Op>, key: Word): nat {
    if ops == [] then 0
    else
      var n := |ops| - 1;
      match ops[n]
      case Insert(k) => if k == key then Inserts(ops) else Stamp(ops[..n], key)
      case Remove(k) => if k == key then 0 else Stamp(ops[..n], key)
  }

  // Only depth 64 carries rules.
  ghost predicate WholeKeysOnly(t: Tree) {
    WellFormed(t) && forall p | p in t && t[p] > 0 :: |p| == 64
  }

  lemma {:induction false} NoShortRules(t: Tree, k: Path, l: nat)
    requires WholeKeysOnly(t) && l <= |k| && l < 64
    ensures Best(t, k, l) == 0
  {
    if l > 0 { NoShortRules(t, k, l - 1); }
  }

  lemma WholeKeyLookup(t: Tree, key: Word)
    requires WholeKeysOnly(t)
    ensures Best(t, KeyPath(key), 64) == PriorityAt(t, KeyPath(key))
  {
    NoShortRules(t, KeyPath(key), 63);
    assert KeyPath(key)[..64] == KeyPath(key);
  }

  lemma OneKeyPriority(s: State, key: Word, other: Word)
    ensures PriorityAt(InsertOne(s, key).tree, KeyPath(other)) ==
            if other == key then (s.count + 1) % TWO32 else PriorityAt(s.tree, KeyPath(other))
  {
    if other != key && KeyPath(other) == KeyPath(key) { KeyPathInjective(other, key); }
  }

  lemma OneKeyCount(s: State, key: Word)
    requires s.count + 1 < TWO32
    ensures InsertOne(s, key).count == s.count + 1
  {
  }

  lemma InsertedPriority(s: State, key: Word, other: Word)
    requires WholeKeysOnly(s.tree)
    ensures WholeKeysOnly(InsertOne(s, key).tree)
    ensures PriorityAt(InsertOne(s, key).tree, KeyPath(other)) ==
            if other == key then (s.count + 1) % TWO32 else PriorityAt(s.tree, KeyPath(other))
  {
    StoredWellFormed(s.tree, KeyPath(key), (s.count + 1) % TWO32);
    OneKeyPriority(s, key, other);
  }

  lemma RemovedPriority(t: Tree, key: Word, other: Word)
    requires WholeKeysOnly(t)
    ensures WholeKeysOnly(Delete(t, KeyPath(key)))
    ensures PriorityAt(Delete(t, KeyPath(key)), KeyPath(other)) == if other == key then 0 else PriorityAt(t, KeyPath(other))
  {
    var p, u := KeyPath(key), Delete(t, KeyPath(key));
    DeleteWellFormed(t, p);
    DeleteRules(t, p);
    forall q | q in u && u[q] > 0 ensures |q| == 64 {
      assert q in RuleMap(u);
      assert q in RuleMap(t);
    }
    if other != key && KeyPath(other) == p { KeyPathInjective(other, key); }
    assert KeyPath(other) in RuleMap(u) <==> KeyPath(other) in RuleMap(t) - {p};
  }

  lemma FreshWhole(key: Word)
    ensures WholeKeysOnly(EMPTY) && PriorityAt(EMPTY, KeyPath(key)) == 0
  {
  }

  /** After any run with fewer than 2^32 inserts a priority lookup of a key answers the number of
      the insertion the key is live from, and 0 when it is not live. */
  lemma {:induction false} RunPriorities(ops: seq<Op>, key: Word)
    requires Inserts(ops) < TWO32
    ensures WholeKeysOnly(Run(ops).tree)
    ensures PriorityAt(Run(ops).tree, KeyPath(key)) == Stamp(ops, key)
    ensures Best(Run(ops).tree, KeyPath(key), 64) == Stamp(ops, key)
    decreases |ops|
  {
    hide KeyPath, InsertOne, Delete, PriorityAt, Best, WholeKeysOnly, Exactly;
    if ops == [] {
      FreshWhole(key);
    } else {
      var n := |ops| - 1;
      RunPriorities(ops[..n], key);
      RunIsExact(ops[..n]);
      match ops[n]
      case Insert(k) => InsertedPriority(Run(ops[..n]), k, key);
      case Remove(k) => RemovedPriority(Run(ops[..n]).tree, k, key);
    }
    WholeKeyLookup(Run(ops).tree, key);
  }

  // ---------- One expanded rule ----------

  // The generated keys above the given one.
  ghost function LargerKeys(r: Rule, key: Word): set<Word> {
    set k: Word | key < k && Generated(r, k)
  }

  ghost function Elements(s: seq<Word>): set<Word> {
    set k | k in s
  }

  lemma {:induction false} DistinctSize(s: seq<Word>)
    requires forall i, k | 0 <= i < k < |s| :: s[k] < s[i]
    ensures |Elements(s)| == |s|
    decreases |s|
  {
    if s != [] {
      var n := |s| - 1;
      DistinctSize(s[..n]);
      assert Elements(s) == Elements(s[..n]) + {s[n]};
      assert s[n] !in Elements(s[..n]);
    }
  }

  // The i-th generated key has i larger ones.
  lemma RankInList(r: Rule, i: nat)
    requires ShiftsDefined(r.mask) && i < |ConvertedKeys(r)|
    ensures |LargerKeys(r, ConvertedKeys(r)[i])| == i
  {
    var s := ConvertedKeys(r);
    ConvertList(r);
    DistinctSize(s[..i]);
    hide Generated;
    forall k: Word ensures k in s[..i] <==> s[i] < k && Generated(r, k) {
      if k in s {
        var j :| 0 <= j < |s| && s[j] == k;
        assert j < i ==> s[..i][j] == k;
      }
    }
    assert LargerKeys(r, s[i]) == Elements(s[..i]);
  }

  lemma InsertKeysLast(s: State, keys: seq<Word>)
    requires keys != []
    ensures InsertKeys(s, keys) == InsertOne(InsertKeys(s, keys[..|keys| - 1]), keys[|keys| - 1])
  {
  }

  lemma {:induction false} InsertKeysCount(s: State, keys: seq<Word>)
    requires s.count + |keys| < TWO32
    ensures InsertKeys(s, keys).count == s.count + |keys|
    decreases |keys|
  {
    if keys != [] {
      hide InsertOne, InsertKeys;
      var n := |keys| - 1;
      InsertKeysCount(s, keys[..n]);
      OneKeyCount(InsertKeys(s, keys[..n]), keys[n]);
      InsertKeysLast(s, keys);
    }
  }

  lemma {:induction false} InsertKeysElsewhere(s: State, keys: seq<Word>, key: Word)
    requires key !in keys
    ensures PriorityAt(InsertKeys(s, keys).tree, KeyPath(key)) == PriorityAt(s.tree, KeyPath(key))
    decreases |keys|
  {
    if keys != [] {
      hide KeyPath, InsertOne, PriorityAt, InsertKeys;
      var n := |keys| - 1;
      InsertKeysElsewhere(s, keys[..n], key);
      OneKeyPriority(InsertKeys(s, keys[..n]), keys[n], key);
      InsertKeysLast(s, keys);
    }
  }

  lemma {:induction false} InsertKeysPriority(s: State, keys: seq<Word>, i: nat)
    requires s.count + |keys| < TWO32 && i < |keys|
    requires forall j | i < j < |keys| :: keys[j] != keys[i]
    ensures PriorityAt(InsertKeys(s, keys).tree, KeyPath(keys[i])) == s.count + 1 + i
    decreases |keys|
  {
    hide KeyPath, InsertOne, PriorityAt, InsertKeys;
    var n := |keys| - 1;
    InsertKeysLast(s, keys);
    InsertKeysCount(s, keys[..n]);
    OneKeyPriority(InsertKeys(s, keys[..n]), keys[n], keys[i]);
    if i < n { InsertKeysPriority(s, keys[..n], i); }
  }

  /** What `insert_rule` stores, wherever its shifts are defined and `count` does not wrap: every
      generated key gets the old count plus its rank from the top, so that a larger key has the
      smaller priority, and every other key keeps its entry. */
  lemma ExpandedPriorities(s: State, r: Rule, key: Word)
    requires ShiftsDefined(r.mask) && s.count + KeyNumber(r.mask) < TWO32
    ensures InsertKeys(s, ConvertedKeys(r)).count == s.count + KeyNumber(r.mask)
    ensures PriorityAt(InsertKeys(s, ConvertedKeys(r)).tree, KeyPath(key)) ==
            if Generated(r, key) then s.count + 1 + |LargerKeys(r, key)| else PriorityAt(s.tree, KeyPath(key))
  {
    var keys := ConvertedKeys(r);
    ConvertList(r);
    InsertKeysCount(s, keys);
    if key !in keys { InsertKeysElsewhere(s, keys, key); }
    if Generated(r, key) {
      var i :| 0 <= i < |keys| && keys[i] == key;
      RankInList(r, i);
      InsertKeysPriority(s, keys, i);
    }
  }

  // The ends of the list: base | mask comes first and base last.
  lemma EndPriorities(s: State, r: Rule)
    requires ShiftsDefined(r.mask) && ConvertSafe(r) && s.count + Pow2(WildCount(r.mask)) < TWO32
    ensures var t, base := InsertKeys(s, ConvertedKeys(r)).tree, Normalise(r).value;
            && Or(base, r.mask) < TWO64
            && PriorityAt(t, KeyPath(Or(base, r.mask))) == s.count + 1
            && PriorityAt(t, KeyPath(base)) == s.count + Pow2(WildCount(r.mask))
  {
    var keys, base := ConvertedKeys(r), Normalise(r).value;
    OrFits(base, r.mask);
    WildCountMeaning(r.mask);
    ConvertOrdered(r);
    InsertKeysPriority(s, keys, 0);
    InsertKeysPriority(s, keys, |keys| - 1);
  }

  // ---------- Runs of expanded rules ----------

  // The number of the last insertion of the key: the last rule that generates it decides.
  ghost function Arrival(rules: seq<Rule>, key: Word): nat {
    if rules == [] then 0
    else
      var n := |rules| - 1;
      if Generated(rules[n], key) then KeyTotal(rules[..n]) + 1 + |LargerKeys(rules[n], key)|
      else Arrival(rules[..n], key)
  }

  lemma {:induction false} InsertKeysWhole(s: State, keys: seq<Word>)
    requires WholeKeysOnly(s.tree)
    ensures WholeKeysOnly(InsertKeys(s, keys).tree)
    decreases |keys|
  {
    if keys != [] {
      var n := |keys| - 1;
      InsertKeysWhole(s, keys[..n]);
      InsertedPriority(InsertKeys(s, keys[..n]), keys[n], keys[n]);
    }
  }

  /** On a trie filled by `insert_rule` alone, with fewer than 2^32 keys in all, a priority lookup
      answers the number of the key's last insertion, and misses when no rule generates the key. */
  lemma {:induction false} LastInsertionWins(rules: seq<Rule>, key: Word)
    requires AllDefined(rules) && KeyTotal(rules) < TWO32
    ensures WholeKeysOnly(InsertRules(rules).tree) && InsertRules(rules).count == KeyTotal(rules)
    ensures PriorityAt(InsertRules(rules).tree, KeyPath(key)) == Arrival(rules, key)
    ensures Best(InsertRules(rules).tree, KeyPath(key), 64) == Arrival(rules, key)
    decreases |rules|
  {
    if rules != [] {
      hide InsertKeys, ConvertedKeys, Generated, KeyNumber, LargerKeys;
      var n := |rules| - 1;
      assert rules[n] in rules;
      LastInsertionWins(rules[..n], key);
      ExpandedPriorities(InsertRules(rules[..n]), rules[n], key);
      InsertKeysWhole(InsertRules(rules[..n]), ConvertedKeys(rules[n]));
    }
    WholeKeyLookup(InsertRules(rules).tree, key);
  }
}
