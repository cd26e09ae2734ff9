/** The exact-key mode: inserting single keys, and deleting them with pruning. */
module ExactTrie {
  import opened Words
  import opened Rules
  import opened PrefixTree
  import opened PriorityTrie
  import opened KeyExpansion

  ghost predicate RuleBelow(t: Tree, q: Path) {
    exists r | r in t :: q <= r && t[r] > 0
  }

  // No dead branches: every node but the root has a rule at or below it.
  ghost predicate Canonical(t: Tree) {
    WellFormed(t) && forall q {:trigger RuleBelow(t, q)} | q in t && q != [] :: RuleBelow(t, q)
  }

  lemma CanonicalIsWellFormed(t: Tree)
    requires Canonical(t)
    ensures WellFormed(t)
  {
  }

  /** A canonical tree is determined by its rules: shape and priorities. */
  lemma CanonicalUnique(t: Tree, u: Tree)
    requires Canonical(t) && Canonical(u) && RuleMap(t) == RuleMap(u)
    ensures t == u
  {
    CanonicalWithin(t, u);
    CanonicalWithin(u, t);
    forall q | q in t ensures t[q] == u[q] {
      assert q in RuleMap(t) <==> q in RuleMap(u);
    }
  }

  lemma CanonicalWithin(t: Tree, u: Tree)
    requires Canonical(t) && Canonical(u) && RuleMap(t) == RuleMap(u)
    ensures t.Keys <= u.Keys
  {
    forall q | q in t ensures q in u {
      if q != [] {
        assert RuleBelow(t, q);
        var r :| r in t && q <= r && t[r] > 0;
        assert r in RuleMap(t);
        assert r in RuleMap(u);
        PrefixIn(u, r, |q|);
        assert r[..|q|] == q;
      }
    }
  }

  // ---------- Inserting a key ----------

  ghost function InsertOne(s: State, key: Word): State {
    var p := KeyPath(key);
    var c := (s.count + 1) % TWO32;
    s.(tree := Stored(s.tree, p, c), nodeCount := s.nodeCount + (64 - Depth(s.tree, p)), count := c)
  }

  // What `search_rule` reports.
  ghost predicate Found(t: Tree, key: Word) {
    PriorityAt(t, KeyPath(key)) > 0
  }

  lemma StoredWellFormed(t: Tree, p: Path, priority: nat)
    requires WellFormed(t) && |p| <= 64
    ensures WellFormed(Stored(t, p, priority))
  {
    GrowWellFormed(t, p, |p|);
    assert p in PrefixesUpTo(p, |p|);
  }

  lemma InsertCanonical(t: Tree, p: Path, priority: nat)
    requires Canonical(t) && |p| <= 64 && priority > 0
    ensures Canonical(Stored(t, p, priority))
    ensures RuleMap(Stored(t, p, priority)) == RuleMap(t)[p := priority]
  {
    var u := Stored(t, p, priority);
    StoredWellFormed(t, p, priority);
    forall q {:trigger RuleBelow(u, q)} | q in u && q != [] ensures RuleBelow(u, q) {
      if q in t {
        assert RuleBelow(t, q);
        var r :| r in t && q <= r && t[r] > 0;
        assert r in u && u[r] > 0;
      } else {
        assert q <= p && u[p] > 0;
      }
    }
  }

  // After an insertion the key is found unless the 32-bit count has just wrapped to 0; every
  // other key is answered as before.
  lemma InsertFound(s: State, key: Word, other: Word)
    requires WellFormed(s.tree)
    ensures Found(InsertOne(s, key).tree, key) <==> (s.count + 1) % TWO32 != 0
    ensures other != key ==> (Found(InsertOne(s, key).tree, other) <==> Found(s.tree, other))
  {
    if other != key && KeyPath(other) == KeyPath(key) { KeyPathInjective(other, key); }
  }

  // ---------- Deleting a key ----------

  ghost predicate Leaf(t: Tree, p: Path) {
    p + [false] !in t && p + [true] !in t
  }

  // The path's node at depth m carries no rule and no child off the path.
  ghost predicate Clear(t: Tree, p: Path, m: nat)
    requires m <= |p|
  {
    && PriorityAt(t, p[..m]) == 0
    && (if m == |p| then Leaf(t, p) else p[..m] + [!p[m]] !in t)
  }

  // Nothing but the path itself hangs below its node at depth l.
  ghost predicate Dead(t: Tree, p: Path, l: nat) {
    forall m: nat | l <= m <= |p| :: Clear(t, p, m)
  }

  // The tree without the path's dead nodes strictly below depth `floor`.
  ghost function PruneTo(t: Tree, p: Path, floor: nat): Tree {
    map q | q in t && !(q <= p && |q| > floor && Dead(t, p, |q|)) :: t[q]
  }

  ghost function Delete(t: Tree, p: Path): Tree {
    if p in t then PruneTo(t[p := 0], p, 0) else t
  }

  // A child on the path leads one bit further; any other child is off the path.
  lemma NextOnPath(p: Path, q: Path)
    requires q != [] && q[..|q| - 1] <= p
    ensures |q| - 1 < |p| ==> q <= p || q == p[..|q| - 1] + [!p[|q| - 1]]
    ensures |q| - 1 == |p| ==> q == p + [false] || q == p + [true]
  {
    var m := |q| - 1;
    assert q == q[..m] + [q[m]];
    if m < |p| && q[m] == p[m] {
      assert q == p[..m + 1];
    }
    if m == |p| {
      assert q[..m] == p;
      assert q[m] || q == p + [false];
    }
  }

  // Pruning removes whole branches: a child of a removed node is removed too.
  lemma PrunedParent(t: Tree, p: Path, q: Path)
    requires WellFormed(t) && q in t && q != []
    requires q[..|q| - 1] <= p && |q| - 1 > 0 && Dead(t, p, |q| - 1)
    ensures q <= p && Dead(t, p, |q|)
  {
    var m: nat := |q| - 1;
    assert Clear(t, p, m);
    NextOnPath(p, q);
    assert p[..m] == q[..m];
    assert p[..|p|] == p;
  }

  // Pruning one level up, when everything below is dead: the node there is a leaf to free.
  lemma PruneStep(t: Tree, p: Path, level: nat)
    requires WellFormed(t) && p in t && level < |p| && Dead(t, p, level + 1)
    ensures var q, u := p[..level + 1], PruneTo(t, p, level + 1);
            && q in u && Leaf(u, q)
            && PruneTo(t, p, level) == u - {q}
            && q == p[..level] + [p[level]]
            && p[..level] in u - {q} && (u - {q})[p[..level]] == t[p[..level]]
            && (Dead(t, p, level) <==> t[p[..level]] == 0 && Leaf(u - {q}, p[..level]))
  {
    var q, u := p[..level + 1], PruneTo(t, p, level + 1);
    PrefixIn(t, p, level);
    PrefixIn(t, p, level + 1);
    assert q == p[..level] + [p[level]];
    assert Clear(t, p, level + 1);
    if level + 1 == |p| {
      assert q == p;
    } else {
      assert Dead(t, p, level + 2);
      assert p[..level + 2] == q + [p[level + 1]];
    }
    forall x ensures x <= p && |x| == level + 1 <==> x == q { if x <= p && |x| == level + 1 { assert x == p[..|x|]; } }
    assert Dead(t, p, level) <==> Clear(t, p, level);
    assert p[..level] + [!p[level]] != q && p[..level] != q;
  }

  // Pruning stops for good at the first node that is not dead.
  lemma PruneStops(t: Tree, p: Path, level: nat)
    requires level < |p| && !Dead(t, p, level + 1)
    ensures PruneTo(t, p, level) == PruneTo(t, p, level + 1) && !Dead(t, p, level)
  {
  }

  lemma PruneNothing(t: Tree, p: Path)
    requires p in t && t[p] == 0
    ensures PruneTo(t, p, |p|) == t
    ensures Dead(t, p, |p|) <==> Leaf(t, p)
  {
    assert p[..|p|] == p;
    assert Dead(t, p, |p|) <==> Clear(t, p, |p|);
  }

  lemma DeleteWellFormed(t: Tree, p: Path)
    requires WellFormed(t) && |p| <= 64
    ensures WellFormed(Delete(t, p))
  {
    if p in t {
      var z := t[p := 0];
      var u := PruneTo(z, p, 0);
      assert WellFormed(z);
      forall q {:trigger Parent(q)} | q in u && q != [] ensures Parent(q) in u {
        var parent := Parent(q);
        assert parent in z;
        if parent <= p && |parent| > 0 && Dead(z, p, |parent|) { PrunedParent(z, p, q); }
      }
    }
  }

  // Below the node there is nothing but the path, and no rule besides the one at its end.
  ghost predicate OnlyPathBelow(t: Tree, p: Path, q: Path) {
    forall x | x in t && q <= x :: x <= p && (x == p || t[x] == 0)
  }

  /** Exactly which nodes a deletion frees, on any trie: those on the key's path, the root aside,
      with nothing else left at or below them. Everything else keeps its priority. */
  lemma DeleteNodes(t: Tree, p: Path, q: Path)
    requires WellFormed(t) && p in t
    ensures q in Delete(t, p) <==> q in t && !(q != [] && q <= p && OnlyPathBelow(t, p, q))
    ensures q in Delete(t, p) ==> Delete(t, p)[q] == if q == p then 0 else t[q]
  {
    if q <= p && q in t { DeadMeaning(t, p, |q|); assert p[..|q|] == q; }
  }

  lemma DeadMeaning(t: Tree, p: Path, l: nat)
    requires WellFormed(t) && p in t && l <= |p|
    ensures Dead(t[p := 0], p, l) <==> OnlyPathBelow(t, p, p[..l])
  {
    var z := t[p := 0];
    assert p[..|p|] == p;
    if Dead(z, p, l) {
      forall x | x in t && p[..l] <= x ensures x <= p && (x == p || t[x] == 0) {
        if !(x <= p) { var m := LeavesPath(t, p, l, x); }
        assert Clear(z, p, |x|);
        assert x == p[..|x|];
      }
    }
    if OnlyPathBelow(t, p, p[..l]) {
      forall m: nat | l <= m <= |p| ensures Clear(z, p, m) {
        assert p[..l] <= p[..m];
        if m < |p| {
          var c := p[..m] + [!p[m]];
          assert p[..l] <= c && !(c <= p);
        } else {
          assert !(p + [false] <= p) && !(p + [true] <= p);
          assert p[..l] <= p + [false] && p[..l] <= p + [true];
        }
      }
    }
  }

  // A node off the path hangs below a branch that leaves it.
  lemma LeavesPath(t: Tree, p: Path, l: nat, x: Path) returns (m: nat)
    requires WellFormed(t) && p in t && l <= |p| && x in t && p[..l] <= x && !(x <= p)
    ensures l <= m <= |p| && !Clear(t[p := 0], p, m)
  {
    m := l;
    while m < |p| && m < |x| && x[m] == p[m]
      invariant l <= m <= |p| && m <= |x| && x[..m] == p[..m]
    {
      m := m + 1;
    }
    assert p[..|p|] == p && x[..|x|] == x;
    PrefixIn(t, x, m + 1);
    assert x[..m + 1] == p[..m] + [x[m]];
    assert m < |p| ==> x[m] == !p[m];
    assert m == |p| ==> x[..m + 1] == p + [false] || x[..m + 1] == p + [true] by {
      assert x[m] || x[..m + 1] == p[..m] + [false];
    }
  }

  // Only the deleted key's rule disappears; no other rule node is freed, and none is touched.
  lemma DeleteRules(t: Tree, p: Path)
    requires WellFormed(t)
    ensures RuleMap(Delete(t, p)) == RuleMap(t) - {p}
  {
    if p in t {
      var z := t[p := 0];
      forall q | q in z && z[q] > 0 ensures q in PruneTo(z, p, 0) {
        assert q <= p ==> p[..|q|] == q;
        assert q <= p && Dead(z, p, |q|) ==> Clear(z, p, |q|);
      }
    }
  }

  /** Pruning delete keeps the trie canonical and removes exactly the key's rule. */
  lemma DeleteCanonical(t: Tree, p: Path)
    requires Canonical(t) && |p| <= 64
    ensures Canonical(Delete(t, p))
    ensures RuleMap(Delete(t, p)) == RuleMap(t) - {p}
  {
    DeleteWellFormed(t, p);
    DeleteRules(t, p);
    if p in t {
      var u := Delete(t, p);
      forall q {:trigger RuleBelow(u, q)} | q in u && q != [] ensures RuleBelow(u, q) {
        SurvivorHasRule(t, p, q);
      }
    }
  }

  lemma SurvivorHasRule(t: Tree, p: Path, q: Path)
    requires Canonical(t) && p in t && q != [] && q in Delete(t, p)
    ensures RuleBelow(Delete(t, p), q)
  {
    var z := t[p := 0];
    assert RuleBelow(t, q);
    var r :| r in t && q <= r && t[r] > 0;
    if r != p {
      RuleSurvives(t, p, q, r);
    } else {
      assert !Dead(z, p, |q|);
      var m: nat :| |q| <= m <= |p| && !Clear(z, p, m);
      assert p[..|p|] == p;
      if PriorityAt(z, p[..m]) > 0 {
        RuleSurvives(t, p, q, p[..m]);
      } else {
        var c :| c in t && |c| == m + 1 && c[..m] == p[..m] && !(c <= p);
        assert RuleBelow(t, c);
        var r' :| r' in t && c <= r' && t[r'] > 0;
        assert q <= c;
        RuleSurvives(t, p, q, r');
      }
    }
  }

  lemma RuleSurvives(t: Tree, p: Path, q: Path, r: Path)
    requires WellFormed(t) && p in t && r in t && r != p && t[r] > 0 && q <= r
    ensures RuleBelow(Delete(t, p), q)
  {
    DeleteRules(t, p);
    assert r in RuleMap(t) - {p};
    assert r in RuleMap(Delete(t, p));
  }

  /** Round trip: deleting a key that was just inserted restores the identical tree, even when
      the count had wrapped and the key was stored with priority 0. */
  lemma InsertDeleteRoundTrip(t: Tree, p: Path, priority: nat)
    requires Canonical(t) && |p| <= 64 && p !in RuleMap(t)
    ensures Delete(Stored(t, p, priority), p) == t
  {
    InsertCanonical(t, p, 1);
    DeleteCanonical(Stored(t, p, 1), p);
    assert RuleMap(t)[p := 1] - {p} == RuleMap(t);
    CanonicalUnique(Delete(Stored(t, p, 1), p), t);
    assert Stored(t, p, priority)[p := 0] == Stored(t, p, 1)[p := 0];
  }

  lemma DeleteAbsent(t: Tree, p: Path)
    requires Canonical(t) && |p| <= 64 && p !in RuleMap(t)
    ensures Delete(t, p) == t
  {
    DeleteCanonical(t, p);
    CanonicalUnique(Delete(t, p), t);
  }

  // Exactly the searched key changes its answer.
  lemma DeleteFound(t: Tree, key: Word, other: Word)
    requires WellFormed(t)
    ensures !Found(Delete(t, KeyPath(key)), key)
    ensures other != key ==> (Found(Delete(t, KeyPath(key)), other) <==> Found(t, other))
  {
    DeleteRules(t, KeyPath(key));
    var u := Delete(t, KeyPath(key));
    assert forall k: Word :: Found(u, k) <==> KeyPath(k) in RuleMap(u);
    assert forall k: Word :: Found(t, k) <==> KeyPath(k) in RuleMap(t);
    if other != key && KeyPath(other) == KeyPath(key) { KeyPathInjective(other, key); }
  }

  // ---------- Runs ----------

  datatype Op = Insert(key: Word) | Remove(key: Word)

  ghost function Step(s: State, op: Op): State {
    match op
    case Insert(key) => InsertOne(s, key)
    case Remove(key) => s.(tree := Delete(s.tree, KeyPath(key)))
  }

  ghost function Run(ops: seq<Op>): State {
    if ops == [] then FRESH else Step(Run(ops[..|ops| - 1]), ops[|ops| - 1])
  }

  // The reference: the plain set of keys inserted and not removed since.
  ghost function LiveStep(live: set<Word>, op: Op): set<Word> {
    match op
    case Insert(key) => live + {key}
    case Remove(key) => live - {key}
  }

  ghost function LiveKeys(ops: seq<Op>): set<Word> {
    if ops == [] then {} else LiveStep(LiveKeys(ops[..|ops| - 1]), ops[|ops| - 1])
  }

  // Only insertions raise the 32-bit count.
  ghost function Inserts(ops: seq<Op>): nat {
    if ops == [] then 0 else Inserts(ops[..|ops| - 1]) + if ops[|ops| - 1].Insert? then 1 else 0
  }

  // Canonical, and `search_rule` answers membership in `live`.
  ghost predicate Exactly(t: Tree, live: set<Word>) {
    Canonical(t) && forall key: Word :: Found(t, key) <==> key in live
  }

  /** Any run with fewer than 2^32 inserts, and any number of deletes, keeps the trie canonical,
      and `search_rule` answers membership in the plain set of live keys. */
  lemma {:induction false} RunIsExact(ops: seq<Op>)
    requires Inserts(ops) < TWO32
    ensures Exactly(Run(ops).tree, LiveKeys(ops)) && Run(ops).count == Inserts(ops)
    decreases |ops|
  {
    if ops == [] {
      NothingFound();
    } else {
      var n := |ops| - 1;
      RunIsExact(ops[..n]);
      StepExact(Run(ops[..n]), LiveKeys(ops[..n]), ops[n]);
    }
  }

  lemma NothingFound()
    ensures Exactly(EMPTY, {})
  {
  }

  lemma StepExact(s: State, live: set<Word>, op: Op)
    requires Exactly(s.tree, live) && (op.Insert? ==> s.count + 1 < TWO32)
    ensures Exactly(Step(s, op).tree, LiveStep(live, op))
    ensures Step(s, op).count == s.count + if op.Insert? then 1 else 0
  {
    match op
    case Insert(key) => InsertStep(s, live, key);
    case Remove(key) => RemoveStep(s, live, key);
  }

  lemma InsertStep(s: State, live: set<Word>, key: Word)
    requires Exactly(s.tree, live) && s.count + 1 < TWO32
    ensures Exactly(InsertOne(s, key).tree, live + {key}) && InsertOne(s, key).count == s.count + 1
  {
    assert InsertOne(s, key).tree == Stored(s.tree, KeyPath(key), s.count + 1);
    hide InsertOne, Stored, Canonical, Found;
    InsertCanonical(s.tree, KeyPath(key), s.count + 1);
    CanonicalIsWellFormed(s.tree);
    forall k: Word ensures Found(InsertOne(s, key).tree, k) <==> k in live + {key} { InsertFound(s, key, k); }
  }

  lemma RemoveStep(s: State, live: set<Word>, key: Word)
    requires Exactly(s.tree, live)
    ensures Exactly(Delete(s.tree, KeyPath(key)), live - {key})
  {
    DeleteCanonical(s.tree, KeyPath(key));
    forall k: Word ensures Found(Delete(s.tree, KeyPath(key)), k) <==> k in live - {key} { DeleteFound(s.tree, key, k); }
  }

  // ---------- The node counter ----------

  // No deletion ever hit a live key: something a caller can check before each call.
  ghost predicate NoKeyRemoved(ops: seq<Op>) {
    ops == [] ||
    var n := |ops| - 1;
    NoKeyRemoved(ops[..n]) && (ops[n].Remove? ==> ops[n].key !in LiveKeys(ops[..n]))
  }

  lemma DeleteShrinks(t: Tree, p: Path)
    requires WellFormed(t) && |p| == 64 && p in t
    ensures |Delete(t, p)| < |t|
  {
    var z := t[p := 0];
    assert p[..|p|] == p;
    assert Leaf(z, p) by {
      assert |p + [false]| == 65 && |p + [true]| == 65;
    }
    assert Dead(z, p, |p|) by { assert Clear(z, p, 64); }
    var u := Delete(t, p);
    assert p !in u;
    assert u.Keys <= t.Keys - {p};
    assert t.Keys - {p} == u.Keys + (t.Keys - {p} - u.Keys);
    assert |u| == |u.Keys| && |t| == |t.Keys|;
  }

  /** `node_count` is never lowered, so it is the number of nodes exactly as long as no
      deletion has removed a key; afterwards it stays too high. */
  lemma {:induction false} NodeCountExact(ops: seq<Op>)
    requires Inserts(ops) < TWO32
    ensures Run(ops).nodeCount >= |Run(ops).tree|
    ensures Run(ops).nodeCount == |Run(ops).tree| <==> NoKeyRemoved(ops)
    decreases |ops|
  {
    if ops != [] {
      var n := |ops| - 1;
      NodeCountExact(ops[..n]);
      RunIsExact(ops[..n]);
      var s := Run(ops[..n]);
      var p := KeyPath(ops[n].key);
      if ops[n].Insert? {
        StoredSize(s.tree, p, (s.count + 1) % TWO32);
      } else if ops[n].key in LiveKeys(ops[..n]) {
        assert Found(s.tree, ops[n].key);
        DeleteShrinks(s.tree, p);
      } else {
        assert !Found(s.tree, ops[n].key);
        DeleteAbsent(s.tree, p);
      }
    }
  }

  // ---------- The rule counter ----------

  // No operation named a key that was live at that moment: no overwrite, no effective deletion.
  ghost predicate NoLiveKeyNamed(ops: seq<Op>) {
    ops == [] ||
    var n := |ops| - 1;
    NoLiveKeyNamed(ops[..n]) && ops[n].key !in LiveKeys(ops[..n])
  }

  lemma LiveStepSize(live: set<Word>, op: Op)
    ensures op.Insert? ==> |LiveStep(live, op)| == |live| + if op.key in live then 0 else 1
    ensures op.Remove? ==> |LiveStep(live, op)| == |live| - if op.key in live then 1 else 0
  {
    if op.key in live {
      assert live == (live - {op.key}) + {op.key};
    } else {
      assert live - {op.key} == live;
    }
  }

  /** `count` is never below the number of live rules, and equals it if and only if no operation
      has named a live key: an overwrite raises it again, and a deletion does not lower it. */
  lemma {:induction false} CountExact(ops: seq<Op>)
    requires Inserts(ops) < TWO32
    ensures Run(ops).count >= |LiveKeys(ops)|
    ensures Run(ops).count == |LiveKeys(ops)| <==> NoLiveKeyNamed(ops)
    decreases |ops|
  {
    if ops != [] {
      var n := |ops| - 1;
      CountExact(ops[..n]);
      RunIsExact(ops);
      RunIsExact(ops[..n]);
      LiveStepSize(LiveKeys(ops[..n]), ops[n]);
    }
  }

  // ---------- Expanded insertion (`insert_rule`) ----------

  ghost function InsertKeys(s: State, keys: seq<Word>): State {
    if keys == [] then s else InsertOne(InsertKeys(s, keys[..|keys| - 1]), keys[|keys| - 1])
  }

  ghost predicate AllDefined(rules: seq<Rule>) {
    forall r | r in rules :: ShiftsDefined(r.mask)
  }

  ghost predicate AllConvertSafe(rules: seq<Rule>)
    requires AllDefined(rules)
  {
    forall r | r in rules :: ConvertSafe(r)
  }

  // The linear table's test succeeds for some rule.
  ghost predicate TableMatches(rules: seq<Rule>, key: Word) {
    exists r | r in rules :: Matches(Normalise(r), key)
  }

  ghost function InsertRules(rules: seq<Rule>): State
    requires AllDefined(rules)
  {
    if rules == [] then FRESH
    else
      var n := |rules| - 1;
      assert rules[n] in rules;
      InsertKeys(InsertRules(rules[..n]), ConvertedKeys(rules[n]))
  }

  // How many keys the rules expand to.
  ghost function KeyTotal(rules: seq<Rule>): nat {
    if rules == [] then 0 else KeyTotal(rules[..|rules| - 1]) + KeyNumber(rules[|rules| - 1].mask)
  }

  // The live keys once the listed ones are added.
  ghost function LiveAfter(live: set<Word>, keys: seq<Word>): (after: set<Word>)
    ensures forall k :: k in after <==> k in live || k in keys
  {
    if keys == [] then live else LiveAfter(live, keys[..|keys| - 1]) + {keys[|keys| - 1]}
  }

  lemma {:induction false} InsertKeysExact(s: State, keys: seq<Word>, live: set<Word>)
    requires Exactly(s.tree, live) && s.count + |keys| < TWO32
    ensures Exactly(InsertKeys(s, keys).tree, LiveAfter(live, keys))
    ensures InsertKeys(s, keys).count == s.count + |keys|
    decreases |keys|
  {
    if keys != [] {
      var n := |keys| - 1;
      InsertKeysExact(s, keys[..n], live);
      InsertStep(InsertKeys(s, keys[..n]), LiveAfter(live, keys[..n]), keys[n]);
    }
  }

  // The keys an expanded rule list covers.
  ghost predicate Covered(rules: seq<Rule>, key: Word)
    requires AllDefined(rules)
  {
    exists r | r in rules :: key in ConvertedKeys(r)
  }

  lemma CoveredStep(rules: seq<Rule>, key: Word)
    requires rules != [] && AllDefined(rules)
    ensures var n := |rules| - 1;
            && rules[n] in rules
            && AllDefined(rules[..n])
            && (Covered(rules, key) <==> Covered(rules[..n], key) || key in ConvertedKeys(rules[n]))
  {
    assert rules[|rules| - 1] in rules;
    assert forall r :: r in rules <==> r in rules[..|rules| - 1] || r == rules[|rules| - 1];
  }

  lemma {:induction false} InsertedKeys(rules: seq<Rule>) returns (live: set<Word>)
    requires AllDefined(rules)
    requires KeyTotal(rules) < TWO32
    ensures Exactly(InsertRules(rules).tree, live) && InsertRules(rules).count == KeyTotal(rules)
    ensures forall key: Word :: key in live <==> Covered(rules, key)
    decreases |rules|
  {
    if rules == [] {
      live := {};
      NothingFound();
    } else {
      var n := |rules| - 1;
      assert rules[n] in rules;
      var before := InsertedKeys(rules[..n]);
      InsertKeysExact(InsertRules(rules[..n]), ConvertedKeys(rules[n]), before);
      live := LiveAfter(before, ConvertedKeys(rules[n]));
      forall key: Word ensures key in live <==> Covered(rules, key) { CoveredStep(rules, key); }
    }
  }

  /** After any sequence of `insert_rule` calls on rules that are safe for `int` shifts, with
      fewer than 2^32 keys in all, `search_rule` finds a key exactly when it agrees with an
      inserted rule, which is the linear table's test on the normalised rule. */
  lemma ExactKeyRefinement(rules: seq<Rule>, key: Word)
    requires AllDefined(rules) && AllConvertSafe(rules) && KeyTotal(rules) < TWO32
    ensures Found(InsertRules(rules).tree, key) <==> TableMatches(rules, key)
  {
    var live := InsertedKeys(rules);
    forall r | r in rules ensures key in ConvertedKeys(r) <==> Matches(Normalise(r), key) {
      ConvertExact(r);
      NormaliseMeaning(r, key);
      MatchesMeaning(Normalise(r), key);
    }
  }
}
