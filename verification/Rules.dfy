/** Ternary rules, the two matching tests, and the root paths keys and rules follow. */
module Rules {
  import opened Words

  const ALL_ONES: Word := TWO64 - 1

  // A set mask bit is a wildcard. Priority 0 stands for "no rule".
  datatype Rule = Rule(value: Word, mask: Word, priority: nat, action: nat)

  // What a search reports: `attempts` is the source's `cishu`.
  datatype SearchResult = SearchResult(priority: nat, action: nat, attempts: nat)

  // The meaning of a rule: the key carries the rule's bit wherever the mask is clear.
  ghost predicate Agrees(r: Rule, key: Word) {
    forall i: nat | i < 64 && !Bit(r.mask, i) :: Bit(r.value, i) == Bit(key, i)
  }

  // The linear table's test: the key with its wildcard bits cleared is the rule's value.
  predicate Matches(r: Rule, key: Word) {
    r.value == And(key, Not(r.mask))
  }

  predicate Normalised(r: Rule) {
    And(r.value, r.mask) == 0
  }

  // The rule with its value's wildcard bits cleared.
  function Normalise(r: Rule): (n: Rule)
    ensures n.mask == r.mask && n.priority == r.priority && n.action == r.action
  {
    AndFits(r.value, Not(r.mask));
    r.(value := And(r.value, Not(r.mask)))
  }

  // Normalising changes neither what a rule means nor a rule that is already normalised.
  lemma NormaliseMeaning(r: Rule, key: Word)
    ensures Normalised(Normalise(r))
    ensures Agrees(Normalise(r), key) <==> Agrees(r, key)
    ensures Normalised(r) ==> Normalise(r) == r
  {
    var v := Normalise(r).value;
    forall i: nat | i < 64 ensures Bit(v, i) == (Bit(r.value, i) && !Bit(r.mask, i)) {
      AndBit(r.value, Not(r.mask), i);
      NotBit(r.mask, i);
    }
    NormalisedByBits(v, r.mask);
    NormalisedByBits(r.value, r.mask);
    if Normalised(r) { EqualWords(v, r.value); }
  }

  lemma NormalisedByBits(v: Word, mask: Word)
    ensures And(v, mask) == 0 <==> forall i: nat | i < 64 :: !(Bit(v, i) && Bit(mask, i))
  {
    AndFits(v, mask);
    forall i: nat | i < 64 ensures Bit(And(v, mask), i) == (Bit(v, i) && Bit(mask, i)) {
      AndBit(v, mask, i);
    }
    if And(v, mask) == 0 {
      forall i: nat ensures !Bit(0, i) { ShrZero(i); }
    } else if forall i: nat | i < 64 :: !(Bit(v, i) && Bit(mask, i)) {
      forall i: nat ensures !Bit(0, i) { ShrZero(i); }
      EqualWords(And(v, mask), 0);
    }
  }

  // The linear test is exact on normalised rules, and never succeeds on any other.
  lemma MatchesMeaning(r: Rule, key: Word)
    ensures Matches(r, key) <==> Normalised(r) && Agrees(r, key)
  {
    var k := And(key, Not(r.mask));
    AndFits(key, Not(r.mask));
    forall i: nat | i < 64 ensures Bit(k, i) == (Bit(key, i) && !Bit(r.mask, i)) {
      AndBit(key, Not(r.mask), i);
      NotBit(r.mask, i);
    }
    NormalisedByBits(r.value, r.mask);
    if Normalised(r) && Agrees(r, key) {
      EqualWords(r.value, k);
    }
  }

  // ---------- Root paths ----------

  type Path = seq<bool>

  // The 64 branches a key takes from the root, most significant bit first.
  function KeyPath(key: Word): (p: Path)
    ensures |p| == 64
    ensures forall l | 0 <= l < 64 :: p[l] == Bit(key, 63 - l)
  {
    seq(64, l requires 0 <= l < 64 => Bit(key, 63 - l))
  }

  lemma KeyPathInjective(a: Word, b: Word)
    requires KeyPath(a) == KeyPath(b)
    ensures a == b
  {
    forall i: nat | i < 64 ensures Bit(a, i) == Bit(b, i) {
      assert KeyPath(a)[63 - i] == KeyPath(b)[63 - i];
    }
    EqualWords(a, b);
  }

  // The length of the path a prefix rule is stored at.
  function PrefixLen(mask: Word): (n: nat)
    requires mask != ALL_ONES
    ensures 1 <= n <= 64
  {
    WordLog2(mask + 1);
    64 - Log2(mask + 1)
  }

  function RulePath(r: Rule): (p: Path)
    requires r.mask != ALL_ONES
    ensures 1 <= |p| <= 64
  {
    KeyPath(r.value)[..PrefixLen(r.mask)]
  }

  lemma RulePathLength(r: Rule)
    requires r.mask != ALL_ONES
    ensures |RulePath(r)| == 64 - Log2(r.mask + 1)
  {
  }

  // The value's bits, from the top, select the branches.
  lemma RulePathBit(r: Rule, level: nat)
    requires r.mask != ALL_ONES && level < |RulePath(r)|
    ensures RulePath(r)[level] <==> Shr(r.value, 63 - level) % 2 == 1
  {
  }

  // With `suffix` trailing wildcards, the rule's path is a prefix of the key's path exactly
  // when the key agrees with the rule.
  lemma PathPrefixMeansAgrees(r: Rule, suffix: nat, key: Word)
    requires suffix < 64 && r.mask == Pow2(suffix) - 1
    ensures r.mask != ALL_ONES && |RulePath(r)| == 64 - suffix
    ensures RulePath(r) <= KeyPath(key) <==> Agrees(r, key)
  {
    Pow2Strict(suffix, 64);
    TwoTo64();
    Log2OfPow2(suffix);
    forall i: nat | i < 64 ensures Bit(r.mask, i) == (i < suffix) { LowMaskBit(suffix, i); }
    var n := 64 - suffix;
    if Agrees(r, key) {
      forall l | 0 <= l < n ensures RulePath(r)[l] == KeyPath(key)[l] {
        assert !Bit(r.mask, 63 - l);
      }
    }
    if RulePath(r) <= KeyPath(key) {
      forall i: nat | i < 64 && !Bit(r.mask, i) ensures Bit(r.value, i) == Bit(key, i) {
        assert RulePath(r)[63 - i] == KeyPath(key)[63 - i];
      }
    }
  }
}
