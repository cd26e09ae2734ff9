/** Rewriting a ternary rule as prefix rules or as single keys, by scattering the bits of a
    counter over the wildcard positions of the mask. */
module Expansion {
  import opened Words
  import opened Rules

  // ---------- Reading a mask ----------

  function FirstClearFrom(mask: Word, i: nat): (b: nat)
    requires i <= 64
    decreases 64 - i, mask
  {
    if i == 64 then 0 else if !Bit(mask, i) then i else FirstClearFrom(mask, i + 1)
  }

  // The lowest clear mask bit; 0 when there is none.
  function Boundary(mask: Word): nat {
    FirstClearFrom(mask, 0)
  }

  lemma {:induction false} FirstClearMeaning(mask: Word, i: nat)
    requires i <= 64 && forall k: nat | k < i :: Bit(mask, k)
    ensures var b := FirstClearFrom(mask, i);
            && b < 64
            && (mask == ALL_ONES ==> b == 0)
            && (mask != ALL_ONES ==> !Bit(mask, b) && forall k: nat | k < b :: Bit(mask, k))
    decreases 64 - i
  {
    TwoTo64();
    if i == 64 {
      forall k: nat | k < 64 ensures Bit(ALL_ONES, k) { LowMaskBit(64, k); }
      EqualWords(mask, ALL_ONES);
    } else if Bit(mask, i) {
      FirstClearMeaning(mask, i + 1);
    } else {
      LowMaskBit(64, i);
    }
  }

  // The set positions of `mask` in [lo, hi), ascending.
  function Positions(mask: Word, lo: nat, hi: nat): (s: seq<nat>)
    ensures |s| <= if lo <= hi then hi - lo else 0
    ensures forall j | 0 <= j < |s| :: lo <= s[j] < hi && Bit(mask, s[j])
    decreases hi, mask
  {
    if hi <= lo then []
    else if Bit(mask, hi - 1) then Positions(mask, lo, hi - 1) + [hi - 1]
    else Positions(mask, lo, hi - 1)
  }

  lemma {:induction false} PositionsAscending(mask: Word, lo: nat, hi: nat, j: nat, k: nat)
    requires j < k < |Positions(mask, lo, hi)|
    ensures Positions(mask, lo, hi)[j] < Positions(mask, lo, hi)[k]
    decreases hi
  {
    if k < |Positions(mask, lo, hi - 1)| { PositionsAscending(mask, lo, hi - 1, j, k); }
  }

  // A position is listed once.
  lemma PositionsDistinct(mask: Word, lo: nat, hi: nat, j: nat, k: nat)
    requires j < |Positions(mask, lo, hi)| && k < |Positions(mask, lo, hi)|
    requires Positions(mask, lo, hi)[j] == Positions(mask, lo, hi)[k]
    ensures j == k
  {
    if j < k { PositionsAscending(mask, lo, hi, j, k); }
    if k < j { PositionsAscending(mask, lo, hi, k, j); }
  }

  lemma {:induction false} NoPositions(mask: Word, lo: nat, hi: nat)
    requires forall k: nat | lo <= k < hi :: !Bit(mask, k)
    ensures Positions(mask, lo, hi) == []
    decreases hi
  {
    if lo < hi { NoPositions(mask, lo, hi - 1); }
  }

  lemma {:induction false} PositionFound(mask: Word, lo: nat, hi: nat, p: nat) returns (j: nat)
    requires lo <= p < hi && Bit(mask, p)
    ensures j < |Positions(mask, lo, hi)| && Positions(mask, lo, hi)[j] == p
    decreases hi
  {
    if p == hi - 1 {
      j := |Positions(mask, lo, hi)| - 1;
    } else {
      j := PositionFound(mask, lo, hi - 1, p);
    }
  }

  // The listing counts the set positions.
  lemma {:induction false} PositionsCount(mask: Word, lo: nat, hi: nat)
    ensures |Positions(mask, lo, hi)| == |set p: nat | lo <= p < hi && Bit(mask, p)|
    decreases hi
  {
    var s := set p: nat | lo <= p < hi && Bit(mask, p);
    if lo < hi {
      PositionsCount(mask, lo, hi - 1);
      var t := set p: nat | lo <= p < hi - 1 && Bit(mask, p);
      assert s == if Bit(mask, hi - 1) then t + {hi - 1} else t;
    } else {
      assert s == {};
    }
  }

  // The scan shared by `get_new_num` and `expand_rule`.
  method ScanMask(mask: Word) returns (boundary: nat, positions: seq<nat>)
    ensures boundary == Boundary(mask)
    ensures positions == WildPositions(mask)
  {
    boundary := ScanBoundary(mask);
    positions := [];
    FirstClearMeaning(mask, 0);
    var j := boundary + 1;
    while j < 64
      invariant boundary + 1 <= j <= 64
      invariant positions == Positions(mask, boundary + 1, j)
    {
      if Shr(mask, j) % 2 == 1 {
        positions := positions + [j];
      }
      j := j + 1;
    }
  }

  method ScanBoundary(mask: Word) returns (boundary: nat)
    ensures boundary == Boundary(mask)
  {
    boundary := 0;
    var i := 0;
    while i < 64
      invariant 0 <= i <= 64
      invariant boundary == 0
      invariant Boundary(mask) == FirstClearFrom(mask, i)
    {
      if Shr(mask, i) % 2 == 0 {
        boundary := i;
        break;
      }
      i := i + 1;
    }
  }

  // ---------- Scattering ----------

  // `base` with weight j OR-ed in for every set bit j of the selector.
  function OrSelected(base: Word, weights: seq<Word>, sel: nat): Word
  {
    if weights == [] then base
    else
      var n := |weights| - 1;
      var r := OrSelected(base, weights[..n], sel);
      OrFits(r, weights[n]);
      if Bit(sel, n) then Or(r, weights[n]) else r
  }

  lemma OrSelectedStep(base: Word, weights: seq<Word>, sel: nat, j: nat)
    requires j < |weights|
    ensures OrSelected(base, weights[..j + 1], sel) ==
            if Bit(sel, j) then Or(OrSelected(base, weights[..j], sel), weights[j])
            else OrSelected(base, weights[..j], sel)
  {
    assert weights[..j + 1][..j] == weights[..j];
  }

  lemma {:induction false} OrSelectedBit(base: Word, weights: seq<Word>, sel: nat, b: nat)
    ensures Bit(OrSelected(base, weights, sel), b) <==>
            Bit(base, b) || exists j: nat | j < |weights| :: Bit(sel, j) && Bit(weights[j], b)
  {
    if weights != [] {
      var n := |weights| - 1;
      var front := weights[..n];
      OrSelectedBit(base, front, sel, b);
      OrBit(OrSelected(base, front, sel), weights[n], b);
      if exists j: nat | j < n :: Bit(sel, j) && Bit(front[j], b) {
        var j: nat :| j < n && Bit(sel, j) && Bit(front[j], b);
        assert Bit(weights[j], b);
      }
      if exists j: nat | j < |weights| :: Bit(sel, j) && Bit(weights[j], b) {
        var j: nat :| j < |weights| && Bit(sel, j) && Bit(weights[j], b);
        assert j < n ==> Bit(front[j], b);
      }
    }
  }

  // 1 << p for each position, in 64-bit arithmetic.
  function Weights(positions: seq<nat>): (w: seq<Word>)
    requires forall p | p in positions :: p < 64
    ensures |w| == |positions|
    ensures forall j | 0 <= j < |w| :: w[j] == Pow2(positions[j])
  {
    if positions == [] then []
    else
      var n := |positions| - 1;
      assert positions[n] in positions;
      assert forall p | p in positions[..n] :: p in positions;
      Pow2Strict(positions[n], 64);
      TwoTo64();
      Weights(positions[..n]) + [Pow2(positions[n])]
  }

  lemma ScatteredBit(base: Word, positions: seq<nat>, sel: nat, b: nat)
    requires forall p | p in positions :: p < 64
    ensures Bit(OrSelected(base, Weights(positions), sel), b) <==>
            Bit(base, b) || exists j: nat | j < |positions| :: positions[j] == b && Bit(sel, j)
  {
    var w := Weights(positions);
    OrSelectedBit(base, w, sel, b);
    forall j: nat | j < |positions| ensures Bit(w[j], b) <==> positions[j] == b {
      Pow2Bit(positions[j], b);
    }
    if exists j: nat | j < |positions| :: positions[j] == b && Bit(sel, j) {
      var j: nat :| j < |positions| && positions[j] == b && Bit(sel, j);
      assert Bit(sel, j) && Bit(w[j], b);
    }
    if exists j: nat | j < |w| :: Bit(sel, j) && Bit(w[j], b) {
      var j: nat :| j < |w| && Bit(sel, j) && Bit(w[j], b);
      assert positions[j] == b && Bit(sel, j);
    }
  }

  // The selector whose scattered bits are the bits of `key` at `positions`.
  ghost function Gather(positions: seq<nat>, key: Word): (sel: nat)
    ensures sel < Pow2(|positions|)
    ensures forall j: nat | j < |positions| :: Bit(sel, j) == Bit(key, positions[j])
  {
    if positions == [] then 0
    else
      var s := Gather(positions[1..], key);
      var sel := 2 * s + if Bit(key, positions[0]) then 1 else 0;
      assert forall j: nat | j < |positions| :: Bit(sel, j) == Bit(key, positions[j]) by {
        forall j: nat | j < |positions| ensures Bit(sel, j) == Bit(key, positions[j]) {
          if j > 0 { assert Bit(sel, j) == Bit(s, j - 1); }
        }
      }
      sel
  }

  // ---------- Prefix expansion (`expand_rule`) ----------

  function WildPositions(mask: Word): seq<nat> {
    Positions(mask, Boundary(mask) + 1, 64)
  }

  // `get_new_num`: how many wildcards lie above the trailing ones.
  function NewNum(mask: Word): nat {
    |WildPositions(mask)|
  }

  ghost predicate ClearBelow(mask: Word, p: nat) {
    exists c: nat :: c < p && !Bit(mask, c)
  }

  // How many set mask bits have a clear bit somewhere below them.
  ghost function ExpandedWildcards(mask: Word): nat {
    |set p: nat | p < 64 && Bit(mask, p) && ClearBelow(mask, p)|
  }

  // Those are the set bits above the lowest clear one.
  lemma WildcardsAbove(mask: Word, b: nat)
    requires b < 64 && !Bit(mask, b) && forall i: nat | i < b :: Bit(mask, i)
    ensures mask != ALL_ONES && ExpandedWildcards(mask) == |set p: nat | b < p < 64 && Bit(mask, p)|
  {
    LowMaskBit(64, b);
    TwoTo64();
    assert (set p: nat | b < p < 64 && Bit(mask, p)) == (set p: nat | p < 64 && Bit(mask, p) && ClearBelow(mask, p));
  }

  lemma NewNumMeaning(mask: Word)
    requires mask != ALL_ONES
    ensures NewNum(mask) == ExpandedWildcards(mask)
  {
    FirstClearMeaning(mask, 0);
    var b := Boundary(mask);
    PositionsCount(mask, b + 1, 64);
    WildcardsAbove(mask, b);
    assert (set p: nat | b + 1 <= p < 64 && Bit(mask, p)) == (set p: nat | b < p < 64 && Bit(mask, p));
  }

  lemma {:induction false} AllPositionsSet(mask: Word, lo: nat, hi: nat)
    requires lo <= hi && forall k: nat | k < hi :: Bit(mask, k)
    ensures |Positions(mask, lo, hi)| == hi - lo
    decreases hi
  {
    if lo < hi { AllPositionsSet(mask, lo, hi - 1); }
  }

  // The all-ones mask leaves the boundary at 0 and counts 63 wildcards.
  lemma AllOnesBlowsUp()
    ensures NewNum(ALL_ONES) == 63
  {
    TwoTo64();
    FirstClearMeaning(ALL_ONES, 0);
    forall k: nat | k < 64 ensures Bit(ALL_ONES, k) { LowMaskBit(64, k); }
    AllPositionsSet(ALL_ONES, 1, 64);
  }

  function ExpandedMask(mask: Word): Word {
    FirstClearMeaning(mask, 0);
    TwoTo64();
    Pow2Strict(Boundary(mask), 64);
    Pow2(Boundary(mask)) - 1
  }

  // The prefix rule generated for one value of the loop counter.
  function ExpandedRule(r: Rule, i: nat): (e: Rule)
    ensures e.mask != ALL_ONES
    ensures e.priority == r.priority && e.action == r.action
  {
    FirstClearMeaning(r.mask, 0);
    Pow2Strict(Boundary(r.mask), 64);
    TwoTo64();
    Rule(OrSelected(r.value, Weights(WildPositions(r.mask)), i),
         ExpandedMask(r.mask), r.priority, r.action)
  }

  function ExpandedRules(r: Rule): (s: seq<Rule>)
    ensures |s| == Pow2(NewNum(r.mask))
    ensures forall i | 0 <= i < |s| :: s[i] == ExpandedRule(r, i)
  {
    seq(Pow2(NewNum(r.mask)), i requires 0 <= i => ExpandedRule(r, i))
  }

  // The recovered suffix length: mylog2(mask + 1) undoes (1 << boundary) - 1.
  lemma ExpandedPath(r: Rule, i: nat, key: Word)
    ensures |RulePath(ExpandedRule(r, i))| == 64 - Boundary(r.mask)
    ensures RulePath(ExpandedRule(r, i)) <= KeyPath(key) <==> Agrees(ExpandedRule(r, i), key)
  {
    FirstClearMeaning(r.mask, 0);
    PathPrefixMeansAgrees(ExpandedRule(r, i), Boundary(r.mask), key);
  }

  // A caller's check: no bit of the value is set at a position that expansion fills in.
  ghost predicate ExpansionSafe(r: Rule) {
    forall p | p in WildPositions(r.mask) :: !Bit(r.value, p)
  }

  // The loop over the wildcard positions: OR in the weight of every set counter bit.
  method ScatterCounter(base: Word, positions: seq<nat>, i: nat) returns (value: Word)
    requires forall j | 0 <= j < |positions| :: positions[j] < 64
    ensures (forall p | p in positions :: p < 64) && value == OrSelected(base, Weights(positions), i)
  {
    assert forall p | p in positions :: p < 64;
    value := base;
    ghost var w := Weights(positions);
    var j := 0;
    while j < |positions|
      invariant 0 <= j <= |positions|
      invariant value == OrSelected(base, w[..j], i)
    {
      AndPow2(j, i);
      OrSelectedStep(base, w, i, j);
      Pow2Strict(positions[j], 64);
      TwoTo64();
      var weight: Word := Pow2(positions[j]);
      OrFits(value, weight);
      if And(Pow2(j), i) != 0 {
        value := Or(value, weight);
      }
      j := j + 1;
    }
    assert w[..|positions|] == w;
  }

  // One iteration of the expansion: the prefix rule for counter value i.
  method ExpandCounter(r: Rule, boundary: nat, positions: seq<nat>, i: nat) returns (e: Rule)
    requires boundary == Boundary(r.mask) && positions == WildPositions(r.mask)
    ensures e == ExpandedRule(r, i)
  {
    var value := ScatterCounter(r.value, positions, i);
    FirstClearMeaning(r.mask, 0);
    Pow2Strict(boundary, 64);
    TwoTo64();
    e := Rule(value, Pow2(boundary) - 1, r.priority, r.action);
  }

  lemma NormalisedIsSafe(r: Rule)
    requires Normalised(r)
    ensures ExpansionSafe(r)
  {
    NormalisedByBits(r.value, r.mask);
  }

  lemma FixedExpandedBit(r: Rule, i: nat, c: nat)
    requires r.mask != ALL_ONES && Boundary(r.mask) <= c < 64 && !Bit(r.mask, c)
    ensures Bit(ExpandedRule(r, i).value, c) == Bit(r.value, c)
  {
    FirstClearMeaning(r.mask, 0);
    ScatteredBit(r.value, WildPositions(r.mask), i, c);
  }

  lemma WildExpandedBit(r: Rule, i: nat, j: nat)
    requires r.mask != ALL_ONES && j < NewNum(r.mask)
    ensures var c := WildPositions(r.mask)[j];
            Bit(ExpandedRule(r, i).value, c) == (Bit(r.value, c) || Bit(i, j))
  {
    FirstClearMeaning(r.mask, 0);
    var pos := WildPositions(r.mask);
    ScatteredBit(r.value, pos, i, pos[j]);
    if m: nat :| m < |pos| && pos[m] == pos[j] && Bit(i, m) {
      PositionsDistinct(r.mask, Boundary(r.mask) + 1, 64, j, m);
    }
  }

  lemma ExpandedAgreesBits(r: Rule, i: nat, key: Word)
    requires r.mask != ALL_ONES
    ensures Agrees(ExpandedRule(r, i), key) <==>
            forall c: nat | Boundary(r.mask) <= c < 64 :: Bit(ExpandedRule(r, i).value, c) == Bit(key, c)
  {
    FirstClearMeaning(r.mask, 0);
    forall c: nat ensures Bit(ExpandedMask(r.mask), c) == (c < Boundary(r.mask)) {
      LowMaskBit(Boundary(r.mask), c);
    }
  }

  // The keys the expansion of a rule reaches: they agree with the rule, and carry every bit its
  // value has at an expanded position.
  ghost predicate Covers(r: Rule, key: Word) {
    Agrees(r, key) && forall p | p in WildPositions(r.mask) && Bit(r.value, p) :: Bit(key, p)
  }

  lemma SafeCovers(r: Rule, key: Word)
    requires ExpansionSafe(r)
    ensures Covers(r, key) <==> Agrees(r, key)
  {
  }

  // Every expanded rule only matches keys the rule matches, stray value bits or not.
  lemma ExpansionSound(r: Rule, i: nat, key: Word)
    requires r.mask != ALL_ONES && Agrees(ExpandedRule(r, i), key)
    ensures Agrees(r, key) && Covers(r, key)
  {
    FirstClearMeaning(r.mask, 0);
    ExpandedAgreesBits(r, i, key);
    forall c: nat | c < 64 && !Bit(r.mask, c) ensures Bit(r.value, c) == Bit(key, c) {
      FixedExpandedBit(r, i, c);
    }
    var pos := WildPositions(r.mask);
    forall p | p in pos && Bit(r.value, p) ensures Bit(key, p) {
      var j :| 0 <= j < |pos| && pos[j] == p;
      WildExpandedBit(r, i, j);
    }
  }

  // Every key covered is matched by the expanded rule its own bits select.
  lemma ExpansionComplete(r: Rule, key: Word) returns (i: nat)
    requires r.mask != ALL_ONES && Covers(r, key)
    ensures i < Pow2(NewNum(r.mask)) && Agrees(ExpandedRule(r, i), key)
  {
    var pos := WildPositions(r.mask);
    i := Gather(pos, key);
    forall c: nat | Boundary(r.mask) <= c < 64
      ensures Bit(ExpandedRule(r, i).value, c) == Bit(key, c)
    {
      FirstClearMeaning(r.mask, 0);
      if Bit(r.mask, c) {
        var j := PositionFound(r.mask, Boundary(r.mask) + 1, 64, c);
        assert pos[j] == c && c in pos;
        WildExpandedBit(r, i, j);
      } else {
        FixedExpandedBit(r, i, c);
      }
    }
    ExpandedAgreesBits(r, i, key);
  }

  // The order of the prefix rules: the i-th one takes the keys that spell i, lowest bit first, at
  // the expanded positions.
  lemma ExpansionOrder(r: Rule, i: nat, key: Word)
    requires r.mask != ALL_ONES && ExpansionSafe(r) && i < Pow2(NewNum(r.mask))
    ensures Agrees(ExpandedRules(r)[i], key) <==>
            Agrees(r, key) && forall j: nat | j < NewNum(r.mask) :: Bit(key, WildPositions(r.mask)[j]) == Bit(i, j)
  {
    var pos, e := WildPositions(r.mask), ExpandedRule(r, i);
    ExpandedAgreesBits(r, i, key);
    hide Agrees;
    forall j: nat | j < |pos| ensures Bit(e.value, pos[j]) == Bit(i, j) {
      assert pos[j] in pos;
      WildExpandedBit(r, i, j);
    }
    FirstClearMeaning(r.mask, 0);
    if Agrees(e, key) { ExpansionSound(r, i, key); }
    if Agrees(r, key) && forall j: nat | j < |pos| :: Bit(key, pos[j]) == Bit(i, j) { SpelledAgrees(r, i, key); }
  }

  lemma SpelledAgrees(r: Rule, i: nat, key: Word)
    requires r.mask != ALL_ONES && ExpansionSafe(r) && Agrees(r, key)
    requires forall j: nat | j < NewNum(r.mask) :: Bit(key, WildPositions(r.mask)[j]) == Bit(i, j)
    ensures Agrees(ExpandedRule(r, i), key)
  {
    var pos, e := WildPositions(r.mask), ExpandedRule(r, i);
    FirstClearMeaning(r.mask, 0);
    ExpandedAgreesBits(r, i, key);
    forall c: nat | Boundary(r.mask) <= c < 64 ensures Bit(e.value, c) == Bit(key, c) {
      if Bit(r.mask, c) {
        var j := PositionFound(r.mask, Boundary(r.mask) + 1, 64, c);
        assert pos[j] in pos;
        WildExpandedBit(r, i, j);
      } else {
        FixedExpandedBit(r, i, c);
      }
    }
  }

  lemma ExpansionDisjoint(r: Rule, i: nat, k: nat, key: Word)
    requires r.mask != ALL_ONES && ExpansionSafe(r)
    requires i < Pow2(NewNum(r.mask)) && k < Pow2(NewNum(r.mask))
    requires Agrees(ExpandedRule(r, i), key) && Agrees(ExpandedRule(r, k), key)
    ensures i == k
  {
    var pos := WildPositions(r.mask);
    ExpandedAgreesBits(r, i, key);
    ExpandedAgreesBits(r, k, key);
    forall j: nat | j < |pos| ensures Bit(i, j) == Bit(k, j) {
      assert pos[j] in pos;
      WildExpandedBit(r, i, j);
      WildExpandedBit(r, k, j);
    }
    EqualByBits(i, k, |pos|);
  }

  ghost predicate CoveredExactlyOnce(r: Rule, key: Word) {
    && (Agrees(r, key) <==> exists i: nat | i < Pow2(NewNum(r.mask)) :: Agrees(ExpandedRule(r, i), key))
    && (forall i: nat, k: nat | i < Pow2(NewNum(r.mask)) && k < Pow2(NewNum(r.mask)) ::
          Agrees(ExpandedRule(r, i), key) && Agrees(ExpandedRule(r, k), key) ==> i == k)
  }

  /** The expansion is an exact disjoint cover for every key if and only if the value carries
      no bit at an expanded position; normalised rules always qualify. */
  lemma ExactDisjointCover(r: Rule)
    requires r.mask != ALL_ONES
    ensures (forall key: Word :: CoveredExactlyOnce(r, key)) <==> ExpansionSafe(r)
    ensures Normalised(r) ==> ExpansionSafe(r)
  {
    if Normalised(r) { NormalisedIsSafe(r); }
    if ExpansionSafe(r) {
      forall key: Word ensures CoveredExactlyOnce(r, key) {
        SafeCovers(r, key);
        if Agrees(r, key) { var i := ExpansionComplete(r, key); }
        forall i: nat | i < Pow2(NewNum(r.mask)) && Agrees(ExpandedRule(r, i), key)
          ensures Agrees(r, key)
        { ExpansionSound(r, i, key); }
        forall i: nat, k: nat | i < Pow2(NewNum(r.mask)) && k < Pow2(NewNum(r.mask))
            && Agrees(ExpandedRule(r, i), key) && Agrees(ExpandedRule(r, k), key)
          ensures i == k
        { ExpansionDisjoint(r, i, k, key); }
      }
    } else {
      var key := UnsafeKeyMissed(r);
      assert !CoveredExactlyOnce(r, key);
    }
  }

  // A stray value bit makes some matching key unreachable.
  lemma UnsafeKeyMissed(r: Rule) returns (key: Word)
    requires r.mask != ALL_ONES && !ExpansionSafe(r)
    ensures Agrees(r, key) && forall i: nat :: !Agrees(ExpandedRule(r, i), key)
  {
    var pos := WildPositions(r.mask);
    var p :| p in pos && Bit(r.value, p);
    var j :| 0 <= j < |pos| && pos[j] == p;
    Pow2Strict(p, 64);
    TwoTo64();
    var w: Word := Pow2(p);
    AndFits(r.value, Not(w));
    key := And(r.value, Not(w));
    forall c: nat | c < 64 ensures Bit(key, c) == (Bit(r.value, c) && c != p) {
      AndBit(r.value, Not(w), c);
      NotBit(w, c);
      Pow2Bit(p, c);
    }
    assert Agrees(r, key);
    forall i: nat ensures !Agrees(ExpandedRule(r, i), key) {
      ExpandedAgreesBits(r, i, key);
      WildExpandedBit(r, i, j);
      assert Bit(ExpandedRule(r, i).value, p);
      assert !Bit(key, p);
    }
  }
}
