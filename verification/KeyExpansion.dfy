/** Expanding a ternary rule into the 64-bit keys it matches (`convert_rule`, `insert_rule`).

    The source shifts the `int` 1, so bit 31 is the sign bit: converted to `uint64_t` it
    sets bits 31..63, and a loop bound of 1 << 31 is negative, so that the loop never runs.
    `ShiftsDefined` excludes exactly the masks for which a shift by 32 or more, which is
    undefined, would be executed.
  */
module KeyExpansion {
  import opened Words
  import opened Rules
  import opened Expansion

  lemma IntPowers(n: nat)
    requires n <= 31
    ensures Pow2(31) == 0x8000_0000 && Pow2(32) == TWO32
    ensures n < 31 ==> Pow2(n) < Pow2(31)
  {
    Pow2PlusEight(0); Pow2PlusEight(8); Pow2PlusEight(16); Pow2PlusEight(24);
    if n < 31 { Pow2Strict(n, 31); }
  }

  // 1 << n on a 32-bit two's-complement int
  function IntShl1(n: nat): (r: int)
    requires n <= 31
    ensures -0x8000_0000 <= r < 0x8000_0000
  {
    IntPowers(n);
    if n == 31 then -0x8000_0000 else Pow2(n)
  }

  // Conversion of an int to uint64_t.
  function ToWord(x: int): Word
    requires -0x8000_0000 <= x < 0x8000_0000
  {
    if x < 0 then x + TWO64 else x
  }

  function AllPositions(mask: Word): seq<nat> {
    Positions(mask, 0, 64)
  }

  // How many wildcards the mask has.
  ghost function WildCount(mask: Word): nat {
    |set p: nat | p < 64 && Bit(mask, p)|
  }

  lemma WildCountMeaning(mask: Word)
    ensures |AllPositions(mask)| == WildCount(mask)
  {
    PositionsCount(mask, 0, 64);
    assert (set p: nat | 0 <= p < 64 && Bit(mask, p)) == (set p: nat | p < 64 && Bit(mask, p));
  }

  // How many keys a rule expands to: none when the bound 1 << 31 is negative.
  ghost function KeyNumber(mask: Word): nat {
    if WildCount(mask) == 31 then 0 else Pow2(WildCount(mask))
  }

  // The loop bound 1 << num is positive, and every shift in the loop body is defined.
  predicate LoopDefined(mask: Word) {
    var positions := AllPositions(mask);
    |positions| <= 30 && forall j | 0 <= j < |positions| :: positions[j] <= 31
  }

  // With 31 wildcards, wherever they are, the bound is negative and no other shift is executed.
  predicate ShiftsDefined(mask: Word) {
    |AllPositions(mask)| == 31 || LoopDefined(mask)
  }

  // The OR-ed operands, sign-extended when the position is 31.
  function IntWeights(positions: seq<nat>): (w: seq<Word>)
    requires forall j | 0 <= j < |positions| :: positions[j] <= 31
    ensures |w| == |positions|
    ensures forall j | 0 <= j < |w| :: w[j] == ToWord(IntShl1(positions[j]))
  {
    seq(|positions|, j requires 0 <= j < |positions| => ToWord(IntShl1(positions[j])))
  }

  function KeyAt(r: Rule, i: nat): Word
    requires LoopDefined(r.mask) && i < Pow2(|AllPositions(r.mask)|)
  {
    var n := |AllPositions(r.mask)|;
    OrSelected(Normalise(r).value, IntWeights(AllPositions(r.mask)), Pow2(n) - 1 - i)
  }

  // The keys generated, in order; none when the loop bound 1 << num is negative.
  function ConvertedKeys(r: Rule): (s: seq<Word>)
    requires ShiftsDefined(r.mask)
    ensures |s| == KeyNumber(r.mask)
  {
    WildCountMeaning(r.mask);
    var n := |AllPositions(r.mask)|;
    if n == 31 then []
    else seq(Pow2(n), i requires 0 <= i < Pow2(n) => KeyAt(r, i))
  }

  // The inner loop: OR in the weight of every position whose counter bit is clear.
  method KeyForCounter(base: Word, positions: seq<nat>, i: nat) returns (key: Word)
    requires forall j | 0 <= j < |positions| :: positions[j] <= 31
    requires i < Pow2(|positions|)
    ensures key == OrSelected(base, IntWeights(positions), Pow2(|positions|) - 1 - i)
  {
    key := base;
    ghost var w := IntWeights(positions);
    ghost var sel: nat := Pow2(|positions|) - 1 - i;
    var j := 0;
    while j < |positions|
      invariant 0 <= j <= |positions|
      invariant key == OrSelected(base, w[..j], sel)
    {
      CounterBit(|positions|, i, j);
      OrSelectedStep(base, w, sel, j);
      var weight := ToWord(IntShl1(positions[j]));
      OrFits(key, weight);
      if And(Pow2(j), i) == 0 {
        key := Or(key, weight);
      }
      j := j + 1;
    }
    assert w[..|positions|] == w;
  }

  // ((1 << j) & i) == 0 selects the bits of the complement of the counter.
  lemma CounterBit(n: nat, i: nat, j: nat)
    requires i < Pow2(n) && j < n
    ensures And(Pow2(j), i) == 0 <==> Bit(Pow2(n) - 1 - i, j)
  {
    AndPow2(j, i);
    ComplementBit(n, i, j);
  }

  method CollectPositions(mask: Word) returns (positions: seq<nat>)
    ensures positions == AllPositions(mask)
  {
    positions := [];
    var i := 0;
    while i < 64
      invariant 0 <= i <= 64
      invariant positions == Positions(mask, 0, i)
    {
      if Shr(mask, i) % 2 == 1 {
        positions := positions + [i];
      }
      i := i + 1;
    }
  }

  method ConvertRule(rulesTable: seq<Word>, r: Rule) returns (out: seq<Word>)
    requires ShiftsDefined(r.mask)
    ensures out == rulesTable + ConvertedKeys(r)
  {
    out := rulesTable;
    var positions := CollectPositions(r.mask);
    var bound := IntShl1(|positions|);
    ghost var keys := ConvertedKeys(r);
    var i := 0;
    while i < bound
      invariant 0 <= i && (bound >= 0 ==> i <= bound) && (bound < 0 ==> i == 0)
      invariant i <= |keys|
      invariant out == rulesTable + keys[..i]
    {
      var key := KeyForCounter(Normalise(r).value, positions, i);
      out := out + [key];
      i := i + 1;
    }
    assert keys[..i] == keys;
  }

  // ---------- What the list contains ----------

  /** A caller's check: at most 30 wildcards, and bit 31 is not one of them unless the
      value's upper half is already all ones. */
  ghost predicate ConvertSafe(r: Rule) {
    && |AllPositions(r.mask)| <= 30
    && (!Bit(r.mask, 31) || forall k: nat | 32 <= k < 64 :: Bit(r.value, k))
  }

  // ToWord(-2^31) carries exactly the bits 31..63.
  lemma SignExtendedBit(b: nat)
    requires b < 64
    ensures Bit(ToWord(IntShl1(31)), b) <==> 31 <= b
  {
    var low := 0x7FFF_FFFF;
    IntPowers(31);
    assert Pow2(31) - 1 == low;
    LowMaskBit(31, b);
    NotBit(low, b);
    assert ToWord(IntShl1(31)) == Not(low) by {
      assert -0x8000_0000 + TWO64 == TWO64 - 1 - low;
    }
  }

  lemma IntWeightBit(p: nat, b: nat)
    requires p <= 31 && b < 64
    ensures Bit(ToWord(IntShl1(p)), b) <==> p == b || (p == 31 && 31 <= b)
  {
    if p == 31 {
      SignExtendedBit(b);
    } else {
      Pow2Strict(p, 64);
      TwoTo64();
      Pow2Bit(p, b);
    }
  }

  lemma BaseBit(r: Rule, b: nat)
    requires b < 64
    ensures Bit(Normalise(r).value, b) <==> Bit(r.value, b) && !Bit(r.mask, b)
  {
    AndBit(r.value, Not(r.mask), b);
    NotBit(r.mask, b);
  }

  lemma KeyBit(r: Rule, i: nat, b: nat)
    requires LoopDefined(r.mask) && i < Pow2(|AllPositions(r.mask)|) && b < 64
    ensures Bit(KeyAt(r, i), b) <==>
            || (Bit(r.value, b) && !Bit(r.mask, b))
            || exists j: nat | j < |AllPositions(r.mask)| :: !Bit(i, j)
                 && (AllPositions(r.mask)[j] == b || (AllPositions(r.mask)[j] == 31 && 31 <= b))
  {
    var pos := AllPositions(r.mask);
    var w := IntWeights(pos);
    var sel: nat := Pow2(|pos|) - 1 - i;
    OrSelectedBit(Normalise(r).value, w, sel, b);
    BaseBit(r, b);
    forall j: nat | j < |pos|
      ensures Bit(sel, j) == !Bit(i, j)
      ensures Bit(w[j], b) <==> pos[j] == b || (pos[j] == 31 && 31 <= b)
    {
      ComplementBit(|pos|, i, j);
      IntWeightBit(pos[j], b);
    }
  }

  // On safe rules the sign extension is invisible.
  lemma SafeKeyBit(r: Rule, i: nat, b: nat)
    requires ShiftsDefined(r.mask) && ConvertSafe(r) && i < Pow2(|AllPositions(r.mask)|) && b < 64
    ensures !Bit(r.mask, b) ==> Bit(KeyAt(r, i), b) == Bit(r.value, b)
    ensures forall j: nat | j < |AllPositions(r.mask)| && AllPositions(r.mask)[j] == b ::
              Bit(KeyAt(r, i), b) == !Bit(i, j)
  {
    KeyBit(r, i, b);
    forall j: nat | j < |AllPositions(r.mask)| && AllPositions(r.mask)[j] == b
      ensures Bit(KeyAt(r, i), b) == !Bit(i, j)
    {
      SafeWildBit(r, i, j);
    }
  }

  lemma SafeWildBit(r: Rule, i: nat, j: nat)
    requires LoopDefined(r.mask) && i < Pow2(|AllPositions(r.mask)|) && j < |AllPositions(r.mask)|
    ensures Bit(KeyAt(r, i), AllPositions(r.mask)[j]) == !Bit(i, j)
  {
    var pos := AllPositions(r.mask);
    var b := pos[j];
    KeyBit(r, i, b);
    if Bit(KeyAt(r, i), b) {
      var m: nat :| m < |pos| && !Bit(i, m) && (pos[m] == b || (pos[m] == 31 && 31 <= b));
      PositionsDistinct(r.mask, 0, 64, m, j);
    }
  }

  lemma ConvertedSound(r: Rule, i: nat)
    requires ShiftsDefined(r.mask) && ConvertSafe(r) && i < Pow2(|AllPositions(r.mask)|)
    ensures Agrees(r, KeyAt(r, i))
  {
    forall b: nat | b < 64 && !Bit(r.mask, b) ensures Bit(r.value, b) == Bit(KeyAt(r, i), b) {
      SafeKeyBit(r, i, b);
    }
  }

  lemma ConvertedComplete(r: Rule, key: Word) returns (i: nat)
    requires ShiftsDefined(r.mask) && ConvertSafe(r) && Agrees(r, key)
    ensures i < Pow2(|AllPositions(r.mask)|) && KeyAt(r, i) == key
  {
    var pos := AllPositions(r.mask);
    var sel := Gather(pos, key);
    i := Pow2(|pos|) - 1 - sel;
    forall j: nat | j < |pos| ensures !Bit(i, j) == Bit(key, pos[j]) {
      ComplementBit(|pos|, sel, j);
    }
    forall b: nat | b < 64 ensures Bit(KeyAt(r, i), b) == Bit(key, b) {
      SelectedBit(r, key, i, b);
    }
    EqualWords(KeyAt(r, i), key);
  }

  lemma SelectedBit(r: Rule, key: Word, i: nat, b: nat)
    requires ShiftsDefined(r.mask) && ConvertSafe(r) && Agrees(r, key) && b < 64
    requires i < Pow2(|AllPositions(r.mask)|)
    requires forall j: nat | j < |AllPositions(r.mask)| :: !Bit(i, j) == Bit(key, AllPositions(r.mask)[j])
    ensures Bit(KeyAt(r, i), b) == Bit(key, b)
  {
    SafeKeyBit(r, i, b);
    if Bit(r.mask, b) {
      var j := PositionFound(r.mask, 0, 64, b);
    }
  }

  // Outside the safe rules some generated key is wrong or some matching key is missing.
  lemma UnsafeConvertFails(r: Rule)
    requires ShiftsDefined(r.mask) && !ConvertSafe(r)
    ensures exists key: Word :: !(key in ConvertedKeys(r) <==> Agrees(r, key))
  {
    var pos := AllPositions(r.mask);
    if |pos| == 31 {
      assert Agrees(r, r.value) && r.value !in ConvertedKeys(r);
    } else {
      var k: nat :| 32 <= k < 64 && !Bit(r.value, k);
      var j := PositionFound(r.mask, 0, 64, 31);
      var key := KeyAt(r, 0);
      KeyBit(r, 0, k);
      ShrZero(j);
      assert Bit(key, k);
      if Bit(r.mask, k) {
        var m := PositionFound(r.mask, 0, 64, k);
        assert false;
      }
      assert !Agrees(r, key);
      assert ConvertedKeys(r)[0] == key;
    }
  }

  /** The generated list holds exactly the keys that agree with the rule, if and only if the
      rule is safe for `int` shifts. */
  lemma ConvertExact(r: Rule)
    requires ShiftsDefined(r.mask)
    ensures (forall key: Word :: key in ConvertedKeys(r) <==> Agrees(r, key)) <==> ConvertSafe(r)
  {
    if ConvertSafe(r) {
      forall key: Word ensures key in ConvertedKeys(r) <==> Agrees(r, key) {
        if Agrees(r, key) {
          var i := ConvertedComplete(r, key);
          assert ConvertedKeys(r)[i] == key;
        }
        if key in ConvertedKeys(r) {
          var i :| 0 <= i < |ConvertedKeys(r)| && ConvertedKeys(r)[i] == key;
          ConvertedSound(r, i);
        }
      }
    } else {
      UnsafeConvertFails(r);
    }
  }

  // Above the highest difference of two counters their keys agree, sign extension included.
  lemma SameAbove(r: Rule, i: nat, k: nat, j: nat, c: nat)
    requires LoopDefined(r.mask) && i < Pow2(|AllPositions(r.mask)|) && k < Pow2(|AllPositions(r.mask)|)
    requires j < |AllPositions(r.mask)| && AllPositions(r.mask)[j] < c < 64
    requires forall m: nat | j < m :: Bit(i, m) == Bit(k, m)
    requires AllPositions(r.mask)[j] != 31
    ensures Bit(KeyAt(r, i), c) == Bit(KeyAt(r, k), c)
  {
    var pos := AllPositions(r.mask);
    KeyBit(r, i, c);
    KeyBit(r, k, c);
    forall m: nat | m < |pos| && (pos[m] == c || (pos[m] == 31 && 31 <= c)) ensures Bit(i, m) == Bit(k, m) {
      if m < j { PositionsAscending(r.mask, 0, 64, m, j); }
    }
  }

  lemma ConvertedDecreasing(r: Rule, i: nat, k: nat)
    requires LoopDefined(r.mask) && i < k < Pow2(|AllPositions(r.mask)|)
    ensures KeyAt(r, k) < KeyAt(r, i)
  {
    var pos := AllPositions(r.mask);
    var j := TopDifference(i, k);
    if j >= |pos| { HighBitsClear(k, |pos|, j); }
    var a, b := KeyAt(r, k), KeyAt(r, i);
    SafeWildBit(r, i, j);
    SafeWildBit(r, k, j);
    TwoTo64();
    if pos[j] == 31 {
      SignBitDecides(r, i, k, j);
    } else {
      forall c: nat | pos[j] < c ensures Bit(a, c) == Bit(b, c) {
        if c >= 64 {
          HighBitsClear(a, 64, c);
          HighBitsClear(b, 64, c);
        } else {
          SameAbove(r, i, k, j, c);
        }
      }
      LessByBit(a, b, pos[j]);
    }
  }

  // With bit 31 set a key carries all the bits 31 to 63, so it is the larger one.
  lemma SignBitDecides(r: Rule, i: nat, k: nat, j: nat)
    requires LoopDefined(r.mask) && i < Pow2(|AllPositions(r.mask)|) && k < Pow2(|AllPositions(r.mask)|)
    requires j < |AllPositions(r.mask)| && AllPositions(r.mask)[j] == 31 && !Bit(i, j) && Bit(k, j)
    ensures KeyAt(r, k) < KeyAt(r, i)
  {
    var a, b := KeyAt(r, k), KeyAt(r, i);
    forall c: nat | 31 <= c < 64 ensures Bit(b, c) { KeyBit(r, i, c); }
    SafeWildBit(r, k, j);
    if b <= a {
      assert a != b;
      var c := TopDifference(b, a);
      if c >= 64 { TwoTo64(); HighBitsClear(a, 64, c); }
    }
  }

  /** Ordered enumeration: 2^popcount(mask) keys, strictly decreasing from base | mask to base. */
  lemma ConvertOrdered(r: Rule)
    requires ShiftsDefined(r.mask) && ConvertSafe(r)
    ensures var s := ConvertedKeys(r);
            && |s| == Pow2(|AllPositions(r.mask)|)
            && (forall i, k | 0 <= i < k < |s| :: s[k] < s[i])
            && s[0] == Or(Normalise(r).value, r.mask)
            && s[|s| - 1] == Normalise(r).value
  {
    var s := ConvertedKeys(r);
    var n := |AllPositions(r.mask)|;
    forall i, k | 0 <= i < k < |s| ensures s[k] < s[i] { ConvertedDecreasing(r, i, k); }
    var base := Normalise(r).value;
    OrFits(base, r.mask);
    forall b: nat | b < 64
      ensures Bit(s[0], b) == Bit(Or(base, r.mask), b)
      ensures Bit(s[|s| - 1], b) == Bit(base, b)
    {
      OrBit(base, r.mask, b);
      BaseBit(r, b);
      SafeKeyBit(r, 0, b);
      SafeKeyBit(r, Pow2(n) - 1, b);
      if Bit(r.mask, b) {
        var j := PositionFound(r.mask, 0, 64, b);
        ShrZero(j);
        LowMaskBit(n, j);
      }
    }
    EqualWords(s[0], Or(base, r.mask));
    EqualWords(s[|s| - 1], base);
  }

  // ---------- The list on all rules ----------

  /** The keys an expansion reaches, sign extension included: at most 30 wildcards, the low half
      agrees with the rule, and the high half is the rule's value, unless bit 31 is a wildcard that
      the key sets: then it is all ones. */
  ghost predicate Generated(r: Rule, key: Word) {
    && WildCount(r.mask) <= 30
    && (forall b: nat | b < 32 && !Bit(r.mask, b) :: Bit(key, b) == Bit(r.value, b))
    && (forall b: nat | 32 <= b < 64 :: Bit(key, b) <==> Bit(r.value, b) || (Bit(r.mask, 31) && Bit(key, 31)))
  }

  lemma GeneratedIsKey(r: Rule, key: Word) returns (i: nat)
    requires LoopDefined(r.mask) && Generated(r, key)
    ensures i < Pow2(|AllPositions(r.mask)|) && KeyAt(r, i) == key
  {
    var pos := AllPositions(r.mask);
    var sel := Gather(pos, key);
    i := Pow2(|pos|) - 1 - sel;
    forall j: nat | j < |pos| ensures !Bit(i, j) == Bit(key, pos[j]) {
      ComplementBit(|pos|, sel, j);
    }
    forall b: nat | b < 64 ensures Bit(KeyAt(r, i), b) == Bit(key, b) {
      GatheredBit(r, key, i, b);
    }
    EqualWords(KeyAt(r, i), key);
  }

  lemma NoHighWildcard(mask: Word, b: nat)
    requires LoopDefined(mask) && 32 <= b < 64
    ensures !Bit(mask, b)
  {
    if Bit(mask, b) { var j := PositionFound(mask, 0, 64, b); }
  }

  lemma GatheredBit(r: Rule, key: Word, i: nat, b: nat)
    requires LoopDefined(r.mask) && Generated(r, key) && b < 64
    requires i < Pow2(|AllPositions(r.mask)|)
    requires forall j: nat | j < |AllPositions(r.mask)| :: !Bit(i, j) == Bit(key, AllPositions(r.mask)[j])
    ensures Bit(KeyAt(r, i), b) == Bit(key, b)
  {
    var pos := AllPositions(r.mask);
    if Bit(r.mask, b) {
      var j := PositionFound(r.mask, 0, 64, b);
      SafeWildBit(r, i, j);
    } else {
      KeyBit(r, i, b);
      if Bit(r.mask, 31) { var m := PositionFound(r.mask, 0, 64, 31); }
    }
  }

  lemma KeyIsGenerated(r: Rule, i: nat)
    requires LoopDefined(r.mask) && i < Pow2(|AllPositions(r.mask)|)
    ensures Generated(r, KeyAt(r, i))
  {
    WildCountMeaning(r.mask);
    var pos, key := AllPositions(r.mask), KeyAt(r, i);
    forall b: nat | b < 32 && !Bit(r.mask, b) ensures Bit(key, b) == Bit(r.value, b) { KeyBit(r, i, b); }
    forall b: nat | 32 <= b < 64 ensures Bit(key, b) <==> Bit(r.value, b) || (Bit(r.mask, 31) && Bit(key, 31)) {
      NoHighWildcard(r.mask, b);
      KeyBit(r, i, b);
      KeyBit(r, i, 31);
    }
  }

  /** The whole list, wherever the shifts are defined: 2^wildcards keys (none for 31 wildcards),
      strictly decreasing, and exactly the generated ones. */
  lemma ConvertList(r: Rule)
    requires ShiftsDefined(r.mask)
    ensures var s := ConvertedKeys(r);
            && |s| == (if WildCount(r.mask) == 31 then 0 else Pow2(WildCount(r.mask)))
            && (forall i, k | 0 <= i < k < |s| :: s[k] < s[i])
            && (forall key: Word :: key in s <==> Generated(r, key))
  {
    WildCountMeaning(r.mask);
    var s := ConvertedKeys(r);
    if |AllPositions(r.mask)| != 31 {
      forall i, k | 0 <= i < k < |s| ensures s[k] < s[i] { ConvertedDecreasing(r, i, k); }
      forall key: Word ensures key in s <==> Generated(r, key) {
        if key in s {
          var i :| 0 <= i < |s| && s[i] == key;
          KeyIsGenerated(r, i);
        }
        if Generated(r, key) {
          var i := GeneratedIsKey(r, key);
          assert s[i] == key;
        }
      }
    }
  }

  // On safe rules these are the keys that agree with the rule.
  lemma GeneratedMeansAgrees(r: Rule, key: Word)
    requires ShiftsDefined(r.mask) && ConvertSafe(r)
    ensures Generated(r, key) <==> Agrees(r, key)
  {
    ConvertList(r);
    ConvertExact(r);
  }
}
