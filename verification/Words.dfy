/** Unsigned 64-bit words, read bit by bit.

    A `uint64_t` is a natural number below 2^64, `w >> n` is n halvings, `w & 1` is the
    parity, and the bitwise operators are defined by recursion on the halves. Everything
    the matchers need is then a statement about `Bit(w, i)`.
  */
module Words {
  const TWO32: nat := 0x1_0000_0000
  const TWO64: nat := 0x1_0000_0000_0000_0000
  const UINT_MAX: nat := 0xFFFF_FFFF

  type Word = w: int | 0 <= w < TWO64

  function Pow2(n: nat): (r: nat)
    ensures r > 0
  {
    if n == 0 then 1 else 2 * Pow2(n - 1)
  }

  // w >> n
  function Shr(w: nat, n: nat): nat {
    if n == 0 then w else Shr(w / 2, n - 1)
  }

  // ((w >> i) & 1) == 1
  predicate Bit(w: nat, i: nat) {
    Shr(w, i) % 2 == 1
  }

  // a | b
  function Or(a: nat, b: nat): nat
    decreases a + b
  {
    if a == 0 then b
    else if b == 0 then a
    else 2 * Or(a / 2, b / 2) + (if a % 2 == 1 || b % 2 == 1 then 1 else 0)
  }

  // a & b
  function And(a: nat, b: nat): nat
    decreases a
  {
    if a == 0 || b == 0 then 0
    else 2 * And(a / 2, b / 2) + (if a % 2 == 1 && b % 2 == 1 then 1 else 0)
  }

  // ~w
  function Not(w: Word): Word {
    TWO64 - 1 - w
  }

  lemma {:induction false} ShrZero(n: nat)
    ensures Shr(0, n) == 0
  {
    if n > 0 { ShrZero(n - 1); }
  }

  lemma {:induction false} OrBit(a: nat, b: nat, i: nat)
    ensures Bit(Or(a, b), i) == (Bit(a, i) || Bit(b, i))
    decreases i
  {
    ShrZero(i);
    if a != 0 && b != 0 && i > 0 {
      OrBit(a / 2, b / 2, i - 1);
    }
  }

  lemma {:induction false} AndBit(a: nat, b: nat, i: nat)
    ensures Bit(And(a, b), i) == (Bit(a, i) && Bit(b, i))
    decreases i
  {
    ShrZero(i);
    if a != 0 && b != 0 && i > 0 {
      AndBit(a / 2, b / 2, i - 1);
    }
  }

  lemma {:induction false} ComplementBit(n: nat, w: nat, i: nat)
    requires w < Pow2(n) && i < n
    ensures Bit(Pow2(n) - 1 - w, i) == !Bit(w, i)
    decreases n
  {
    assert (Pow2(n) - 1 - w) / 2 == Pow2(n - 1) - 1 - w / 2;
    if i > 0 {
      ComplementBit(n - 1, w / 2, i - 1);
    }
  }

  lemma Pow2PlusEight(n: nat)
    ensures Pow2(n + 8) == 0x100 * Pow2(n)
  {
    assert Pow2(n + 2) == 4 * Pow2(n);
    assert Pow2(n + 4) == 4 * Pow2(n + 2);
    assert Pow2(n + 6) == 4 * Pow2(n + 4);
    assert Pow2(n + 8) == 4 * Pow2(n + 6);
  }

  lemma TwoTo64()
    ensures Pow2(64) == TWO64
  {
    Pow2PlusEight(0); Pow2PlusEight(8); Pow2PlusEight(16); Pow2PlusEight(24);
    Pow2PlusEight(32); Pow2PlusEight(40); Pow2PlusEight(48); Pow2PlusEight(56);
  }

  lemma NotBit(w: Word, i: nat)
    requires i < 64
    ensures Bit(Not(w), i) == !Bit(w, i)
  {
    TwoTo64();
    ComplementBit(64, w, i);
  }

  lemma {:induction false} Pow2Bit(k: nat, i: nat)
    ensures Bit(Pow2(k), i) == (i == k)
    decreases i
  {
    if i > 0 {
      if k == 0 {
        ShrZero(i - 1);
      } else {
        Pow2Bit(k - 1, i - 1);
      }
    }
  }

  lemma {:induction false} LowMaskBit(k: nat, i: nat)
    ensures Bit(Pow2(k) - 1, i) == (i < k)
    decreases k
  {
    if k == 0 {
      ShrZero(i);
    } else if i > 0 {
      assert (Pow2(k) - 1) / 2 == Pow2(k - 1) - 1;
      LowMaskBit(k - 1, i - 1);
    }
  }

  // A word below 2^n has no bit at or above n.
  lemma {:induction false} HighBitsClear(w: nat, n: nat, i: nat)
    requires w < Pow2(n) && n <= i
    ensures !Bit(w, i)
    decreases n
  {
    if n == 0 {
      ShrZero(i);
    } else {
      HighBitsClear(w / 2, n - 1, i - 1);
    }
  }

  lemma {:induction false} BoundedByBits(w: nat, n: nat)
    requires forall i: nat | n <= i :: !Bit(w, i)
    ensures w < Pow2(n)
    decreases w, n
  {
    if w > 0 {
      if n == 0 {
        assert !Bit(w, 0);
        forall i: nat ensures !Bit(w / 2, i) {
          assert !Bit(w, i + 1);
        }
        BoundedByBits(w / 2, 0);
      } else {
        forall i: nat | n - 1 <= i ensures !Bit(w / 2, i) {
          assert !Bit(w, i + 1);
        }
        BoundedByBits(w / 2, n - 1);
      }
    }
  }

  // Numbers below 2^n are equal when their n low bits are.
  lemma {:induction false} EqualByBits(a: nat, b: nat, n: nat)
    requires a < Pow2(n) && b < Pow2(n)
    requires forall i: nat | i < n :: Bit(a, i) == Bit(b, i)
    ensures a == b
    decreases n
  {
    if n > 0 {
      forall i: nat | i < n - 1 ensures Bit(a / 2, i) == Bit(b / 2, i) {
        assert Bit(a, i + 1) == Bit(b, i + 1);
      }
      EqualByBits(a / 2, b / 2, n - 1);
      assert Bit(a, 0) == Bit(b, 0);
    }
  }

  lemma EqualWords(a: Word, b: Word)
    requires forall i: nat | i < 64 :: Bit(a, i) == Bit(b, i)
    ensures a == b
  {
    TwoTo64();
    EqualByBits(a, b, 64);
  }

  // The highest bit where two numbers differ decides their order, in both directions.
  lemma {:induction false} LessByBit(a: nat, b: nat, k: nat)
    requires !Bit(a, k) && Bit(b, k)
    requires forall i: nat | k < i :: Bit(a, i) == Bit(b, i)
    ensures a < b
    decreases k
  {
    forall i: nat | k < i + 1 ensures Bit(a / 2, i) == Bit(b / 2, i) {
      assert Bit(a, i + 1) == Bit(b, i + 1);
    }
    if k == 0 {
      var n := a + b;
      BelowPow2(n);
      EqualByBits(a / 2, b / 2, n);
    } else {
      LessByBit(a / 2, b / 2, k - 1);
    }
  }

  lemma {:induction false} BelowPow2(n: nat)
    ensures n < Pow2(n)
  {
    if n > 0 { BelowPow2(n - 1); }
  }

  lemma {:induction false} TopDifference(a: nat, b: nat) returns (k: nat)
    requires a < b
    ensures !Bit(a, k) && Bit(b, k)
    ensures forall i: nat | k < i :: Bit(a, i) == Bit(b, i)
    decreases b
  {
    if a / 2 == b / 2 {
      k := 0;
    } else {
      var m := TopDifference(a / 2, b / 2);
      k := m + 1;
      forall i: nat | k < i ensures Bit(a, i) == Bit(b, i) {
        assert Bit(a / 2, i - 1) == Bit(b / 2, i - 1);
      }
    }
  }

  lemma OrFits(a: Word, b: Word)
    ensures Or(a, b) < TWO64
  {
    TwoTo64();
    forall i: nat | 64 <= i ensures !Bit(Or(a, b), i) {
      OrBit(a, b, i);
      HighBitsClear(a, 64, i);
      HighBitsClear(b, 64, i);
    }
    BoundedByBits(Or(a, b), 64);
  }

  lemma AndFits(a: Word, b: Word)
    ensures And(a, b) < TWO64
  {
    TwoTo64();
    forall i: nat | 64 <= i ensures !Bit(And(a, b), i) {
      AndBit(a, b, i);
      HighBitsClear(a, 64, i);
    }
    BoundedByBits(And(a, b), 64);
  }

  lemma {:induction false} Pow2Monotone(m: nat, n: nat)
    requires m <= n
    ensures Pow2(m) <= Pow2(n)
  {
    if m < n { Pow2Monotone(m, n - 1); }
  }

  lemma {:induction false} Pow2Strict(m: nat, n: nat)
    requires m < n
    ensures Pow2(m) < Pow2(n)
  {
    Pow2Monotone(m, n - 1);
  }

  // (1 << j) & i is non-zero exactly when bit j of i is set.
  lemma AndPow2(j: nat, i: nat)
    ensures And(Pow2(j), i) != 0 <==> Bit(i, j)
  {
    AndBit(Pow2(j), i, j);
    Pow2Bit(j, j);
    if And(Pow2(j), i) == 0 {
      ShrZero(j);
    } else if !Bit(i, j) {
      forall k: nat ensures !Bit(And(Pow2(j), i), k) {
        AndBit(Pow2(j), i, k);
        Pow2Bit(j, k);
      }
      BoundedByBits(And(Pow2(j), i), 0);
    }
  }

  function Log2(val: nat): (r: nat)
    requires val > 0
  {
    if val == 1 then 0 else 1 + Log2(val / 2)
  }

  lemma {:induction false} Log2Bounds(val: nat)
    requires val > 0
    ensures Pow2(Log2(val)) <= val < Pow2(Log2(val) + 1)
  {
    if val > 1 { Log2Bounds(val / 2); }
  }

  lemma WordLog2(val: Word)
    requires val > 0
    ensures Log2(val) < 64
  {
    Log2Bounds(val);
    TwoTo64();
    if Log2(val) >= 64 { Pow2Monotone(64, Log2(val)); }
  }

  lemma {:induction false} Log2OfPow2(n: nat)
    ensures Log2(Pow2(n)) == n
  {
    if n > 0 { Log2OfPow2(n - 1); }
  }

  // libmatch's `mylog2`: the position of the highest set bit, and UINT_MAX on zero.
  method MyLog2(val: Word) returns (ret: nat)
    ensures val == 0 ==> ret == UINT_MAX
    ensures val > 0 ==> ret == Log2(val) < 64 && Pow2(ret) <= val < Pow2(ret + 1)
  {
    if val == 0 { return UINT_MAX; }
    if val > 0 { Log2Bounds(val); }
    if val == 1 { return 0; }
    ret := 0;
    var v: nat := val;
    while v > 1
      invariant v >= 1
      invariant Log2(val) == ret + Log2(v)
    {
      v := v / 2;
      ret := ret + 1;
    }
    WordLog2(val);
  }
}
