/** Single-bit and bit-range helpers over 32-bit words (FeabhOS::Utility, C++14 Bitops.h).
    A `uint32_t` is an integer in [0, 2^32); the bitwise operators are defined bit by bit. */
module Bitops {

  const WordLimit: nat := 0x1_0000_0000

  type Word = x: int | 0 <= x < 0x1_0000_0000

  function Pow2(n: nat): (r: nat)
    ensures r >= 1
  {
    if n == 0 then 1 else 2 * Pow2(n - 1)
  }

  /** Bit k of w, counted from the least significant bit. */
  function BitOf(w: nat, k: nat): (r: nat)
  {
    (w / Pow2(k)) % 2
  }

  /** Bitwise AND of two naturals, one bit at a time (C's `&`). */
  function And(a: nat, b: nat): (r: nat)
    decreases a
  {
    if a == 0 || b == 0 then 0 else 2 * And(a / 2, b / 2) + (a % 2) * (b % 2)
  }

  /** Bitwise OR of two naturals, one bit at a time (C's `|`). */
  function Or(a: nat, b: nat): (r: nat)
    decreases a + b
  {
    if a == 0 then b
    else if b == 0 then a
    else 2 * Or(a / 2, b / 2) + (if a % 2 == 1 || b % 2 == 1 then 1 else 0)
  }

  /** `bit(n)`: `1 << n` as a `uint32_t`. Shifting by 32 or more is undefined in C++, so n < 32. */
  function Bit(n: nat): (r: Word)
    requires n < 32
  {
    Pow2(n) % WordLimit
  }

  /** `is_set(word, b)`: `(word & bit(b)) != 0`. */
  predicate IsSet(word: Word, b: nat)
    requires b < 32
  {
    And(word, Bit(b)) != 0
  }

  // ---------------------------------------------------------------------------
  // Arithmetic facts behind the bit-level reasoning

  lemma {:induction false} Pow2Monotone(a: nat, b: nat)
    requires a <= b
    ensures Pow2(a) <= Pow2(b)
  {
    if a < b {
      Pow2Monotone(a, b - 1);
    }
  }

  lemma MulAtLeast(d: int, t: int)
    requires d > 0 && t >= 1
    ensures d * t >= d
  {
    assert d * t == d * (t - 1) + d;
    assert d * (t - 1) >= 0;
  }

  /** Quotient and remainder are unique (Euclidean division by a positive divisor). */
  lemma DivUnique(w: int, d: int, q: int, rem: int)
    requires d > 0 && 0 <= rem < d && w == d * q + rem
    ensures w / d == q && w % d == rem
  {
    var q' := w / d;
    assert w == d * q' + w % d;
    if q > q' {
      MulAtLeast(d, q - q');
      assert false;
    } else if q < q' {
      MulAtLeast(d, q' - q);
      assert false;
    }
  }

  /** 2^32, the number of `uint32_t` values. */
  lemma Pow2Of32()
    ensures Pow2(32) == WordLimit
  {
    assert Pow2(8) == 256 by {
      assert Pow2(1) == 2;
      assert Pow2(2) == 4;
      assert Pow2(3) == 8;
      assert Pow2(4) == 16;
      assert Pow2(5) == 32;
      assert Pow2(6) == 64;
      assert Pow2(7) == 128;
    }
    Pow2Add(8, 8);
    Pow2Add(16, 16);
  }

  lemma {:induction false} Pow2Add(a: nat, b: nat)
    ensures Pow2(a + b) == Pow2(a) * Pow2(b)
  {
    if b > 0 {
      Pow2Add(a, b - 1);
      assert Pow2(a + b) == 2 * Pow2(a + b - 1);
    }
  }

  /** Dividing by 2^k is halving, then dividing by 2^(k-1). */
  lemma DivPow2Step(w: nat, k: nat)
    requires k > 0
    ensures w / Pow2(k) == (w / 2) / Pow2(k - 1)
  {
    var p := Pow2(k - 1);
    var q := w / 2;
    var a := q / p;
    var c := q % p;
    assert q == p * a + c;
    assert w == 2 * q + w % 2;
    assert w == Pow2(k) * a + (2 * c + w % 2);
    DivUnique(w, Pow2(k), a, 2 * c + w % 2);
  }

  /** Bit k of 2y + r (r a single bit) is r at k = 0 and bit k-1 of y above. */
  lemma BitOfShifted(y: nat, r: nat, k: nat)
    requires r < 2
    ensures BitOf(2 * y + r, k) == if k == 0 then r else BitOf(y, k - 1)
  {
    if k > 0 {
      DivPow2Step(2 * y + r, k);
      assert (2 * y + r) / 2 == y;
    }
  }

  // ---------------------------------------------------------------------------
  // bit and is_set

  /** `bit(n) == 2^n` for every n < 32: the shift never wraps. */
  lemma BitIsPow2(n: nat)
    requires n < 32
    ensures Bit(n) == Pow2(n)
  {
    Pow2Of32();
    Pow2Monotone(n + 1, 32);
  }

  /** AND-ing with 2^b keeps exactly bit b. */
  lemma {:induction false} AndPow2(w: nat, b: nat)
    ensures And(w, Pow2(b)) == BitOf(w, b) * Pow2(b)
  {
    if w == 0 {
      assert BitOf(w, b) == 0;
    } else if b == 0 {
      assert And(w, 1) == 2 * And(w / 2, 0) + (w % 2) * 1;
    } else {
      AndPow2(w / 2, b - 1);
      assert Pow2(b) / 2 == Pow2(b - 1);
      assert Pow2(b) % 2 == 0;
      DivPow2Step(w, b);
    }
  }

  /** `is_set(word, b)` holds exactly when bit b of word is 1. */
  lemma IsSetIffBit(word: Word, b: nat)
    requires b < 32
    ensures IsSet(word, b) <==> BitOf(word, b) == 1
  {
    BitIsPow2(b);
    AndPow2(word, b);
  }

  /** `bit(n)` has exactly one bit set, bit n. */
  lemma BitSingle(n: nat, k: nat)
    requires n < 32 && k < 32
    ensures IsSet(Bit(n), k) <==> k == n
  {
    BitIsPow2(n);
    IsSetIffBit(Bit(n), k);
    RangeBits(n, n, k);
    assert Pow2(n + 1) - Pow2(n) == Pow2(n);
  }

  // ---------------------------------------------------------------------------
  // bit_range

  /** OR-ing 2^i into a value below 2^i adds it. */
  lemma {:induction false} OrLowPow2(x: nat, i: nat)
    requires x < Pow2(i)
    ensures Or(x, Pow2(i)) == x + Pow2(i)
  {
    if x == 0 {
    } else {
      assert i > 0;
      OrLowPow2(x / 2, i - 1);
      assert Pow2(i) / 2 == Pow2(i - 1);
      assert Pow2(i) % 2 == 0;
    }
  }

  /** The bits of 2^n - 1 are exactly 0..n-1. */
  lemma {:induction false} LowOnes(n: nat, k: nat)
    ensures BitOf(Pow2(n) - 1, k) == if k < n then 1 else 0
  {
    if n == 0 {
      assert Pow2(n) - 1 == 0;
    } else {
      var y := Pow2(n - 1) - 1;
      assert Pow2(n) - 1 == 2 * y + 1;
      BitOfShifted(y, 1, k);
      if k > 0 {
        LowOnes(n - 1, k - 1);
      }
    }
  }

  /** The bits of 2^(e+1) - 2^s are exactly s..e. */
  lemma {:induction false} RangeBits(s: nat, e: nat, k: nat)
    requires s <= e + 1
    ensures Pow2(s) <= Pow2(e + 1) && BitOf(Pow2(e + 1) - Pow2(s), k) == if s <= k <= e then 1 else 0
    decreases s, 1
  {
    if s == e + 1 {
      RangeEmpty(s, e, k);
    } else if s == 0 {
      RangeLow(s, e, k);
    } else {
      RangeStep(s, e, k);
    }
  }

  lemma RangeEmpty(s: nat, e: nat, k: nat)
    requires s == e + 1
    ensures Pow2(s) <= Pow2(e + 1) && BitOf(Pow2(e + 1) - Pow2(s), k) == if s <= k <= e then 1 else 0
  {
    assert Pow2(e + 1) - Pow2(s) == 0;
  }

  lemma RangeLow(s: nat, e: nat, k: nat)
    requires s == 0
    ensures Pow2(s) <= Pow2(e + 1) && BitOf(Pow2(e + 1) - Pow2(s), k) == if s <= k <= e then 1 else 0
  {
    Pow2Monotone(s, e + 1);
    LowOnes(e + 1, k);
  }

  lemma {:induction false} RangeStep(s: nat, e: nat, k: nat)
    requires 0 < s <= e
    ensures Pow2(s) <= Pow2(e + 1) && BitOf(Pow2(e + 1) - Pow2(s), k) == if s <= k <= e then 1 else 0
    decreases s, 0
  {
    Pow2Monotone(s, e + 1);
    RangeHalf(s, e, k);
    if k > 0 {
      var e1 := e - 1;
      RangeBits(s - 1, e1, k - 1);
      assert e1 + 1 == e;
    }
  }

  /** 2^(e+1) - 2^s is twice 2^e - 2^(s-1), so its bits are those shifted up by one. */
  lemma RangeHalf(s: nat, e: nat, k: nat)
    requires 0 < s <= e
    ensures Pow2(s - 1) <= Pow2(e)
    ensures BitOf(Pow2(e + 1) - Pow2(s), k) == if k == 0 then 0 else BitOf(Pow2(e) - Pow2(s - 1), k - 1)
  {
    Pow2Monotone(s - 1, e);
    var y := Pow2(e) - Pow2(s - 1);
    assert Pow2(e + 1) - Pow2(s) == 2 * y + 0;
    BitOfShifted(y, 0, k);
  }

  /** `bit_range(start, end)`: the loop of Bitops.h, OR-ing in `bit(i)` for i = start..end.
      When start > end the loop body never runs; otherwise every `bit(i)` must be defined. */
  method BitRange(start: Word, end: Word) returns (value: Word)
    requires start > end || end < 32
    ensures start > end ==> value == 0
    ensures start <= end ==> value == Pow2(end + 1) - Pow2(start)
    ensures start <= end ==> forall k: nat | k < 32 :: IsSet(value, k) <==> start <= k <= end
  {
    value := 0;
    var i: nat := start;
    while i <= end
      invariant start <= i
      invariant start > end ==> i == start
      invariant start <= end ==> i <= end + 1
      invariant value == Pow2(i) - Pow2(start)
      decreases end + 1 - i
    {
      Pow2Monotone(start, i);
      BitIsPow2(i);
      OrLowPow2(value, i);
      Pow2Monotone(i + 1, 32);
      Pow2Of32();
      value := Or(value, Bit(i));
      i := i + 1;
    }
    if start <= end {
      forall k: nat | k < 32
        ensures IsSet(value, k) <==> start <= k <= end
      {
        IsSetIffBit(value, k);
        RangeBits(start, end, k);
      }
    }
  }

  /** `bit_range(0, n) == 2^(n+1) - 1`: the clear_all mask of EventGroup.h therefore covers
      num_flags + 1 flag bits. Stated on the method's result through its contract. */
  method BitRangeFromZero(n: Word) returns (mask: Word)
    requires n < 32
    ensures mask == Pow2(n + 1) - 1
    ensures forall k: nat | k < 32 :: IsSet(mask, k) <==> k <= n
  {
    mask := BitRange(0, n);
  }
  // ---------------------------------------------------------------------------
  // Setting and clearing one bit of an unbounded value

  /** `x | (1 << b)` */
  function SetBit(x: nat, b: nat): (r: nat)
  {
    if BitOf(x, b) == 1 then x else x + Pow2(b)
  }

  /** `x & ~(1 << b)` */
  function ClearBit(x: nat, b: nat): (r: nat)
  {
    if BitOf(x, b) == 1 then x - Pow2(b) else x
  }

  /** Adding 2^b to a value whose bit b is clear sets that bit and no other. */
  lemma {:induction false} BitOfAddPow2(x: nat, b: nat, k: nat)
    requires BitOf(x, b) == 0
    ensures BitOf(x + Pow2(b), k) == if k == b then 1 else BitOf(x, k)
  {
    var h := x / 2;
    assert x == 2 * h + x % 2;
    BitOfShifted(h, x % 2, k);
    if b == 0 {
      assert x % 2 == 0;
      assert x + Pow2(b) == 2 * h + 1;
      BitOfShifted(h, 1, k);
    } else {
      BitOfShifted(h, x % 2, b);
      assert x + Pow2(b) == 2 * (h + Pow2(b - 1)) + x % 2;
      BitOfShifted(h + Pow2(b - 1), x % 2, k);
      if k > 0 {
        BitOfAddPow2(h, b - 1, k - 1);
      }
    }
  }

  /** A value with bit b set is at least 2^b. */
  lemma BitSetAtLeast(x: nat, b: nat)
    requires BitOf(x, b) == 1
    ensures x >= Pow2(b)
  {
    if x < Pow2(b) {
      DivUnique(x, Pow2(b), 0, x);
    }
  }

  /** Subtracting 2^b from a value whose bit b is set clears that bit and no other. */
  lemma BitOfSubPow2(x: nat, b: nat, k: nat)
    requires BitOf(x, b) == 1
    ensures x >= Pow2(b) && BitOf(x - Pow2(b), k) == if k == b then 0 else BitOf(x, k)
  {
    BitSetAtLeast(x, b);
    var y := x - Pow2(b);
    if BitOf(y, b) == 1 {
      BitOfAddPow2Set(y, b);
      assert false;
    }
    BitOfAddPow2(y, b, k);
  }

  /** Adding 2^b to a value with bit b set carries out of bit b, leaving it clear. */
  lemma BitOfAddPow2Set(y: nat, b: nat)
    requires BitOf(y, b) == 1
    ensures BitOf(y + Pow2(b), b) == 0
  {
    var q := y / Pow2(b);
    assert y == Pow2(b) * q + y % Pow2(b);
    assert y + Pow2(b) == Pow2(b) * (q + 1) + y % Pow2(b);
    DivUnique(y + Pow2(b), Pow2(b), q + 1, y % Pow2(b));
    DivUnique(q, 2, q / 2, 1);
    assert q + 1 == 2 * (q / 2 + 1) + 0;
    DivUnique(q + 1, 2, q / 2 + 1, 0);
  }

  /** `x | (1 << b)` sets bit b and leaves every other bit as it was. */
  lemma SetBitBits(x: nat, b: nat, k: nat)
    ensures BitOf(SetBit(x, b), k) == if k == b then 1 else BitOf(x, k)
  {
    if BitOf(x, b) == 0 {
      BitOfAddPow2(x, b, k);
    }
  }

  /** `x & ~(1 << b)` clears bit b and leaves every other bit as it was. */
  lemma ClearBitBits(x: nat, b: nat, k: nat)
    ensures BitOf(ClearBit(x, b), k) == if k == b then 0 else BitOf(x, k)
  {
    if BitOf(x, b) == 1 {
      BitOfSubPow2(x, b, k);
    }
  }

  lemma MulMonotone(p: nat, a: int, b: int)
    requires a <= b
    ensures p * a <= p * b
  {
    assert p * b - p * a == p * (b - a);
  }

  lemma MulAddTwo(p: int, q: int)
    ensures p * (q + 2) == p * q + 2 * p
  {
  }

  /** Setting a clear bit below n of a value below 2^n keeps it below 2^n. */
  lemma SetBitBound(x: nat, b: nat, n: nat)
    requires b < n && x < Pow2(n)
    ensures SetBit(x, b) < Pow2(n)
  {
    if BitOf(x, b) == 0 {
      var p := Pow2(b);
      var q := x / p;
      var rem := x % p;
      assert x == p * q + rem;
      var m := Pow2(n - b);
      Pow2Add(b, n - b);
      assert Pow2(n) == p * m;
      Pow2Add(1, n - b - 1);
      assert m == 2 * Pow2(n - b - 1);
      if q >= m {
        MulMonotone(p, m, q);
        assert false;
      }
      assert q + 2 <= m;
      MulMonotone(p, q + 2, m);
      MulAddTwo(p, q);
    }
  }

  /** Clearing a bit never makes a value larger. */
  lemma ClearBitBound(x: nat, b: nat)
    ensures ClearBit(x, b) <= x
  {
  }
}
