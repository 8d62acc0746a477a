/**
 Index arithmetic of the ring buffer: uint64 wrap-around, the power-of-two capacity test
 and the bit mask that stands for a modulo.
 */
module RingIndex {
  const TWO64: nat := 0x1_0000_0000_0000_0000
  /** A uint64. */
  type Word = x: nat | x < TWO64

  const MAX_INT: nat := 0x7FFF_FFFF_FFFF_FFFF
  const MAX_BATCH: nat := 128

  function Pow2(k: nat): (r: nat)
    ensures r > 0
  {
    if k == 0 then 1 else 2 * Pow2(k - 1)
  }

  /** The `&` of the source on two non-negative machine words. */
  function And(a: nat, b: nat): (r: nat)
    ensures r <= b
    decreases a
  {
    if a == 0 || b == 0 then 0
    else (if a % 2 == 1 && b % 2 == 1 then 1 else 0) + 2 * And(a / 2, b / 2)
  }

  /** uint64 subtraction: the difference wraps when the first operand is the smaller one. */
  function Sub64(a: Word, b: Word): (r: Word)
    ensures b <= a ==> r == a - b
    ensures a < b ==> r == TWO64 + a - b
  {
    (a - b) % TWO64
  }

  /** uint64 addition. */
  function Add64(a: nat, b: nat): (r: Word)
    ensures a + b < TWO64 ==> r == a + b
  {
    (a + b) % TWO64
  }

  /** The capacity test of NewRingBuffer. */
  predicate CapacityAccepted(capacity: nat) {
    capacity != 0 && And(capacity, capacity - 1) == 0 && capacity <= MAX_INT
  }

  ghost predicate IsPow2(x: nat) {
    exists k: nat :: x == Pow2(k)
  }

  ghost predicate ValidCap(cap: nat) {
    exists k: nat :: k <= 62 && cap == Pow2(k)
  }

  lemma {:induction false} AndBits(a: nat, b: nat)
    ensures And(a, b) == (if a % 2 == 1 && b % 2 == 1 then 1 else 0) + 2 * And(a / 2, b / 2)
  {
    if b == 0 && a / 2 != 0 {
      assert And(a / 2, b / 2) == 0;
    }
  }

  /** x & (x-1) clears the lowest set bit, so it is zero for powers of two only. */
  lemma {:induction false} LowestBitCleared(x: nat)
    requires x > 0
    ensures And(x, x - 1) == 0 <==> IsPow2(x)
  {
    AndBits(x, x - 1);
    if x % 2 == 1 {
      assert And(x / 2, (x - 1) / 2) == And(x / 2, x / 2) by { assert (x - 1) / 2 == x / 2; }
      AndSelf(x / 2);
      OddPow2(x);
    } else {
      assert (x - 1) / 2 == x / 2 - 1;
      LowestBitCleared(x / 2);
      HalfPow2(x / 2);
    }
  }

  lemma OddPow2(x: nat)
    requires x % 2 == 1
    ensures IsPow2(x) <==> x == 1
  {
    assert Pow2(0) == 1;
    if IsPow2(x) {
      var k: nat :| x == Pow2(k);
      assert k == 0;
    }
  }

  lemma HalfPow2(y: nat)
    requires y > 0
    ensures IsPow2(2 * y) <==> IsPow2(y)
  {
    if IsPow2(y) {
      var k: nat :| y == Pow2(k);
      assert 2 * y == Pow2(k + 1);
    }
    if IsPow2(2 * y) {
      var k: nat :| 2 * y == Pow2(k);
      assert k != 0 && y == Pow2(k - 1);
    }
  }

  lemma {:induction false} AndSelf(x: nat)
    ensures And(x, x) == x
  {
    if x != 0 {
      AndSelf(x / 2);
    }
  }

  lemma {:induction false} Pow2Bound(k: nat)
    ensures k <= 62 <==> Pow2(k) <= MAX_INT
  {
    Pow2Const();
    if k <= 62 {
      Pow2Monotone(k, 62);
    } else {
      Pow2Monotone(63, k);
    }
  }

  lemma {:induction false} Pow2Monotone(j: nat, k: nat)
    requires j <= k
    ensures Pow2(j) <= Pow2(k)
    decreases k - j
  {
    if j < k {
      Pow2Monotone(j + 1, k);
    }
  }

  lemma {:induction false} Pow2Plus(j: nat, k: nat)
    ensures Pow2(j + k) == Pow2(j) * Pow2(k)
  {
    if j != 0 {
      Pow2Plus(j - 1, k);
      assert Pow2(j + k) == 2 * (Pow2(j - 1) * Pow2(k)) == (2 * Pow2(j - 1)) * Pow2(k);
    }
  }

  lemma Pow2Const()
    ensures Pow2(62) == 0x4000_0000_0000_0000 && Pow2(63) == 0x8000_0000_0000_0000 && Pow2(64) == TWO64
  {
    Pow2Small();
    Pow2Plus(16, 16);
    Pow2Plus(32, 30);
    Pow2Plus(16, 14);
  }

  lemma Pow2Small()
    ensures Pow2(16) == 0x1_0000 && Pow2(14) == 0x4000
  {
    assert Pow2(8) == 0x100 && Pow2(6) == 0x40;
    Pow2Plus(8, 8);
    Pow2Plus(8, 6);
  }

  /** NewRingBuffer accepts exactly the powers of two from 1 to 2^62. */
  lemma AcceptedExactlyPowersOfTwo(capacity: nat)
    ensures CapacityAccepted(capacity) <==> ValidCap(capacity)
  {
    if capacity != 0 {
      LowestBitCleared(capacity);
      forall k: nat {
        Pow2Bound(k);
      }
    }
  }

  /** The mask is the modulo: x & (2^k - 1) == x % 2^k. */
  lemma {:induction false} MaskIsModulo(x: nat, k: nat)
    ensures And(x, Pow2(k) - 1) == x % Pow2(k)
  {
    if k != 0 {
      var m := Pow2(k - 1);
      AndBits(x, 2 * m - 1);
      assert (2 * m - 1) / 2 == m - 1;
      MaskIsModulo(x / 2, k - 1);
      HalfModulo(x, m);
    }
  }

  lemma HalfModulo(x: nat, m: nat)
    requires m > 0
    ensures x % (2 * m) == x % 2 + 2 * ((x / 2) % m)
  {
    var q, r := (x / 2) / m, (x / 2) % m;
    assert x == 2 * (q * m + r) + x % 2;
    assert x == q * (2 * m) + (2 * r + x % 2) by {
      assert 2 * (q * m) == q * (2 * m);
    }
    ModuloUnique(x, 2 * m, q, 2 * r + x % 2);
  }

  lemma ModuloUnique(x: int, m: nat, q: int, r: nat)
    requires m > 0 && r < m && x == q * m + r
    ensures x % m == r
  {
    var d := x / m - q;
    assert d * m == (x / m) * m - q * m;
    MultipleIsFar(d, m);
  }

  lemma MultipleIsFar(d: int, m: nat)
    ensures d > 0 ==> d * m >= m
    ensures d < 0 ==> d * m + m <= 0
  {
    if d > 0 {
      OneMore(d - 1, m);
    } else if d < 0 {
      OneMore(-d - 1, m);
      assert d * m == -((-d) * m);
    }
  }

  lemma {:induction false} OneMore(d: nat, m: nat)
    ensures (d + 1) * m == d * m + m && d * m >= 0
  {
    if d > 0 {
      OneMore(d - 1, m);
    }
  }

  /** The capacity divides 2^64, so wrapping an index before masking it is harmless. */
  lemma WrappedIndex(x: nat, cap: nat)
    requires ValidCap(cap)
    ensures Slot(x % TWO64, cap) == Slot(x, cap)
  {
    var k: nat :| k <= 62 && cap == Pow2(k);
    Pow2Const();
    Pow2Plus(64 - k, k);
    ModModulo(x, Pow2(64 - k), cap);
  }

  lemma ModModulo(x: nat, c: nat, m: nat)
    requires m > 0 && c > 0
    ensures c * m > 0 && (x % (c * m)) % m == x % m
  {
    MultipleIsFar(c, m);
    var q, r := x / (c * m), x % (c * m);
    assert x == q * (c * m) + r;
    assert q * (c * m) == (q * c) * m;
    var q', r' := r / m, r % m;
    assert (q * c + q') * m == (q * c) * m + q' * m;
    ModuloUnique(x, m, q * c + q', r');
  }

  /** The slot of an index; the source writes it with the mask. */
  function Slot(x: nat, cap: nat): (r: nat)
    requires cap > 0
    ensures r < cap
  {
    x % cap
  }

  /** The slot expression of the source: a uint64 index masked with capacity - 1. */
  function MaskedSlot(x: nat, cap: nat): (r: nat)
    requires cap > 0
    ensures r < cap
    ensures ValidCap(cap) ==> r == Slot(x, cap)
  {
    MaskedSlotIsModulo(x, cap);
    And(x % TWO64, cap - 1)
  }

  lemma MaskedSlotIsModulo(x: nat, cap: nat)
    requires cap > 0
    ensures ValidCap(cap) ==> And(x % TWO64, cap - 1) == Slot(x, cap)
  {
    if ValidCap(cap) {
      var k: nat :| k <= 62 && cap == Pow2(k);
      MaskIsModulo(x % TWO64, k);
      WrappedIndex(x, cap);
    }
  }

  /** Two indices less than one capacity apart use different slots. */
  lemma DistinctSlots(x: nat, y: nat, cap: nat)
    requires cap > 0 && x < y < x + cap
    ensures Slot(x, cap) != Slot(y, cap)
  {
    var d := y / cap - x / cap;
    assert d * cap == (y / cap) * cap - (x / cap) * cap;
    MultipleIsFar(d, cap);
  }

  /** The slots of a range that may run past the end of the array. */
  lemma WrapAround(curr: nat, i: nat, cap: nat)
    requires cap > 0 && i <= cap
    ensures var lo := Slot(curr, cap);
            Slot(curr + i, cap) == if lo + i < cap then lo + i else lo + i - cap
  {
    var q, lo := curr / cap, curr % cap;
    if lo + i < cap {
      ModuloUnique(curr + i, cap, q, lo + i);
    } else {
      assert (q + 1) * cap == q * cap + cap;
      ModuloUnique(curr + i, cap, q + 1, lo + i - cap);
    }
  }
}
