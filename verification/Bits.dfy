/** Bitwise operations on words, defined bit by bit, and what the masks used in the kernel mean. */
module Bits {
  import opened Words

  function Pow2(n: nat): (p: nat)
    ensures p > 0
  {
    if n == 0 then 1 else 2 * Pow2(n - 1)
  }

  /** `a & b` over the low n bits. */
  function And(n: nat, a: nat, b: nat): nat {
    if n == 0 then 0 else (a % 2) * (b % 2) + 2 * And(n - 1, a / 2, b / 2)
  }

  /** `a | b` over the low n bits. */
  function Or(n: nat, a: nat, b: nat): nat {
    if n == 0 then 0 else (if a % 2 == 1 || b % 2 == 1 then 1 else 0) + 2 * Or(n - 1, a / 2, b / 2)
  }

  /** Bit k of a conjunction and of a disjunction. */
  lemma {:induction false} BitMeaning(n: nat, a: nat, b: nat, k: nat)
    requires k < n
    ensures And(n, a, b) / Pow2(k) % 2 == 1 <==> a / Pow2(k) % 2 == 1 && b / Pow2(k) % 2 == 1
    ensures Or(n, a, b) / Pow2(k) % 2 == 1 <==> a / Pow2(k) % 2 == 1 || b / Pow2(k) % 2 == 1
    decreases k
  {
    if k == 0 {
      assert Pow2(0) == 1;
      LowBit(a % 2, b % 2, And(n - 1, a / 2, b / 2));
      LowBit(1, if a % 2 == 1 || b % 2 == 1 then 1 else 0, Or(n - 1, a / 2, b / 2));
    } else {
      BitMeaning(n - 1, a / 2, b / 2, k - 1);
      HalfFirst(a, k);
      HalfFirst(b, k);
      HalfFirst(And(n, a, b), k);
      HalfFirst(Or(n, a, b), k);
      LowBit(a % 2, b % 2, And(n - 1, a / 2, b / 2));
      LowBit(1, if a % 2 == 1 || b % 2 == 1 then 1 else 0, Or(n - 1, a / 2, b / 2));
    }
  }

  lemma {:induction false} LowBit(x: nat, y: nat, rest: nat)
    requires x <= 1 && y <= 1
    ensures x * y <= 1 && (x * y + 2 * rest) / 2 == rest && (x * y + 2 * rest) % 2 == x * y
    ensures x * y == 1 <==> x == 1 && y == 1
  {
    assert x * y == if x == 1 then y else 0;
  }

  lemma {:induction false} HalfFirst(x: nat, k: nat)
    requires k > 0
    ensures x / Pow2(k) == x / 2 / Pow2(k - 1)
  {
    DivideTwice(x, 2, Pow2(k - 1));
  }

  lemma {:induction false} AndBound(n: nat, a: nat, b: nat)
    ensures And(n, a, b) < Pow2(n)
  {
    if n > 0 {
      AndBound(n - 1, a / 2, b / 2);
      assert (a % 2) * (b % 2) <= 1;
    }
  }

  lemma {:induction false} OrBound(n: nat, a: nat, b: nat)
    ensures Or(n, a, b) < Pow2(n)
  {
    if n > 0 {
      OrBound(n - 1, a / 2, b / 2);
    }
  }

  lemma {:induction false} Pow2Of64()
    ensures Pow2(4) == 16 && Pow2(8) == TWO8 && Pow2(64) == TWO64
  {
    Pow2Add(8, 8);
    Pow2Add(16, 16);
    Pow2Add(32, 32);
  }

  lemma {:induction false} Pow2Add(m: nat, n: nat)
    ensures Pow2(m + n) == Pow2(m) * Pow2(n)
  {
    if m > 0 {
      Pow2Add(m - 1, n);
    }
  }

  lemma {:induction false} Pow2Monotonic(m: nat, n: nat)
    requires m <= n
    ensures Pow2(m) <= Pow2(n)
  {
    if m < n {
      Pow2Monotonic(m, n - 1);
    }
  }

  function And64(a: u64, b: u64): u64 {
    AndBound(64, a, b);
    Pow2Of64();
    And(64, a, b)
  }

  function Or64(a: u64, b: u64): u64 {
    OrBound(64, a, b);
    Pow2Of64();
    Or(64, a, b)
  }

  function Not64(x: u64): u64 {
    TWO64 - 1 - x
  }

  lemma {:induction false} AndOnes(n: nat, x: nat)
    requires x < Pow2(n)
    ensures And(n, x, Pow2(n) - 1) == x
  {
    if n > 0 {
      AndOnes(n - 1, x / 2);
      assert (Pow2(n) - 1) / 2 == Pow2(n - 1) - 1;
    }
  }

  /** Clearing the low k bits rounds down to a multiple of 2^k. */
  lemma {:induction false} AndHighMask(n: nat, k: nat, x: nat)
    requires k <= n && x < Pow2(n) && Pow2(k) <= Pow2(n)
    ensures And(n, x, Pow2(n) - Pow2(k)) == x - x % Pow2(k)
  {
    if k == 0 {
      AndOnes(n, x);
    } else {
      AndHighMask(n - 1, k - 1, x / 2);
      assert (Pow2(n) - Pow2(k)) / 2 == Pow2(n - 1) - Pow2(k - 1);
      ModuloSplit(2, x, Pow2(k - 1));
    }
  }

  /** `x & !(2^k - 1)` on 64-bit words. */
  lemma {:induction false} MaskRoundsDown(k: nat, x: u64)
    requires k < 64
    ensures Pow2(k) < TWO64
    ensures And64(x, Not64(Pow2(k) - 1)) == x - x % Pow2(k)
  {
    Pow2Of64();
    Pow2Monotonic(k, 63);
    assert Pow2(64) == 2 * Pow2(63);
    AndHighMask(64, k, x);
  }

  /** `x & !0xf`. */
  lemma {:induction false} MaskTo16(x: u64)
    ensures And64(x, Not64(0xf)) == x - x % 16
  {
    Pow2Of64();
    MaskRoundsDown(4, x);
  }

  /** Or with disjoint bits is addition. */
  lemma {:induction false} OrDisjoint(n: nat, k: nat, a: nat, v: nat)
    requires k <= n && a < Pow2(n) && a % Pow2(k) == 0 && v < Pow2(k)
    ensures Or(n, a, v) == a + v
  {
    if n == 0 {
    } else if k == 0 {
      OrZero(n, a);
    } else {
      ModuloSplit(2, a, Pow2(k - 1));
      OrDisjoint(n - 1, k - 1, a / 2, v / 2);
    }
  }

  lemma {:induction false} OrZero(n: nat, a: nat)
    requires a < Pow2(n)
    ensures Or(n, a, 0) == a
  {
    if n > 0 {
      OrZero(n - 1, a / 2);
    }
  }

  /** `(x & !0xff) | b` replaces the low byte of x. */
  lemma {:induction false} LowByteReplaced(x: u64, b: byte)
    ensures Or64(And64(x, Not64(0xff)), b) == x - x % TWO8 + b
  {
    Pow2Of64();
    MaskRoundsDown(8, x);
    RemainderIs(x - x % TWO8, TWO8, x / TWO8, 0);
    OrDisjoint(64, 8, x - x % TWO8, b);
  }
}
