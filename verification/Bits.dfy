/** Bitwise `|` on natural numbers, and when it is plain addition. */
module Bits {
  function Pow2(k: nat): (p: nat)
    ensures p >= 1
  {
    if k == 0 then 1 else 2 * Pow2(k - 1)
  }

  /** Python's `a | b` on non-negative integers, bit by bit. */
  function BitOr(a: nat, b: nat): (r: nat)
    decreases a + b
  {
    if a == 0 && b == 0 then 0
    else (if a % 2 == 1 || b % 2 == 1 then 1 else 0) + 2 * BitOr(a / 2, b / 2)
  }

  lemma {:induction false} BitOrZero(a: nat)
    ensures BitOr(a, 0) == a
  {
    if a > 0 {
      BitOrZero(a / 2);
    }
  }

  lemma {:induction false} BitOrComm(a: nat, b: nat)
    ensures BitOr(a, b) == BitOr(b, a)
    decreases a + b
  {
    if a + b > 0 {
      BitOrComm(a / 2, b / 2);
    }
  }

  /** Or-ing a number below 2^k into the clear low bits of a multiple of 2^k adds it. */
  lemma {:induction false} BitOrAdd(q: nat, b: nat, k: nat)
    requires b < Pow2(k)
    ensures BitOr(Pow2(k) * q, b) == Pow2(k) * q + b
    decreases k
  {
    var a := Pow2(k) * q;
    if k == 0 {
      BitOrZero(a);
    } else {
      var h := Pow2(k - 1) * q;
      assert a == 2 * h by { assert Pow2(k) == 2 * Pow2(k - 1); }
      BitOrAdd(q, b / 2, k - 1);
      if a + b > 0 {
        assert a / 2 == h && a % 2 == 0;
      }
    }
  }

  /** Python's `a & b` on non-negative integers, bit by bit. */
  function BitAnd(a: nat, b: nat): (r: nat)
    decreases a + b
  {
    if a == 0 || b == 0 then 0
    else (if a % 2 == 1 && b % 2 == 1 then 1 else 0) + 2 * BitAnd(a / 2, b / 2)
  }

  lemma {:induction false} BitAndSelf(a: nat)
    ensures BitAnd(a, a) == a
  {
    if a > 0 {
      BitAndSelf(a / 2);
    }
  }

  /** `int.bit_length()`. */
  function BitLength(a: nat): (n: nat)
    ensures (n == 0) == (a == 0)
  {
    if a == 0 then 0 else 1 + BitLength(a / 2)
  }

  lemma {:induction false} BitLengthOf(k: nat)
    ensures BitLength(Pow2(k)) == k + 1
  {
    if k > 0 {
      BitLengthOf(k - 1);
      assert Pow2(k) / 2 == Pow2(k - 1);
    } else {
      assert BitLength(1) == 1 + BitLength(0);
    }
  }

  /** The writer's test `n & (n - 1) == 0` accepts exactly the powers of two. */
  lemma {:induction false} PowerOfTwoTest(n: nat)
    requires n > 0
    ensures BitAnd(n, n - 1) == 0 <==> n == Pow2(BitLength(n) - 1)
  {
    if n == 1 {
      assert BitLength(1) == 1 by { assert BitLength(0) == 0; }
    } else {
      PowerOfTwoTest(n / 2);
      assert Pow2(BitLength(n) - 1) == 2 * Pow2(BitLength(n / 2) - 1);
      if n % 2 == 1 {
        assert (n - 1) / 2 == n / 2;
        BitAndSelf(n / 2);
      } else {
        assert (n - 1) / 2 == n / 2 - 1;
      }
    }
  }
}
