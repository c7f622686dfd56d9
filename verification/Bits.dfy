/** Bit operations on unsigned 64-bit numbers, as numbers. */
module Bits {
  function Pow2(k: nat): (p: nat)
    ensures p >= 1
  {
    if k == 0 then 1 else 2 * Pow2(k - 1)
  }

  const WORD := Pow2(64)

  function Or(a: nat, b: nat): nat {
    if a == 0 then b
    else if b == 0 then a
    else 2 * Or(a / 2, b / 2) + (if a % 2 == 1 || b % 2 == 1 then 1 else 0)
  }

  function And(a: nat, b: nat): nat {
    if a == 0 || b == 0 then 0
    else 2 * And(a / 2, b / 2) + (if a % 2 == 1 && b % 2 == 1 then 1 else 0)
  }

  /** A left shift drops the bits that leave the word. */
  function ShiftLeft(a: nat, k: nat): nat {
    a * Pow2(k) % WORD
  }

  function ShiftRight(a: nat, k: nat): nat {
    Quotient(a, Pow2(k))
  }

  function Quotient(a: nat, d: nat): nat
    requires d > 0
  {
    a / d
  }

  /** Joining a number with bits below all of its own adds them. */
  lemma {:induction false} OrDisjoint(a: nat, b: nat, k: nat)
    requires b < Pow2(k)
    ensures Or(a * Pow2(k), b) == a * Pow2(k) + b
  {
    if k > 0 && a > 0 && b > 0 {
      OrDisjoint(a, b / 2, k - 1);
      var high := a * Pow2(k - 1);
      DoubledProduct(a, Pow2(k - 1));
      OrDouble(high, b);
    }
  }

  lemma {:induction false} DoubledProduct(a: nat, p: nat)
    requires a > 0 && p > 0
    ensures a * (2 * p) == 2 * (a * p) && a * p > 0
  {
  }

  lemma {:induction false} OrDouble(high: nat, b: nat)
    requires high > 0 && b > 0
    ensures Or(2 * high, b) == 2 * Or(high, b / 2) + b % 2
  {
    assert (2 * high) / 2 == high && (2 * high) % 2 == 0;
  }

  /** Masking the lowest `k` bits takes the remainder. */
  lemma {:induction false} AndMask(a: nat, k: nat)
    ensures And(a, Pow2(k) - 1) == a % Pow2(k)
  {
    if k > 0 {
      AndMask(a / 2, k - 1);
      var p := Pow2(k - 1);
      assert Pow2(k) == 2 * p;
      assert (2 * p - 1) / 2 == p - 1 && (2 * p - 1) % 2 == 1;
      ModDouble(a, p);
    }
  }

  lemma {:induction false} ModDouble(a: nat, p: nat)
    requires p > 0
    ensures a % (2 * p) == 2 * (a / 2 % p) + a % 2
  {
    var q, r := a / 2 / p, a / 2 % p;
    assert a / 2 == q * p + r;
    assert a == (2 * p) * q + (2 * r + a % 2) by {
      assert 2 * (q * p) == (2 * p) * q;
    }
    ModUnique(a, 2 * p, q, 2 * r + a % 2);
  }

  lemma {:induction false} ModUnique(a: nat, d: nat, q: nat, r: nat)
    requires d > 0 && r < d && a == d * q + r
    ensures a % d == r && a / d == q
  {
    var x := a / d - q;
    assert a == d * (a / d) + a % d;
    assert d * x == r - a % d by {
      assert d * (a / d) - d * q == d * x;
    }
    Multiples(d, x);
  }

  lemma {:induction false} Multiples(d: int, x: int)
    requires d > 0
    ensures x > 0 ==> d * x >= d
    ensures x < 0 ==> d * x <= -d
  {
    if x > 0 {
      AtLeastOnce(d, x);
    } else if x < 0 {
      AtLeastOnce(d, -x);
      assert d * x == -(d * -x);
    }
  }

  lemma {:induction false} AtLeastOnce(d: nat, x: nat)
    requires x > 0
    ensures d * x >= d
  {
    if x > 1 {
      AtLeastOnce(d, x - 1);
      assert d * x == d * (x - 1) + d;
    }
  }

  lemma {:induction false} Pow2Grows(j: nat, k: nat)
    requires j <= k
    ensures Pow2(j) <= Pow2(k)
  {
    if j < k {
      Pow2Grows(j, k - 1);
    }
  }

  lemma {:induction false} Pow2Adds(j: nat, k: nat)
    ensures Pow2(j + k) == Pow2(j) * Pow2(k)
  {
    if j > 0 {
      Pow2Adds(j - 1, k);
      assert 2 * (Pow2(j - 1) * Pow2(k)) == (2 * Pow2(j - 1)) * Pow2(k);
    }
  }
}
