/** Go's unsigned bitwise operators on non-negative integers: `^` and `|`
    digit by binary digit, `<<` and `>>` as multiplication and division by a
    power of two (a left shift of a uint64 drops the bits pushed past bit 63). */
module Bitwise {
  import opened Words
  import Arith

  function Pow2(k: nat): (p: nat)
    ensures p >= 1
  {
    if k == 0 then 1 else 2 * Pow2(k - 1)
  }

  /** `x ^ y`. */
  function Xor(x: nat, y: nat): (r: nat)
    decreases x + y
  {
    if x == 0 then y
    else if y == 0 then x
    else 2 * Xor(x / 2, y / 2) + (x + y) % 2
  }

  /** `x | y`. */
  function Or(x: nat, y: nat): (r: nat)
    decreases x + y
  {
    if x == 0 then y
    else if y == 0 then x
    else 2 * Or(x / 2, y / 2) + (if x % 2 == 1 || y % 2 == 1 then 1 else 0)
  }

  /** `x << k` on a uint64. */
  function Shl(x: nat, k: nat): (r: u64)
  {
    (x * Pow2(k)) % TWO64
  }

  /** `x >> k`. */
  function Shr(x: nat, k: nat): (r: nat)
  {
    Arith.DivBounds(x, Pow2(k));
    x / Pow2(k)
  }

  /** Exclusive or of two `k`-bit numbers is a `k`-bit number. */
  lemma {:induction false} XorBelow(x: nat, y: nat, k: nat)
    requires x < Pow2(k) && y < Pow2(k)
    ensures Xor(x, y) < Pow2(k)
  {
    if k > 0 && x != 0 && y != 0 {
      XorBelow(x / 2, y / 2, k - 1);
    }
  }

  /** Inclusive or of two `k`-bit numbers is a `k`-bit number. */
  lemma {:induction false} OrBelow(x: nat, y: nat, k: nat)
    requires x < Pow2(k) && y < Pow2(k)
    ensures Or(x, y) < Pow2(k)
  {
    if k > 0 && x != 0 && y != 0 {
      OrBelow(x / 2, y / 2, k - 1);
    }
  }

  /** Bits below `k` and bits from `k` up do not meet: exclusive or adds them. */
  lemma {:induction false} XorDisjoint(x: nat, q: nat, k: nat)
    requires x < Pow2(k)
    ensures Xor(x, Pow2(k) * q) == x + Pow2(k) * q
  {
    if k > 0 && x != 0 && q != 0 {
      var p := Pow2(k - 1);
      var m := p * q;
      var y := Pow2(k) * q;
      Twice(p, q);
      assert y == 2 * m;
      assert y / 2 == m && (x + y) % 2 == x % 2;
      XorDisjoint(x / 2, q, k - 1);
    }
  }

  /** Or-ing two multiples of `2^k` is or-ing their quotients, scaled. */
  lemma {:induction false} OrScaled(a: nat, b: nat, k: nat)
    ensures Or(Pow2(k) * a, Pow2(k) * b) == Pow2(k) * Or(a, b)
  {
    if k > 0 {
      var p := Pow2(k - 1);
      var c := Or(a, b);
      assert Pow2(k) == 2 * p;
      Twice(p, a);
      Twice(p, b);
      Twice(p, c);
      OrDouble(p * a, p * b);
      OrScaled(a, b, k - 1);
    }
  }

  /** `(2 * p) * x == 2 * (p * x)`. */
  lemma Twice(p: nat, x: nat)
    ensures (2 * p) * x == 2 * (p * x)
  {}

  /** Or-ing two even numbers is or-ing their halves, doubled. */
  lemma OrDouble(a: nat, b: nat)
    ensures Or(2 * a, 2 * b) == 2 * Or(a, b)
  {}
}
