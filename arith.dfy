/** Facts about Euclidean division and products used by the Feistel proofs. */
module Arith {

  /** Division by a positive modulus is determined by any quotient/remainder pair. */
  lemma DivModUnique(y: int, d: int, q: int, r: int)
    requires 0 < d && y == d * q + r && 0 <= r < d
    ensures y / d == q && y % d == r
  {
    var q' := y / d;
    assert d * q' + y % d == y;
    assert d * (q - q') == y % d - r;
    MulSmall(d, q - q');
  }

  /** A multiple of `d` strictly between `-d` and `d` is zero. */
  lemma MulSmall(d: int, k: int)
    requires 0 < d && -d < d * k < d
    ensures k == 0
  {
    MulSign(d, k);
  }

  /** A nonzero multiple of a positive `d` is at least `d` away from zero. */
  lemma MulSign(d: int, k: int)
    requires 0 < d
    ensures k >= 1 ==> d * k >= d
    ensures k <= -1 ==> d * k <= -d
  {
    if k >= 1 {
      assert d * k == d * (k - 1) + d;
    } else if k <= -1 {
      assert d * k == d * (k + 1) - d;
    }
  }

  /** Two digits `hi < b`, `lo < a` in mixed radix `a` stay below `a * b`. */
  lemma JoinBelow(a: nat, b: nat, hi: nat, lo: nat)
    ensures hi < b && lo < a ==> a * hi + lo < a * b
  {
    if hi < b && lo < a {
      assert a * hi + a == a * (hi + 1);
      MulMonotone(a, hi + 1, b);
    }
  }

  /** With `a <= b`, a high digit below `a` and a low digit below `b` also stay below `a * b`. */
  lemma JoinSwappedBelow(a: nat, b: nat, hi: nat, lo: nat)
    requires a <= b && hi < a && lo < b
    ensures a * hi + lo < a * b
  {
    assert a * hi <= a * (a - 1);
    assert a * b - a * (a - 1) - (b - 1) == (b - a) * (a - 1) + 1;
    assert (b - a) * (a - 1) >= 0;
  }

  /** Subtracting after adding modulo `m` gives the addend back. */
  lemma AddThenSubMod(x: int, t: int, m: int)
    requires 0 < m && 0 <= x < m
    ensures ((x + t) % m - t) % m == x
  {
    var q := (x + t) / m;
    assert (x + t) % m - t == m * (-q) + x;
    DivModUnique((x + t) % m - t, m, -q, x);
  }

  /** Adding after subtracting modulo `m` gives the minuend back. */
  lemma SubThenAddMod(y: int, t: int, m: int)
    requires 0 < m && 0 <= y < m
    ensures ((y - t) % m + t) % m == y
  {
    var q := (y - t) / m;
    assert (y - t) % m + t == m * (-q) + y;
    DivModUnique((y - t) % m + t, m, -q, y);
  }

  /** Multiplying by a non-negative factor keeps order. */
  lemma MulMonotone(k: nat, x: int, y: int)
    ensures x <= y ==> k * x <= k * y
  {
    if x <= y {
      assert k * y == k * x + k * (y - x);
    }
  }

  /** Quotient and remainder of a natural number by a positive one. */
  lemma DivBounds(n: nat, d: nat)
    requires 0 < d
    ensures 0 <= n / d <= n && 0 <= n % d < d
  {
    var q := n / d;
    MulSign(d, q);
    if q >= 0 {
      MulMonotone(q, 1, d);
    }
  }
}
