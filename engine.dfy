/** The Blackrock value and its construction: choosing the two Feistel branch
    moduli `a` and `b` for a range of `rangeLen` values. */
module Engine {
  import opened Words
  import Arith

  const DefaultRounds: int := 14
  const MaxRounds: int := 64

  /** Largest range New accepts: keeps every product `a * b` it forms below 2^64. */
  const MaxRangeLen: nat := 0x1_0000_0000_0000_0000 - 0x1_0000_0000

  /** Bound on both branch moduli: keeps `ll + read(j, rr)` below 2^64 (see RoundFunction). */
  const MaxModulus: nat := 0x1_0000_0000_0000

  /** The permutation of `[0, rangeLen)`; never changed after New. */
  datatype Blackrock = Blackrock(rangeLen: u64, rounds: int, seed: i64, a: u64, b: u64)

  /** What New guarantees about the value it builds, for a non-negative round count. */
  predicate Valid(br: Blackrock)
  {
    && 0 <= br.rounds <= MaxRounds
    && (br.rangeLen == 0 ==> br.a == 0 && br.b == 0)
    && (br.rangeLen > 0 ==>
          1 <= br.a <= br.b < MaxModulus && br.rangeLen < br.a * br.b < TWO64)
  }

  function Min(x: int, y: int): (r: int)
    ensures r <= x && r <= y
    ensures r == x || r == y
  {
    if x < y then x else y
  }

  /** The integer square root; it stands in for `uint64(math.Sqrt(float64(n)))`. */
  function ISqrt(n: nat): (r: nat)
    ensures r * r <= n < (r + 1) * (r + 1)
    decreases n
  {
    if n < 4 then
      (if n == 0 then 0 else 1)
    else
      var h := ISqrt(n / 4);
      SqrtStep(n, h);
      if (2 * h + 1) * (2 * h + 1) <= n then 2 * h + 1 else 2 * h
  }

  /** From the root of `n / 4` to the bounds around the root of `n`. */
  lemma SqrtStep(n: nat, h: nat)
    requires h * h <= n / 4 < (h + 1) * (h + 1)
    ensures (2 * h) * (2 * h) <= n < (2 * h + 2) * (2 * h + 2)
  {
    assert (2 * h) * (2 * h) == 4 * (h * h);
    assert (2 * h + 2) * (2 * h + 2) == 4 * ((h + 1) * (h + 1));
    assert n / 4 + 1 <= (h + 1) * (h + 1);
  }

  /** For `rangeLen >= 9`: the root is at least 3 and below 2^32, the initial
      product fits in 64 bits, and rangeLen < a * (a + 15) for a = split - 2. */
  lemma LargeSplit(n: nat, split: nat)
    requires 9 <= n < TWO64 && split * split <= n < (split + 1) * (split + 1)
    ensures 3 <= split < 0x1_0000_0000
    ensures (split - 2) * (split + 3) < TWO64
    ensures n < (split - 2) * (split - 2 + 15)
  {
    SquareGrows(split, 3);
    SquareGrows(split, 0x1_0000_0000);
    assert (split - 2) * (split + 3) == split * split + split - 6;
    assert (split - 2) * (split - 2 + 15) == (split + 1) * (split + 1) + 9 * (split - 2) - 9;
  }

  /** Squares are monotone. */
  lemma SquareGrows(x: nat, y: nat)
    ensures x >= y ==> x * x >= y * y
    ensures x < y ==> (x + 1) * (x + 1) <= y * y
  {
    if x >= y {
      assert x * x >= y * x >= y * y;
    } else {
      assert (x + 1) * (x + 1) <= y * (x + 1) <= y * y;
    }
  }

  /** One step of New's widening loop keeps `b` within `a + 15`. */
  lemma WidenStep(n: nat, a: nat, b: nat)
    requires 1 <= a && a * b <= n < a * (a + 15)
    ensures b < a + 15
  {
    Arith.MulMonotone(a, a + 15, b);
  }

  /** The `b` that New's loop stops at is the least `b >= b0` with `a * b > n`. */
  lemma Widened(n: nat, a: nat, b0: nat, b: nat)
    requires 1 <= a && b0 <= b && n < a * b && (b == b0 || a * (b - 1) <= n)
    ensures b == if n < a * b0 then b0 else n / a + 1
  {
    if b != b0 {
      Arith.DivModUnique(n, a, b - 1, n - a * (b - 1));
    }
  }

  /** One iteration of New's loop: incrementing `b` keeps the loop's invariant. */
  lemma WidenStepKeeps(n: nat, a: nat, b: nat)
    requires 1 <= a < 0x1_0000_0000 && n < MaxRangeLen
    requires a * b <= n < a * (a + 15)
    ensures b + 1 <= a + 15 && a * (b + 1) < TWO64 && a * (b + 1) > a * b
  {
    WidenStep(n, a, b);
    assert a * (b + 1) == a * b + a;
  }

  /** New's loop `for a*b <= rangeLen { b++ }`: widens `b` from `b0` to the least
      value whose product with `a` exceeds `n`. */
  method Widen(n: u64, a: u64, b0: u64) returns (b: u64)
    requires 1 <= a < 0x1_0000_0000 && n < MaxRangeLen
    requires b0 <= a + 15 && a * b0 < TWO64 && n < a * (a + 15)
    ensures b == if n < a * b0 then b0 else n / a + 1
    ensures n < a * b < TWO64 && b0 <= b <= a + 15
    ensures b == b0 || a * (b - 1) <= n
  {
    b := b0;
    while Wrap(a * b) <= n
      invariant b0 <= b <= a + 15
      invariant a * b < TWO64
      invariant b == b0 || a * (b - 1) <= n
      decreases n - a * b
    {
      WidenStepKeeps(n, a, b);
      b := b + 1;
    }
    Widened(n, a, b0, b);
  }

  /** Builds the permutation of `[0, rangeLen)` for `rounds` rounds keyed by `seed`. */
  method New(rangeLen: u64, rounds: i64, seed: i64) returns (br: Blackrock)
    requires rangeLen < MaxRangeLen
    ensures br.rangeLen == rangeLen && br.seed == seed
    ensures br.rounds <= MaxRounds
    ensures rounds <= MaxRounds ==> br.rounds == rounds
    ensures rounds > MaxRounds ==> br.rounds == MaxRounds
    ensures rangeLen == 0 ==> br.a == 0 && br.b == 0
    ensures rangeLen > 0 ==> 1 <= br.a <= br.b && rangeLen < br.a * br.b
    ensures rangeLen == 1 ==> br.a == 1 && br.b == 2
    ensures rangeLen == 2 ==> br.a == 1 && br.b == 3
    ensures rangeLen == 3 ==> br.a == 2 && br.b == 2
    ensures 4 <= rangeLen <= 5 ==> br.a == 2 && br.b == 3
    ensures rangeLen == 6 ==> br.a == 2 && br.b == 4
    ensures 7 <= rangeLen <= 8 ==> br.a == 3 && br.b == 3
    ensures rangeLen >= 9 ==>
              && br.a == ISqrt(rangeLen) - 2
              && br.b >= ISqrt(rangeLen) + 3
              && (br.b == ISqrt(rangeLen) + 3 || br.a * (br.b - 1) <= rangeLen)
    ensures 0 <= rounds ==> Valid(br)
  {
    var split := ISqrt(rangeLen);

    var a: u64, b: u64;
    if rangeLen == 0 {
      a, b := 0, 0;
    } else if rangeLen == 1 {
      a, b := 1, 1;
    } else if rangeLen == 2 {
      a, b := 1, 2;
    } else if rangeLen == 3 {
      a, b := 2, 2;
    } else if 4 <= rangeLen <= 6 {
      a, b := 2, 3;
    } else if 7 <= rangeLen <= 8 {
      a, b := 3, 3;
    } else {
      LargeSplit(rangeLen, split);
      a := split - 2;
      b := split + 3;
    }

    if rangeLen > 0 {
      b := Widen(rangeLen, a, b);
    }

    br := Blackrock(rangeLen, Min(MaxRounds, rounds), seed, a, b);
  }
}
