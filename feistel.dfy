/** The unbalanced Feistel network on `[0, a * b)`: a value is split into a
    quotient and remainder by `a`, passed through `rounds` rounds that
    alternate between modulus `a` (odd rounds) and `b` (even rounds), and
    joined again. `encrypt` runs the rounds forward and `decrypt` backward. */
module Feistel {
  import opened Words
  import opened Engine
  import opened RoundFunction
  import Arith

  /** The two halves of the network's state, named as in encrypt and decrypt. */
  datatype Halves = Halves(rr: u64, ll: u64)

  /** A Blackrock the network can run on: built by New for a non-empty range
      (for an empty one `a` is zero and divMod divides by zero). */
  predicate Usable(br: Blackrock)
  {
    Valid(br) && br.rangeLen > 0
  }

  /** The modulus of round `j`: `a` on odd rounds, `b` on even ones. */
  function GetMod(br: Blackrock, j: int): (M: u64)
    requires Usable(br)
    ensures 1 <= M <= br.b
    ensures M == br.a || M == br.b
  {
    if j % 2 == 1 then br.a else br.b
  }

  /** Where the halves lie after `k` rounds: the round that produced `rr`
      reduced it by the modulus of round `k` (`b` before any round), and `ll`
      is the previous `rr`. */
  predicate InRange(br: Blackrock, k: int, h: Halves)
  {
    if k % 2 == 1 then h.rr < br.a && h.ll < br.b else h.rr < br.b && h.ll < br.a
  }

  /** divMod: quotient and remainder of `n` by `d`. */
  function DivMod(n: u64, d: u64): (h: Halves)
    requires 0 < d
    ensures d * h.rr + h.ll == n && h.ll < d
  {
    Arith.DivBounds(n, d);
    Halves(n / d, n % d)
  }

  /** `a * hi + lo` in uint64. */
  function Join(a: u64, hi: u64, lo: u64): (c: u64)
    ensures a * hi + lo < TWO64 ==> c == a * hi + lo
  {
    Wrap(a * hi + lo)
  }

  /** Digits `hi < b` and `lo < a` join without wrapping to a value below `a * b`. */
  lemma JoinFits(a: u64, b: u64, hi: u64, lo: u64)
    requires a * b < TWO64
    ensures hi < b && lo < a ==> Join(a, hi, lo) == a * hi + lo < a * b
  {
    Arith.JoinBelow(a, b, hi, lo);
  }

  /** A quotient by `a` of a value below `a * b` is below `b`. */
  lemma QuotientBelow(a: nat, b: nat, n: nat, q: nat, r: nat)
    requires 0 < a && a * q + r == n && r < a
    ensures n < a * b ==> q < b
  {
    Arith.MulMonotone(a, b, q);
  }

  /** divMod undoes a join of digits below `a * b`. */
  lemma DivModJoin(a: u64, b: u64, hi: u64, lo: u64)
    requires 0 < a && a * b < TWO64 && hi < b && lo < a
    ensures DivMod(Join(a, hi, lo), a) == Halves(hi, lo)
  {
    JoinFits(a, b, hi, lo);
    Arith.DivModUnique(a * hi + lo, a, hi, lo);
  }

  /** A join undoes divMod, for every uint64. */
  lemma JoinDivMod(a: u64, n: u64)
    requires 0 < a
    ensures Join(a, DivMod(n, a).rr, DivMod(n, a).ll) == n
  {}

  /** Reads a value as the state after `k` rounds, the way decrypt unpacks its
      argument: divMod by `a`, the halves swapped when `k` is odd. With `k = 0`
      this is how encrypt unpacks its argument. */
  function Split(br: Blackrock, k: int, c: u64): (h: Halves)
    requires Usable(br)
    ensures c < br.a * br.b ==> InRange(br, k, h)
  {
    var q := DivMod(c, br.a);
    QuotientBelow(br.a, br.b, c, q.rr, q.ll);
    if k % 2 == 1 then Halves(q.ll, q.rr) else q
  }

  /** Packs the state after `k` rounds into one value, the way encrypt returns:
      `a * ll + rr` when `k` is odd, `a * rr + ll` when even, in uint64. */
  function Combine(br: Blackrock, k: int, h: Halves): (c: u64)
    requires Usable(br)
    ensures InRange(br, k, h) ==> c < br.a * br.b
  {
    JoinFits(br.a, br.b, h.ll, h.rr);
    JoinFits(br.a, br.b, h.rr, h.ll);
    if k % 2 == 1 then Join(br.a, h.ll, h.rr) else Join(br.a, h.rr, h.ll)
  }

  /** Unpacking what was packed gives the state back. */
  lemma SplitCombine(br: Blackrock, k: int, h: Halves)
    requires Usable(br) && InRange(br, k, h)
    ensures Split(br, k, Combine(br, k, h)) == h
  {
    if k % 2 == 1 {
      DivModJoin(br.a, br.b, h.ll, h.rr);
    } else {
      DivModJoin(br.a, br.b, h.rr, h.ll);
    }
  }

  /** Packing what was unpacked gives the value back, for every uint64. */
  lemma CombineSplit(br: Blackrock, k: int, c: u64)
    requires Usable(br)
    ensures Combine(br, k, Split(br, k, c)) == c
  {
    JoinDivMod(br.a, c);
  }

  /** `(x + t) % M` with the sum taken in uint64. */
  function AddMod(x: u64, t: u64, M: u64): (r: u64)
    requires 0 < M
    ensures r < M
    ensures x + t < TWO64 ==> r == (x + t) % M
  {
    Wrap(x + t) % M
  }

  /** Decrypt's modular subtraction: `(x - t) mod M` computed without a negative
      intermediate, through `M - ((t - x) % M)` when `t > x`, with `M` folded to 0. */
  function SubMod(x: u64, t: u64, M: u64): (r: u64)
    requires 0 < M
    ensures r < M
    ensures r == (x - t) % M
  {
    NegatedRemainder(x, t, M);
    if t > x then
      var d := M - (t - x) % M;
      if d == M then 0 else d
    else
      (x - t) % M
  }

  /** Consecutive rounds have opposite parity. */
  lemma ParityFlip(j: int)
    ensures (j - 1) % 2 == 1 <==> j % 2 != 1
  {}

  /** Round `j` of encrypt: `rr, ll = (ll + read(j, rr)) % getMod(j), rr`, the
      sum taken in uint64. */
  function Round(br: Blackrock, j: int, h: Halves): (r: Halves)
    requires Usable(br) && 1 <= j <= MaxRounds
    ensures InRange(br, j - 1, h) ==> InRange(br, j, r)
  {
    hide Read;
    ParityFlip(j);
    Halves(AddMod(h.ll, Read(br, j, h.rr), GetMod(br, j)), h.rr)
  }

  /** Round `j` of decrypt: the new `ll` is `(rr - read(j, ll))` modulo the
      round's modulus and the new `rr` is the old `ll`. */
  function Unround(br: Blackrock, j: int, h: Halves): (r: Halves)
    requires Usable(br) && 1 <= j <= MaxRounds
    ensures InRange(br, j, h) ==> InRange(br, j - 1, r)
  {
    hide Read;
    ParityFlip(j);
    Halves(h.ll, SubMod(h.rr, Read(br, j, h.ll), GetMod(br, j)))
  }

  /** Decrypt's round undoes encrypt's: the sum cannot wrap because both
      halves and the moduli are below 2^48 and `read` is 2^48 below 2^64. */
  lemma UnroundRound(br: Blackrock, j: int, h: Halves)
    requires Usable(br) && 1 <= j <= MaxRounds && InRange(br, j - 1, h)
    ensures Unround(br, j, Round(br, j, h)) == h
  {
    hide Read;
    Arith.AddThenSubMod(h.ll, Read(br, j, h.rr), GetMod(br, j));
  }

  /** Encrypt's round undoes decrypt's. */
  lemma RoundUnround(br: Blackrock, j: int, h: Halves)
    requires Usable(br) && 1 <= j <= MaxRounds && InRange(br, j, h)
    ensures Round(br, j, Unround(br, j, h)) == h
  {
    hide Read;
    Arith.SubThenAddMod(h.rr, Read(br, j, h.ll), GetMod(br, j));
  }

  /** Rounds 1 through `k` of encrypt, in order. */
  function Forward(br: Blackrock, k: nat, h: Halves): (r: Halves)
    requires Usable(br) && k <= br.rounds
    ensures InRange(br, 0, h) ==> InRange(br, k, r)
  {
    hide Read;
    if k == 0 then h else Round(br, k, Forward(br, k - 1, h))
  }

  /** Rounds `k` down to 1 of decrypt, in order. */
  function Backward(br: Blackrock, k: nat, h: Halves): (r: Halves)
    requires Usable(br) && k <= br.rounds
    ensures InRange(br, k, h) ==> InRange(br, 0, r)
  {
    hide Read;
    if k == 0 then h else Backward(br, k - 1, Unround(br, k, h))
  }

  /** Running the rounds backward undoes running them forward. */
  lemma {:induction false} BackwardForward(br: Blackrock, k: nat, h: Halves)
    requires Usable(br) && k <= br.rounds && InRange(br, 0, h)
    ensures Backward(br, k, Forward(br, k, h)) == h
  {
    hide Read;
    if k > 0 {
      UnroundRound(br, k, Forward(br, k - 1, h));
      BackwardForward(br, k - 1, h);
    }
  }

  /** Running the rounds forward undoes running them backward. */
  lemma {:induction false} ForwardBackward(br: Blackrock, k: nat, h: Halves)
    requires Usable(br) && k <= br.rounds && InRange(br, k, h)
    ensures Forward(br, k, Backward(br, k, h)) == h
  {
    hide Read;
    if k > 0 {
      var g := Unround(br, k, h);
      ForwardBackward(br, k - 1, g);
      RoundUnround(br, k, h);
    }
  }

  /** What encrypt returns for `m`. */
  function EncryptSpec(br: Blackrock, m: u64): (c: u64)
    requires Usable(br)
    ensures m < br.a * br.b ==> c < br.a * br.b
  {
    hide Read;
    Combine(br, br.rounds, Forward(br, br.rounds, Split(br, 0, m)))
  }

  /** What decrypt is meant to return for `c`: the rounds undone, then the
      halves joined back the way `divMod(m, a)` split them, `a * rr + ll`. */
  function DecryptSpec(br: Blackrock, c: u64): (m: u64)
    requires Usable(br)
    ensures c < br.a * br.b ==> m < br.a * br.b
  {
    hide Read;
    Combine(br, 0, Backward(br, br.rounds, Split(br, br.rounds, c)))
  }

  /** What decrypt as written returns for `c`: for an even round count it joins
      the halves as `a * ll + rr`, the opposite of how encrypt split them. */
  function DecryptAsWritten(br: Blackrock, c: u64): (m: u64)
    requires Usable(br)
    ensures br.rounds % 2 == 1 ==> m == DecryptSpec(br, c)
  {
    hide Read;
    var g := Backward(br, br.rounds, Split(br, br.rounds, c));
    if br.rounds % 2 == 1 then Join(br.a, g.rr, g.ll) else Join(br.a, g.ll, g.rr)
  }

  /** Decrypt undoes encrypt on `[0, a * b)`. */
  lemma DecryptEncrypt(br: Blackrock, m: u64)
    requires Usable(br) && m < br.a * br.b
    ensures DecryptSpec(br, EncryptSpec(br, m)) == m
  {
    hide Read;
    var h := Split(br, 0, m);
    var f := Forward(br, br.rounds, h);
    SplitCombine(br, br.rounds, f);
    BackwardForward(br, br.rounds, h);
    CombineSplit(br, 0, m);
  }

  /** Encrypt undoes decrypt on `[0, a * b)`, so encrypt permutes that range. */
  lemma EncryptDecrypt(br: Blackrock, c: u64)
    requires Usable(br) && c < br.a * br.b
    ensures EncryptSpec(br, DecryptSpec(br, c)) == c
  {
    hide Read;
    var h := Split(br, br.rounds, c);
    var g := Backward(br, br.rounds, h);
    SplitCombine(br, 0, g);
    ForwardBackward(br, br.rounds, h);
    CombineSplit(br, br.rounds, c);
  }

  /** With zero rounds encrypt is the identity on every uint64. */
  lemma EncryptZeroRounds(br: Blackrock, m: u64)
    requires Usable(br) && br.rounds == 0
    ensures EncryptSpec(br, m) == m
  {
    hide Read;
    CombineSplit(br, 0, m);
  }

  /** For an even round count, decrypt as written returns the intended result
      with its two digits exchanged: `a * (m % a) + m / a` in place of `m`. */
  lemma DecryptAsWrittenEven(br: Blackrock, c: u64)
    requires Usable(br) && br.rounds % 2 == 0 && c < br.a * br.b
    ensures var q := DivMod(DecryptSpec(br, c), br.a);
      DecryptAsWritten(br, c) == br.a * q.ll + q.rr
  {
    hide Read;
    var g := Backward(br, br.rounds, Split(br, br.rounds, c));
    SplitCombine(br, 0, g);
    Arith.JoinSwappedBelow(br.a, br.b, g.ll, g.rr);
  }

  /** Decrypt as written after encrypt: the identity for an odd round count,
      and the digit exchange `a * (m % a) + m / a` for an even one. */
  lemma DecryptAsWrittenEncrypt(br: Blackrock, m: u64)
    requires Usable(br) && m < br.a * br.b
    ensures br.rounds % 2 == 1 ==> DecryptAsWritten(br, EncryptSpec(br, m)) == m
    ensures br.rounds % 2 == 0 ==>
      DecryptAsWritten(br, EncryptSpec(br, m)) == br.a * (m % br.a) + m / br.a
  {
    hide Read;
    DecryptEncrypt(br, m);
    if br.rounds % 2 == 0 {
      DecryptAsWrittenEven(br, EncryptSpec(br, m));
      var q := DivMod(m, br.a);
      Arith.DivModUnique(m, br.a, q.rr, q.ll);
    }
  }

  /** The Blackrock New builds for `rangeLen = 5` with zero rounds (`a = 2`,
      `b = 3`): encrypt maps 1 to 1, but decrypt as written maps 1 to 2, a value
      still inside the range, so unshuffle as written does not invert shuffle. */
  lemma DecryptAsWrittenCounterexample(seed: i64)
    ensures Usable(Blackrock(5, 0, seed, 2, 3))
    ensures EncryptSpec(Blackrock(5, 0, seed, 2, 3), 1) == 1
    ensures DecryptAsWritten(Blackrock(5, 0, seed, 2, 3), 1) == 2
    ensures DecryptSpec(Blackrock(5, 0, seed, 2, 3), 1) == 1
  {
    hide Read;
    var br := Blackrock(5, 0, seed, 2, 3);
    assert Split(br, 0, 1) == Halves(0, 1);
  }

  /** encrypt: divMod, the rounds 1..rounds, then the parity-dependent join. */
  method Encrypt(br: Blackrock, m: u64) returns (c: u64)
    requires Usable(br)
    ensures c == EncryptSpec(br, m)
    ensures m < br.a * br.b ==> c < br.a * br.b
  {
    hide Read;
    var h := DivMod(m, br.a);
    var rr, ll := h.rr, h.ll;
    var j := 1;
    while j <= br.rounds
      invariant 1 <= j <= br.rounds + 1
      invariant Halves(rr, ll) == Forward(br, j - 1, Split(br, 0, m))
    {
      rr, ll := AddMod(ll, Read(br, j, rr), GetMod(br, j)), rr;
      j := j + 1;
    }
    if br.rounds % 2 == 1 {
      c := Join(br.a, ll, rr);
    } else {
      c := Join(br.a, rr, ll);
    }
  }

  /** decrypt: divMod, the halves swapped for an odd round count, the rounds
      undone from `rounds` down to 1, then the join `a * rr + ll` (the join
      decrypt uses for odd round counts, and the one that inverts encrypt for
      every round count). */
  method Decrypt(br: Blackrock, c: u64) returns (m: u64)
    requires Usable(br)
    ensures m == DecryptSpec(br, c)
    ensures c < br.a * br.b ==> m < br.a * br.b
  {
    hide Read;
    var h := DivMod(c, br.a);
    var rr, ll := h.rr, h.ll;
    if br.rounds % 2 == 1 {
      rr, ll := ll, rr;
    }
    var j := br.rounds;
    while j > 0
      invariant 0 <= j <= br.rounds
      invariant Backward(br, j, Halves(rr, ll)) == Backward(br, br.rounds, Split(br, br.rounds, c))
    {
      var M := if j % 2 == 1 then br.a else br.b;
      var tmp := SubMod(rr, Read(br, j, ll), M);
      rr, ll := ll, tmp;
      j := j - 1;
    }
    m := Join(br.a, rr, ll);
  }

  /** For `t > x`, decrypt's `M - ((t - x) % M)`, with `M` folded to 0, is `(x - t) mod M`. */
  lemma NegatedRemainder(x: nat, t: nat, M: nat)
    requires 0 < M
    ensures t > x ==> (if M - (t - x) % M == M then 0 else M - (t - x) % M) == (x - t) % M
  {
    if t > x {
      var e := (t - x) % M;
      var q := (t - x) / M;
      if e == 0 {
        Arith.DivModUnique(x - t, M, -q, 0);
      } else {
        Arith.DivModUnique(x - t, M, -q - 1, M - e);
      }
    }
  }
}
