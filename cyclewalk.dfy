/** Cycle walking: Shuffle and unshuffle restrict the permutation of
    `[0, a * b)` that encrypt and decrypt compute to `[0, rangeLen)` by
    applying the cipher to its own output until the value falls inside the
    range. */
module CycleWalk {
  import opened Words
  import opened Engine
  import opened Feistel

  datatype Option<T> = None | Some(value: T)

  /** Which cipher a walk applies: encrypt (Shuffle), decrypt (unshuffle),
      or decrypt with the join it uses for an even round count. */
  datatype Direction = Encrypting | Decrypting | DecryptingAsWritten

  /** The direction that undoes `dir`. */
  function Reverse(dir: Direction): Direction
  {
    if dir == Encrypting then Decrypting else Encrypting
  }

  /** One application of the cipher of `dir`. */
  function Step(br: Blackrock, dir: Direction, x: u64): (y: u64)
    requires Usable(br)
    ensures dir != DecryptingAsWritten && x < br.a * br.b ==> y < br.a * br.b
  {
    hide EncryptSpec, DecryptSpec, DecryptAsWritten;
    match dir
    case Encrypting => EncryptSpec(br, x)
    case Decrypting => DecryptSpec(br, x)
    case DecryptingAsWritten => DecryptAsWritten(br, x)
  }

  /** The cipher of `dir` applied `k` times to `x`. */
  function Iterate(br: Blackrock, dir: Direction, x: u64, k: nat): (y: u64)
    requires Usable(br)
    ensures dir != DecryptingAsWritten && x < br.a * br.b ==> y < br.a * br.b
    decreases k
  {
    hide EncryptSpec, DecryptSpec, DecryptAsWritten;
    if k == 0 then x else Iterate(br, dir, Step(br, dir, x), k - 1)
  }

  /** The loop of Shuffle and unshuffle: apply the cipher to `x`, and again
      to each result, until one falls below `rangeLen`; `None` when `fuel`
      applications do not get there. */
  function Walk(br: Blackrock, dir: Direction, x: u64, fuel: nat): (r: Option<u64>)
    requires Usable(br)
    ensures r.Some? ==> r.value < br.rangeLen
    decreases fuel
  {
    hide EncryptSpec, DecryptSpec, DecryptAsWritten;
    if fuel == 0 then None
    else
      var y := Step(br, dir, x);
      if y < br.rangeLen then Some(y) else Walk(br, dir, y, fuel - 1)
  }

  /** What Shuffle returns for `m`: the walk with encrypt, given `a * b`
      applications, which is always enough for `m < rangeLen`. */
  function ShuffleSpec(br: Blackrock, m: u64): (r: Option<u64>)
    requires Usable(br)
    ensures r.Some? ==> r.value < br.rangeLen
  {
    hide EncryptSpec, DecryptSpec, DecryptAsWritten;
    Walk(br, Encrypting, m, br.a * br.b)
  }

  /** What unshuffle is meant to return for `c`: the walk with decrypt. */
  function UnshuffleSpec(br: Blackrock, c: u64): (r: Option<u64>)
    requires Usable(br)
    ensures r.Some? ==> r.value < br.rangeLen
  {
    hide EncryptSpec, DecryptSpec, DecryptAsWritten;
    Walk(br, Decrypting, c, br.a * br.b)
  }

  /** What unshuffle as written returns for `c` within `a * b` steps: the walk
      with decrypt as written. */
  function UnshuffleAsWritten(br: Blackrock, c: u64): (r: Option<u64>)
    requires Usable(br)
    ensures br.rounds % 2 == 1 ==> r == UnshuffleSpec(br, c)
  {
    hide EncryptSpec, DecryptSpec, DecryptAsWritten;
    AsWrittenAgrees(br, c, br.a * br.b);
    Walk(br, DecryptingAsWritten, c, br.a * br.b)
  }

  /** For an odd round count decrypt as written is decrypt, step by step. */
  lemma {:induction false} AsWrittenAgrees(br: Blackrock, c: u64, fuel: nat)
    requires Usable(br)
    ensures br.rounds % 2 == 1 ==>
      Walk(br, DecryptingAsWritten, c, fuel) == Walk(br, Decrypting, c, fuel)
    decreases fuel
  {
    hide EncryptSpec, DecryptSpec, DecryptAsWritten;
    if br.rounds % 2 == 1 && fuel > 0 {
      assert Step(br, DecryptingAsWritten, c) == Step(br, Decrypting, c);
      AsWrittenAgrees(br, Step(br, Decrypting, c), fuel - 1);
    }
  }

  /** The reverse cipher undoes one step on `[0, a * b)`. */
  lemma StepBack(br: Blackrock, dir: Direction, x: u64)
    requires Usable(br) && dir != DecryptingAsWritten && x < br.a * br.b
    ensures Step(br, Reverse(dir), Step(br, dir, x)) == x
  {
    hide EncryptSpec, DecryptSpec, DecryptAsWritten;
    if dir == Encrypting {
      DecryptEncrypt(br, x);
    } else {
      EncryptDecrypt(br, x);
    }
  }

  /** `k + 1` applications are `k` applications followed by one more. */
  lemma {:induction false} IterateLast(br: Blackrock, dir: Direction, x: u64, k: nat)
    requires Usable(br)
    ensures Iterate(br, dir, x, k + 1) == Step(br, dir, Iterate(br, dir, x, k))
    decreases k
  {
    hide EncryptSpec, DecryptSpec, DecryptAsWritten;
    if k > 0 {
      IterateLast(br, dir, Step(br, dir, x), k - 1);
    }
  }

  /** `k` reverse steps after `i` forward steps, `k <= i`, leave `i - k` forward steps. */
  lemma {:induction false} IterateBack(br: Blackrock, dir: Direction, x: u64, i: nat, k: nat)
    requires Usable(br) && dir != DecryptingAsWritten && x < br.a * br.b && k <= i
    ensures Iterate(br, Reverse(dir), Iterate(br, dir, x, i), k) == Iterate(br, dir, x, i - k)
    decreases k
  {
    hide EncryptSpec, DecryptSpec, DecryptAsWritten;
    if k > 0 {
      IterateLast(br, dir, x, i - 1);
      StepBack(br, dir, Iterate(br, dir, x, i - 1));
      IterateBack(br, dir, x, i - 1, k - 1);
    }
  }

  /** If the `i`-th and `j`-th iterates of `x` meet, `i <= j`, the walk from `x`
      returns to `x` after `j - i` steps: the cipher is one to one. */
  lemma {:induction false} Cancel(br: Blackrock, dir: Direction, x: u64, i: nat, j: nat)
    requires Usable(br) && dir != DecryptingAsWritten && x < br.a * br.b && i <= j
    requires Iterate(br, dir, x, i) == Iterate(br, dir, x, j)
    ensures Iterate(br, dir, x, j - i) == x
    decreases i
  {
    hide EncryptSpec, DecryptSpec, DecryptAsWritten;
    if i > 0 {
      IterateLast(br, dir, x, i - 1);
      IterateLast(br, dir, x, j - 1);
      StepBack(br, dir, Iterate(br, dir, x, i - 1));
      StepBack(br, dir, Iterate(br, dir, x, j - 1));
      Cancel(br, dir, x, i - 1, j - 1);
    }
  }

  /** More than `n` values below `n` contain a repetition. */
  lemma {:induction false} Pigeonhole(s: seq<nat>, n: nat)
    requires 0 < n < |s|
    requires forall i :: 0 <= i < |s| ==> s[i] < n
    ensures exists i, j :: 0 <= i < j < |s| && s[i] == s[j]
    decreases n
  {
    if n == 1 {
      assert s[0] == 0 && s[1] == 0;
    } else {
      var last := s[|s| - 1];
      if exists i :: 0 <= i < |s| - 1 && s[i] == last {
        var i :| 0 <= i < |s| - 1 && s[i] == last;
        assert s[i] == s[|s| - 1];
      } else {
        // Renumber the value n - 1 as `last`: the prefix then stays below n - 1.
        var t := seq(|s| - 1, i requires 0 <= i < |s| - 1 => if s[i] == n - 1 then last else s[i]);
        assert forall i :: 0 <= i < |t| ==> t[i] < n - 1 by {
          forall i | 0 <= i < |t| ensures t[i] < n - 1 {
            assert s[i] != last;
          }
        }
        Pigeonhole(t, n - 1);
        var i, j :| 0 <= i < j < |t| && t[i] == t[j];
        assert s[i] != last && s[j] != last;
        assert s[i] == s[j];
      }
    }
  }

  /** Every `x` in `[0, a * b)` lies on a cycle of length at most `a * b`. */
  lemma Orbit(br: Blackrock, dir: Direction, x: u64) returns (p: nat)
    requires Usable(br) && dir != DecryptingAsWritten && x < br.a * br.b
    ensures 1 <= p <= br.a * br.b && Iterate(br, dir, x, p) == x
  {
    hide EncryptSpec, DecryptSpec, DecryptAsWritten;
    var n := br.a * br.b;
    var s := seq(n + 1, k requires 0 <= k <= n => Iterate(br, dir, x, k) as nat);
    Pigeonhole(s, n);
    var i, j :| 0 <= i < j < |s| && s[i] == s[j];
    Cancel(br, dir, x, i, j);
    p := j - i;
  }

  /** The first step `i <= p` at which the walk from `x` is below `rangeLen`,
      when step `p` is and steps before `lo` are not. */
  lemma FirstHit(br: Blackrock, dir: Direction, x: u64, lo: nat, p: nat) returns (i: nat)
    requires Usable(br) && 1 <= lo <= p && Iterate(br, dir, x, p) < br.rangeLen
    requires forall k :: 1 <= k < lo ==> Iterate(br, dir, x, k) >= br.rangeLen
    ensures lo <= i <= p && Iterate(br, dir, x, i) < br.rangeLen
    ensures forall k :: 1 <= k < i ==> Iterate(br, dir, x, k) >= br.rangeLen
    decreases p - lo
  {
    hide EncryptSpec, DecryptSpec, DecryptAsWritten;
    if Iterate(br, dir, x, lo) < br.rangeLen {
      i := lo;
    } else {
      i := FirstHit(br, dir, x, lo + 1, p);
    }
  }

  /** The walk returns the first iterate below `rangeLen` when the fuel reaches it. */
  lemma {:induction false} WalkFirstHit(br: Blackrock, dir: Direction, x: u64, fuel: nat, i: nat)
    requires Usable(br) && 1 <= i <= fuel && Iterate(br, dir, x, i) < br.rangeLen
    requires forall k :: 1 <= k < i ==> Iterate(br, dir, x, k) >= br.rangeLen
    ensures Walk(br, dir, x, fuel) == Some(Iterate(br, dir, x, i))
    decreases i
  {
    hide EncryptSpec, DecryptSpec, DecryptAsWritten;
    var y := Step(br, dir, x);
    assert Iterate(br, dir, x, 1) == y;
    if i > 1 {
      forall k | 1 <= k < i - 1
        ensures Iterate(br, dir, y, k) >= br.rangeLen
      {
        assert Iterate(br, dir, x, k + 1) == Iterate(br, dir, y, k);
      }
      WalkFirstHit(br, dir, y, fuel - 1, i - 1);
    }
  }

  /** From `m < rangeLen` the walk ends, at `c < rangeLen`, and the reverse
      walk from `c` ends at `m`. */
  lemma WalkRoundTrip(br: Blackrock, dir: Direction, m: u64)
    requires Usable(br) && dir != DecryptingAsWritten && m < br.rangeLen
    ensures var r := Walk(br, dir, m, br.a * br.b);
      r.Some? && Walk(br, Reverse(dir), r.value, br.a * br.b) == Some(m)
  {
    hide EncryptSpec, DecryptSpec, DecryptAsWritten;
    var n := br.a * br.b;
    var p := Orbit(br, dir, m);
    var i := FirstHit(br, dir, m, 1, p);
    WalkFirstHit(br, dir, m, n, i);
    var c := Iterate(br, dir, m, i);
    forall k | 1 <= k < i
      ensures Iterate(br, Reverse(dir), c, k) >= br.rangeLen
    {
      IterateBack(br, dir, m, i, k);
    }
    IterateBack(br, dir, m, i, i);
    WalkFirstHit(br, Reverse(dir), c, n, i);
  }

  /** Unshuffle undoes Shuffle on `[0, rangeLen)`. */
  lemma UnshuffleShuffle(br: Blackrock, m: u64)
    requires Usable(br) && m < br.rangeLen
    ensures ShuffleSpec(br, m).Some?
    ensures UnshuffleSpec(br, ShuffleSpec(br, m).value) == Some(m)
  {
    hide EncryptSpec, DecryptSpec, DecryptAsWritten;
    WalkRoundTrip(br, Encrypting, m);
  }

  /** Shuffle undoes unshuffle on `[0, rangeLen)`. */
  lemma ShuffleUnshuffle(br: Blackrock, c: u64)
    requires Usable(br) && c < br.rangeLen
    ensures UnshuffleSpec(br, c).Some?
    ensures ShuffleSpec(br, UnshuffleSpec(br, c).value) == Some(c)
  {
    hide EncryptSpec, DecryptSpec, DecryptAsWritten;
    WalkRoundTrip(br, Decrypting, c);
  }

  /** For an odd round count unshuffle as written undoes Shuffle. */
  lemma UnshuffleAsWrittenShuffle(br: Blackrock, m: u64)
    requires Usable(br) && m < br.rangeLen && br.rounds % 2 == 1
    ensures ShuffleSpec(br, m).Some?
    ensures UnshuffleAsWritten(br, ShuffleSpec(br, m).value) == Some(m)
  {
    hide EncryptSpec, DecryptSpec, DecryptAsWritten;
    UnshuffleShuffle(br, m);
  }

  /** Shuffle is a permutation of `[0, rangeLen)`: it has a result below
      `rangeLen` for every input there, no two inputs share a result, and
      every value there is the result of some input. */
  lemma ShufflePermutes(br: Blackrock, m1: u64, m2: u64, c: u64)
    requires Usable(br) && m1 < br.rangeLen && m2 < br.rangeLen && c < br.rangeLen
    ensures ShuffleSpec(br, m1).Some? && ShuffleSpec(br, m1).value < br.rangeLen
    ensures ShuffleSpec(br, m1) == ShuffleSpec(br, m2) ==> m1 == m2
    ensures exists m: u64 :: m < br.rangeLen && ShuffleSpec(br, m) == Some(c)
  {
    hide EncryptSpec, DecryptSpec, DecryptAsWritten;
    UnshuffleShuffle(br, m1);
    UnshuffleShuffle(br, m2);
    ShuffleUnshuffle(br, c);
    var m := UnshuffleSpec(br, c).value;
    assert ShuffleSpec(br, m) == Some(c);
  }

  /** With a single value in the range Shuffle maps 0 to 0. */
  lemma ShuffleSingleton(br: Blackrock)
    requires Usable(br) && br.rangeLen == 1
    ensures ShuffleSpec(br, 0) == Some(0)
  {
    hide EncryptSpec, DecryptSpec, DecryptAsWritten;
    UnshuffleShuffle(br, 0);
  }

  /** The Blackrock New builds for `rangeLen = 5` with zero rounds: Shuffle maps
      1 to 1, while unshuffle as written maps 1 to 2. */
  lemma UnshuffleAsWrittenCounterexample(seed: i64)
    ensures ShuffleSpec(Blackrock(5, 0, seed, 2, 3), 1) == Some(1)
    ensures UnshuffleAsWritten(Blackrock(5, 0, seed, 2, 3), 1) == Some(2)
  {
    hide EncryptSpec, DecryptSpec, DecryptAsWritten;
    var br := Blackrock(5, 0, seed, 2, 3);
    DecryptAsWrittenCounterexample(seed);
    assert Walk(br, Encrypting, 1, 6) == Some(1);
    assert Walk(br, DecryptingAsWritten, 1, 6) == Some(2);
  }

  /** Shuffle: encrypt `m`, then encrypt again while the value is not below `rangeLen`. */
  method Shuffle(br: Blackrock, m: u64) returns (c: u64)
    requires Usable(br) && m < br.rangeLen
    ensures ShuffleSpec(br, m) == Some(c)
    ensures c < br.rangeLen
  {
    hide EncryptSpec, DecryptSpec, DecryptAsWritten;
    ghost var p := Orbit(br, Encrypting, m);
    c := Encrypt(br, m);
    ghost var i: nat := 1;
    while c >= br.rangeLen
      invariant 1 <= i <= p
      invariant c == Iterate(br, Encrypting, m, i)
      invariant forall k :: 1 <= k < i ==> Iterate(br, Encrypting, m, k) >= br.rangeLen
      decreases p - i
    {
      IterateLast(br, Encrypting, m, i);
      c := Encrypt(br, c);
      i := i + 1;
    }
    WalkFirstHit(br, Encrypting, m, br.a * br.b, i);
  }

  /** unshuffle: decrypt `c`, then decrypt again while the value is not below
      `rangeLen`, with the decrypt that inverts encrypt. */
  method Unshuffle(br: Blackrock, c: u64) returns (m: u64)
    requires Usable(br) && c < br.rangeLen
    ensures UnshuffleSpec(br, c) == Some(m)
    ensures m < br.rangeLen
  {
    hide EncryptSpec, DecryptSpec, DecryptAsWritten;
    ghost var p := Orbit(br, Decrypting, c);
    m := Decrypt(br, c);
    ghost var i: nat := 1;
    while m >= br.rangeLen
      invariant 1 <= i <= p
      invariant m == Iterate(br, Decrypting, c, i)
      invariant forall k :: 1 <= k < i ==> Iterate(br, Decrypting, c, k) >= br.rangeLen
      decreases p - i
    {
      IterateLast(br, Decrypting, c, i);
      m := Decrypt(br, m);
      i := i + 1;
    }
    WalkFirstHit(br, Decrypting, c, br.a * br.b, i);
  }
}
