# Blackrock permutation

A model of the Blackrock permutation used by the IP scanner to visit the
indices `0 .. rangeLen - 1` in a scrambled but repeatable order. `New`
chooses two moduli `a <= b` with `a * b > rangeLen`. `encrypt` and `decrypt`
are an unbalanced Feistel network on `[0, a * b)`. The network:

- splits a value into `m / a` and `m % a`;
- alternates between modulus `a` on odd rounds and `b` on even rounds;
- uses a round function `read` built from the seed, the round number and a
  256-entry S-box.

`Shuffle` and `unshuffle` restrict that permutation to `[0, rangeLen)` by
cycle walking: they re-apply the cipher until the value falls inside the
range.

The modules follow the layers of `internal/blackrock/blackrock.go`:

- `Words`: uint64 and int64 as integer ranges, with wrap-around written out.
- `Arith`: division and multiplication facts.
- `Bitwise`: Go's `^`, `|`, `<<` and `>>` on non-negative integers.
- `Sbox`: the S-box table `SBOX` of blackrock.go lines 7-40, copied value for value, each entry typed as a byte.
- `Engine`: the `Blackrock` record of blackrock.go lines 47-52 (`rangeLen`, `rounds`, `seed`, `a`, `b`), `min` and `New` with its widening loop. The record is a datatype because nothing changes it after `New`.
- `RoundFunction`: `getByte` and `read`.
- `Feistel`: `getMod`, `divMod`, `encrypt` and `decrypt`.
  - `encrypt` has a specification function, one round at a time, and a method with the source's loop proved equal to it.
  - `decrypt` has the same, except that its method and specification use the corrected final join `a*rr + ll` (see Findings).
  - The source's final join, `a*ll + rr` for an even round count, is modelled separately by `DecryptAsWritten`.
- `CycleWalk`: `Shuffle` and `unshuffle`. Each has a fuel-bounded
  specification and a method with the source's loop. The termination
  argument is a pigeonhole proof that every value lies on a cycle of the
  cipher no longer than `a * b`.

The main results:

- `read` never sets bits 39 to 48, so for halves in range (`ll < b < 2^48`) `ll + read(j, rr)` cannot wrap in uint64. This makes each encrypt round invertible. For a value `m >= a * b` passed to `encrypt`, the halves are not in range, and nothing is claimed.
- The corrected decrypt undoes `encrypt` on `[0, a * b)`, and the other way round.
- The source's `decrypt` does so only for an odd round count. For an even count, including `DefaultRounds = 14`, it returns `a * (m % a) + m / a` instead of `m`.
- `Shuffle` ends for every index below `rangeLen`, and its result is below
  `rangeLen`.
- `Shuffle` is a permutation of `[0, rangeLen)`, and `unshuffle` with the corrected decrypt is its inverse.
- The source's `unshuffle` is the inverse for an odd round count only.

The widening loop changes some of the if-chain's starting pairs:

- For `rangeLen = 1`, the if-chain sets `a = b = 1`, but the widening loop
  `for a*b <= rangeLen { b++ }` then raises `b` to 2. `Engine.New` states
  `a = 1, b = 2`.
- Likewise, `rangeLen = 2` ends with `b = 3` and `rangeLen = 6` with `b = 4`.

The stored round count is `min(64, rounds)`. `min` caps only from above, so 0 rounds is possible.

## Model

| member | source | states |
|---|---|---|
| Words.Unsigned | internal/blackrock/blackrock.go:91 | `uint64(seed)` has the same residue modulo 2^64 as the int64 seed |
| Sbox.SboxTable | internal/blackrock/blackrock.go:7-40 | the table has 256 entries, so every byte indexes it; each entry is below 256; the last entry is `0xae` |
| Engine.Min | internal/blackrock/blackrock.go:181-186 | the result is the smaller argument: no larger than either, and equal to one of them |
| Engine.ISqrt | internal/blackrock/blackrock.go:55 | the split is the integer square root: `r * r <= n < (r + 1) * (r + 1)` |
| Engine.LargeSplit | internal/blackrock/blackrock.go:70-73 | for `rangeLen >= 9`: `a = split - 2` is at least 1, `a * b` starts below 2^64, and `rangeLen < a * (a + 15)` |
| Engine.Widened | internal/blackrock/blackrock.go:75-79 | the loop's final `b` is the least `b >= b0` with `a * b > rangeLen` |
| Engine.Widen | internal/blackrock/blackrock.go:75-79 | the loop ends at the least `b` with `a * b > rangeLen`, never wraps, and stays within `a + 15` |
| Engine.New | internal/blackrock/blackrock.go:54-88 | the small-range table of `(a, b)` after widening; `a = isqrt - 2` and `b` minimal above `isqrt + 3` otherwise; rounds capped at 64; every result for a non-negative round count is valid |
| RoundFunction.GetByte | internal/blackrock/blackrock.go:90-92 | lane `n` mixed with the seed and `j` is a byte, so it indexes the S-box |
| RoundFunction.Pair | internal/blackrock/blackrock.go:97-100 | two S-box outputs shifted by 0 and 8 form a 16-bit value; shifted by 16 and 24 they form a 32-bit value with a clear low half |
| RoundFunction.LanePair | internal/blackrock/blackrock.go:97-100 | `lo<<k` or-ed with `hi<<(k+8)` is the 16-bit pair `lo` or-ed with `hi<<8`, scaled by `2^k` |
| RoundFunction.HighLanes | internal/blackrock/blackrock.go:102 | `r3<<33` keeps only the low 15 bits of the pair, placed from bit 49 up |
| RoundFunction.Recombined | internal/blackrock/blackrock.go:102 | `r0 ^ r1 ^ r2<<23 ^ r3<<33` has bits 39 to 48 clear and is below `2^64 - 2^48` |
| RoundFunction.Recombine | internal/blackrock/blackrock.go:102 | the recombined result has bits 39 to 48 clear and is below `2^64 - 2^48` |
| RoundFunction.Read | internal/blackrock/blackrock.go:94-103 | the round function never sets bits 39 to 48, so it is at least 2^48 below 2^64 |
| Feistel.GetMod | internal/blackrock/blackrock.go:174-179 | the modulus of round `j` is `a` or `b`, between 1 and `b` |
| Feistel.DivMod | internal/blackrock/blackrock.go:188-190 | quotient and remainder: `d * q + r == n` and `r < d` |
| Feistel.Join | internal/blackrock/blackrock.go:110-113 | the uint64 `a * hi + lo` is the exact value when that fits |
| Feistel.JoinFits | internal/blackrock/blackrock.go:110-113 | digits `hi < b` and `lo < a` join without wrapping, to a value below `a * b` |
| Feistel.DivModJoin | internal/blackrock/blackrock.go:188-190 | divMod recovers the digits of a join below `a * b` |
| Feistel.JoinDivMod | internal/blackrock/blackrock.go:188-190 | joining the quotient and remainder of `n` gives `n` back, for every uint64 |
| Feistel.QuotientBelow | internal/blackrock/blackrock.go:106 | the quotient by `a` of a value below `a * b` is below `b` |
| Feistel.Split | internal/blackrock/blackrock.go:117-120 | unpacking a value below `a * b` gives halves in the range of round `k` |
| Feistel.Combine | internal/blackrock/blackrock.go:110-113 | packing halves in the range of round `k` gives a value below `a * b` |
| Feistel.SplitCombine | internal/blackrock/blackrock.go:106-120 | unpacking undoes packing for halves in range |
| Feistel.CombineSplit | internal/blackrock/blackrock.go:106-120 | packing undoes unpacking for every uint64 |
| Feistel.AddMod | internal/blackrock/blackrock.go:108 | `(ll + read) % M` is below `M`, and is the exact modular sum when the sum fits in 64 bits |
| Feistel.NegatedRemainder | internal/blackrock/blackrock.go:126-131 | for `t > x`, `M - ((t - x) % M)`, folded to 0 when it equals `M`, is `(x - t) mod M` |
| Feistel.SubMod | internal/blackrock/blackrock.go:124-148 | decrypt's branchy subtraction is exactly `(x - t) mod M` and below `M` |
| Feistel.Round | internal/blackrock/blackrock.go:107-109 | an encrypt round takes halves in the range of round `j - 1` to the range of round `j` |
| Feistel.Unround | internal/blackrock/blackrock.go:122-149 | a decrypt round takes halves in the range of round `j` back to the range of round `j - 1` |
| Feistel.UnroundRound | internal/blackrock/blackrock.go:107-149 | decrypt's round `j` undoes encrypt's round `j` |
| Feistel.RoundUnround | internal/blackrock/blackrock.go:107-149 | encrypt's round `j` undoes decrypt's round `j` |
| Feistel.Forward | internal/blackrock/blackrock.go:107-109 | rounds 1 to `k` take the range of round 0 to the range of round `k` |
| Feistel.Backward | internal/blackrock/blackrock.go:122-150 | rounds `k` down to 1 take the range of round `k` back to the range of round 0 |
| Feistel.BackwardForward | internal/blackrock/blackrock.go:105-156 | running the rounds backward undoes running them forward |
| Feistel.ForwardBackward | internal/blackrock/blackrock.go:105-156 | running the rounds forward undoes running them backward |
| Feistel.EncryptSpec | internal/blackrock/blackrock.go:105-114 | encrypt maps `[0, a * b)` into itself |
| Feistel.DecryptSpec | internal/blackrock/blackrock.go:116-156 | corrected decrypt maps `[0, a * b)` into itself |
| Feistel.DecryptAsWritten | internal/blackrock/blackrock.go:116-156 | decrypt as written agrees with the corrected decrypt for an odd round count |
| Feistel.DecryptEncrypt | internal/blackrock/blackrock.go:105-156 | decrypt undoes encrypt on `[0, a * b)` |
| Feistel.EncryptDecrypt | internal/blackrock/blackrock.go:105-156 | encrypt undoes decrypt on `[0, a * b)`, so encrypt is a permutation of that range |
| Feistel.EncryptZeroRounds | internal/blackrock/blackrock.go:105-114 | with zero rounds encrypt is the identity |
| Feistel.DecryptAsWrittenEven | internal/blackrock/blackrock.go:152-155 | for an even round count, decrypt as written returns the intended result with its two digits exchanged |
| Feistel.DecryptAsWrittenEncrypt | internal/blackrock/blackrock.go:105-156 | decrypt as written after encrypt is the identity on `[0, a * b)` for an odd round count, and `a * (m % a) + m / a` for an even one |
| Feistel.DecryptAsWrittenCounterexample | internal/blackrock/blackrock.go:152-155 | with `rangeLen = 5` and zero rounds, encrypt maps 1 to 1 but decrypt as written maps 1 to 2 |
| Feistel.Encrypt | internal/blackrock/blackrock.go:105-114 | the loop computes the encrypt specification and stays in `[0, a * b)` |
| Feistel.Decrypt | internal/blackrock/blackrock.go:116-156 | the loop computes the corrected decrypt specification and stays in `[0, a * b)` |
| CycleWalk.Step | internal/blackrock/blackrock.go:159-160 | one encrypt or decrypt step keeps a value inside `[0, a * b)` |
| CycleWalk.Iterate | internal/blackrock/blackrock.go:159-162 | any number of cipher steps keeps a value inside `[0, a * b)` |
| CycleWalk.Walk | internal/blackrock/blackrock.go:158-172 | a cycle walk that ends returns a value below `rangeLen` |
| CycleWalk.ShuffleSpec | internal/blackrock/blackrock.go:158-164 | Shuffle's result, when there is one, is below `rangeLen` |
| CycleWalk.UnshuffleSpec | internal/blackrock/blackrock.go:166-172 | unshuffle's result, when there is one, is below `rangeLen` |
| CycleWalk.UnshuffleAsWritten | internal/blackrock/blackrock.go:166-172 | unshuffle as written agrees with the corrected unshuffle for an odd round count |
| CycleWalk.AsWrittenAgrees | internal/blackrock/blackrock.go:166-172 | for an odd round count, walks with decrypt as written and with corrected decrypt give the same result |
| CycleWalk.StepBack | internal/blackrock/blackrock.go:158-172 | the reverse cipher undoes one step inside `[0, a * b)` |
| CycleWalk.IterateLast | internal/blackrock/blackrock.go:159-162 | `k + 1` steps are `k` steps followed by one more |
| CycleWalk.IterateBack | internal/blackrock/blackrock.go:158-172 | `k` reverse steps after `i >= k` forward steps leave `i - k` forward steps |
| CycleWalk.Cancel | internal/blackrock/blackrock.go:158-164 | if two iterates of `x` meet, the walk from `x` returns to `x` after the difference of their step counts |
| CycleWalk.Pigeonhole | internal/blackrock/blackrock.go:158-164 | more than `n` values below `n` contain a repetition |
| CycleWalk.Orbit | internal/blackrock/blackrock.go:158-164 | every value of `[0, a * b)` returns to itself within 1 to `a * b` steps |
| CycleWalk.FirstHit | internal/blackrock/blackrock.go:159-162 | when some step is below `rangeLen`, there is a first such step |
| CycleWalk.WalkFirstHit | internal/blackrock/blackrock.go:159-162 | the walk returns the first iterate below `rangeLen` |
| CycleWalk.WalkRoundTrip | internal/blackrock/blackrock.go:158-172 | from `m < rangeLen` the walk ends at some `c`, and the reverse walk from `c` ends at `m` |
| CycleWalk.UnshuffleShuffle | internal/blackrock/blackrock.go:158-172 | Shuffle ends on every index below `rangeLen`, and unshuffle of its result is the index |
| CycleWalk.ShuffleUnshuffle | internal/blackrock/blackrock.go:158-172 | unshuffle ends on every value below `rangeLen`, and Shuffle of its result is the value |
| CycleWalk.UnshuffleAsWrittenShuffle | internal/blackrock/blackrock.go:158-172 | for an odd round count, unshuffle as written undoes Shuffle on `[0, rangeLen)` |
| CycleWalk.ShufflePermutes | internal/blackrock/blackrock.go:158-164 | Shuffle maps `[0, rangeLen)` into itself, one to one and onto |
| CycleWalk.ShuffleSingleton | internal/blackrock/blackrock.go:158-164 | with `rangeLen = 1`, Shuffle maps 0 to 0 |
| CycleWalk.UnshuffleAsWrittenCounterexample | internal/blackrock/blackrock.go:152-155 | for `New(5, 0, seed)`, Shuffle maps 1 to 1 but unshuffle as written maps 1 to 2 |
| CycleWalk.Shuffle | internal/blackrock/blackrock.go:158-164 | the loop ends for every index below `rangeLen` and returns Shuffle's result, below `rangeLen` |
| CycleWalk.Unshuffle | internal/blackrock/blackrock.go:166-172 | the loop, with corrected decrypt, ends for every value below `rangeLen` and returns unshuffle's result |

## Left out

- Engine.New: `uint64(math.Sqrt(float64(rangeLen)))` is modelled as the exact integer square root `ISqrt`. Above 2^52 the float conversion can round the root up by one, so the source's `a` can differ from the model's.
- Engine.New: requires `rangeLen < 2^64 - 2^32`. Above that, the source's `a*b <= rangeLen` loop can wrap in uint64, and `b` can overflow.
- Engine.Valid: excludes negative round counts, which `min(MaxRounds, rounds)` lets through. With a negative odd count, encrypt runs no rounds but joins the digits exchanged, which is not a permutation. Feistel and CycleWalk assume `0 <= rounds <= 64`. `min` caps only from above, so 0 rounds is allowed.
- Feistel and CycleWalk require `rangeLen > 0`. With `rangeLen = 0`, `a = 0` and `divMod` divides by zero, a Go runtime panic.
- CycleWalk.Shuffle and CycleWalk.Unshuffle: require their argument to be below `rangeLen`. For a value at or above it, the source loop can run forever, for example on a fixed point of encrypt outside the range.
- CycleWalk.Walk, ShuffleSpec and UnshuffleSpec: carry a fuel of `a * b` steps. `CycleWalk.UnshuffleShuffle` proves this fuel is always enough from inside the range. `UnshuffleAsWritten` is only modelled up to that bound.
- CycleWalk.Unshuffle: uses the corrected decrypt (see Findings). The source's unshuffle with an even round count is modelled only by `CycleWalk.UnshuffleAsWritten`.
- Go's `^`, `|`, `<<` and `>>` on uint64 are modelled on non-negative integers, digit by binary digit, rather than on bit-vectors. `<<` keeps its uint64 truncation.
- The statistical claims are not modelled: the S-box's diffusion, seed sensitivity and the expected number of cycle-walk steps.
- Concurrency is not modelled. The value is immutable after `New`, so it does not arise.
- `DefaultRounds` is only declared. No operation of the core uses it.

## Findings

| source | as written | input that shows it | evidently intended | confidence | as-written member | corrected member |
|---|---|---|---|---|---|---|
| internal/blackrock/blackrock.go:152-155 | for an even round count, decrypt joins its halves as `a*ll + rr`, exchanging the two digits that encrypt's `divMod(m, a)` produced | `New(5, 0, seed)` (`a = 2`, `b = 3`, zero rounds): `encrypt(1) = 1` and `Shuffle(1) = 1`, but `decrypt(1) = 2` and `unshuffle(1) = 2` | decrypt ends with `a*rr + ll` for every round count, so unshuffle inverts Shuffle | high; not executed | Feistel.DecryptAsWrittenCounterexample | Feistel.Decrypt |
