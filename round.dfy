/** The Feistel round function `read(j, rr)`: the half mixed with the seed
    rotated by `j`, split into eight byte lanes, each lane mixed again with the
    seed and `j` and passed through the S-box, and the eight results recombined
    in four pairs with shifts 0, 16, 23 and 33. */
module RoundFunction {
  import opened Words
  import opened Engine
  import opened Bitwise
  import opened Sbox
  import Arith

  /** Byte lane `n` of `rr`, mixed with the low byte of the seed and the round number. */
  function GetByte(br: Blackrock, rr: nat, n: nat, j: nat): (r: nat)
    requires n < 8
    ensures r < 256
  {
    Xor(Xor(Shr(rr, n * 8), Unsigned(br.seed)), j) % 0x100
  }

  /** The round function of round `j` applied to the half `rr`. Lanes 0-3 land
      in bits 0-31, lanes 4-5 shifted by 23 in bits 23-38 and lanes 6-7 shifted
      by 33 in bits 49-63: bits 39 through 48 are never set, so the result is
      2^48 below 2^64 and adding a half below MaxModulus = 2^48 to it never wraps. */
  function Read(br: Blackrock, j: int, rr: u64): (r: u64)
    requires 1 <= j <= MaxRounds
    ensures r % 0x2_0000_0000_0000 < 0x80_0000_0000
    ensures r < TWO64 - MaxModulus
  {
    var s := Unsigned(br.seed);
    var x := Xor(Xor(rr, Shl(s, j)), Shr(s, 64 - j));
    var r0 := Pair(SBOX[GetByte(br, x, 0, j)], SBOX[GetByte(br, x, 1, j)], 0);
    var r1 := Pair(SBOX[GetByte(br, x, 2, j)], SBOX[GetByte(br, x, 3, j)], 16);
    var r2 := Pair(SBOX[GetByte(br, x, 4, j)], SBOX[GetByte(br, x, 5, j)], 0);
    var r3 := Pair(SBOX[GetByte(br, x, 6, j)], SBOX[GetByte(br, x, 7, j)], 16);
    Recombine(r0, r1, r2, r3)
  }

  /** `lo<<k | hi<<(k + 8)` for two S-box outputs: the pair as a 16-bit number,
      scaled by `2^k`. */
  function Pair(lo: Byte, hi: Byte, k: nat): (r: nat)
    requires k == 0 || k == 16
    ensures k == 0 ==> r < 0x1_0000
    ensures k == 16 ==> r < 0x1_0000_0000 && r % 0x1_0000 == 0
  {
    LanePair(lo, hi, k);
    Pow2Constants();
    Or(Shl(lo, k), Shl(hi, k + 8))
  }

  /** `r0 ^ r1 ^ r2<<23 ^ r3<<33` for the four lane pairs: `r0` and `r2` 16-bit,
      `r1` 32-bit and `r3` a 16-bit number shifted by 16. */
  function Recombine(r0: nat, r1: nat, r2: nat, r3: nat): (r: u64)
    requires r0 < 0x1_0000 && r1 < 0x1_0000_0000 && r2 < 0x1_0000
    requires r3 < 0x1_0000_0000 && r3 % 0x1_0000 == 0
    ensures r % 0x2_0000_0000_0000 < 0x80_0000_0000
    ensures r < TWO64 - MaxModulus
  {
    Pow2Constants();
    assert r3 == 0x1_0000 * (r3 / 0x1_0000);
    Recombined(r0, r1, r2, r3 / 0x1_0000);
    Xor(Xor(Xor(r0, r1), Shl(r2, 23)), Shl(r3, 33))
  }

  /** The powers of two the round function shifts by. */
  lemma Pow2Constants()
    ensures Pow2(0) == 1 && Pow2(8) == 0x100 && Pow2(16) == 0x1_0000 && Pow2(24) == 0x100_0000
    ensures Pow2(23) == 0x80_0000 && Pow2(33) == 0x2_0000_0000
    ensures Pow2(39) == 0x80_0000_0000 && Pow2(49) == 0x2_0000_0000_0000
  {
    assert Pow2(8) == 0x100;
    assert Pow2(16) == 0x1_0000;
    assert Pow2(24) == 0x100_0000;
    assert Pow2(33) == 0x2_0000_0000;
    assert Pow2(39) == 0x80_0000_0000;
    assert Pow2(49) == 0x2_0000_0000_0000;
  }

  /** A pair of S-box outputs shifted by `k` and `k + 8` and or-ed: the pair as
      a 16-bit number, scaled by `2^k`. */
  lemma LanePair(lo: nat, hi: nat, k: nat)
    requires lo < 0x100 && hi < 0x100 && (k == 0 || k == 16)
    ensures Or(Shl(lo, k), Shl(hi, k + 8)) == Pow2(k) * Or(lo, 0x100 * hi)
    ensures Or(lo, 0x100 * hi) < 0x1_0000
  {
    Pow2Constants();
    assert Shl(lo, k) == Pow2(k) * lo;
    assert Shl(hi, k + 8) == Pow2(k) * (0x100 * hi);
    OrScaled(lo, 0x100 * hi, k);
    OrBelow(lo, 0x100 * hi, 16);
  }

  /** The final `r0 ^ r1 ^ r2<<23 ^ r3<<33` with `r0`, `r2` 16-bit, `r1` 32-bit and
      `r3` a 16-bit number shifted by 16: the three low terms stay below 2^39 and
      the last one lands from bit 49 up, so bits 39 through 48 stay clear. */
  lemma Recombined(r0: nat, r1: nat, r2: nat, u: nat)
    requires r0 < 0x1_0000 && r1 < 0x1_0000_0000 && r2 < 0x1_0000 && u < 0x1_0000
    requires Pow2(23) == 0x80_0000 && Pow2(33) == 0x2_0000_0000
    requires Pow2(39) == 0x80_0000_0000 && Pow2(49) == 0x2_0000_0000_0000
    ensures var r := Xor(Xor(Xor(r0, r1), Shl(r2, 23)), Shl(0x1_0000 * u, 33));
      r % 0x2_0000_0000_0000 < 0x80_0000_0000 && r < TWO64 - MaxModulus
  {
    XorBelow(r0, r1, 39);
    var low := Xor(Xor(r0, r1), Shl(r2, 23));
    XorBelow(Xor(r0, r1), Shl(r2, 23), 39);
    var q := u % 0x8000;
    HighLanes(u);
    XorDisjoint(low, q, 49);
    var r := low + 0x2_0000_0000_0000 * q;
    Arith.DivModUnique(r, 0x2_0000_0000_0000, q, low);
  }

  /** `(u << 16) << 33` on a uint64 keeps the low 15 bits of `u`, from bit 49 up. */
  lemma HighLanes(u: nat)
    requires Pow2(33) == 0x2_0000_0000
    ensures Shl(0x1_0000 * u, 33) == 0x2_0000_0000_0000 * (u % 0x8000)
  {
    var n := 0x1_0000 * u * 0x2_0000_0000;
    assert n == TWO64 * (u / 0x8000) + 0x2_0000_0000_0000 * (u % 0x8000);
    Arith.DivModUnique(n, TWO64, u / 0x8000, 0x2_0000_0000_0000 * (u % 0x8000));
  }
}
