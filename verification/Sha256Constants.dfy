/** Where the constants of SHA-256 come from: sections 4.2.2 and 5.3.3 of FIPS 180-4. */
module Sha256Constants {
  import opened Sha256Spec

  /** The first sixty-four primes, written out. */
  const PRIMES: seq<seq<nat>> := [
    [2, 3, 5, 7, 11, 13, 17, 19],
    [23, 29, 31, 37, 41, 43, 47, 53],
    [59, 61, 67, 71, 73, 79, 83, 89],
    [97, 101, 103, 107, 109, 113, 127, 131],
    [137, 139, 149, 151, 157, 163, 167, 173],
    [179, 181, 191, 193, 197, 199, 211, 223],
    [227, 229, 233, 239, 241, 251, 257, 263],
    [269, 271, 277, 281, 283, 293, 307, 311]]

  const UNIT: nat := 0x1_0000_0000

  /** `whole` with 32 fractional bits `bits` is the square root of `p`, rounded down. */
  predicate SquareBits(p: nat, whole: nat, bits: nat) {
    var r := whole * UNIT + bits;
    bits < UNIT && r * r <= p * UNIT * UNIT < (r + 1) * (r + 1)
  }

  predicate CubeBits(p: nat, whole: nat, bits: nat) {
    var r := whole * UNIT + bits;
    bits < UNIT && r * r * r <= p * UNIT * UNIT * UNIT < (r + 1) * (r + 1) * (r + 1)
  }

  ghost predicate IsCubeRoot(p: nat, bits: nat) { exists whole: nat :: CubeBits(p, whole, bits) }

  /** The initial hash value holds the first 32 bits of the fractional parts of the square roots of the first eight
      primes. */
  lemma InitialValueIsSquareRoots()
    ensures INITIAL.a == 0x6a09e667 && SquareBits(PRIMES[0][0], 1, 0x6a09e667)
    ensures INITIAL.b == 0xbb67ae85 && SquareBits(PRIMES[0][1], 1, 0xbb67ae85)
    ensures INITIAL.c == 0x3c6ef372 && SquareBits(PRIMES[0][2], 2, 0x3c6ef372)
    ensures INITIAL.d == 0xa54ff53a && SquareBits(PRIMES[0][3], 2, 0xa54ff53a)
    ensures INITIAL.e == 0x510e527f && SquareBits(PRIMES[0][4], 3, 0x510e527f)
    ensures INITIAL.f == 0x9b05688c && SquareBits(PRIMES[0][5], 3, 0x9b05688c)
    ensures INITIAL.g == 0x1f83d9ab && SquareBits(PRIMES[0][6], 4, 0x1f83d9ab)
    ensures INITIAL.h == 0x5be0cd19 && SquareBits(PRIMES[0][7], 4, 0x5be0cd19)
  {
  }

  lemma {:induction false} FirstRow(j: nat)
    requires j < 8
    ensures |K[0]| == |PRIMES[0]| == 8 && IsCubeRoot(PRIMES[0][j], K[0][j])
  {
    assert CubeBits(2, 1, 0x428a2f98);
    assert CubeBits(3, 1, 0x71374491);
    assert CubeBits(5, 1, 0xb5c0fbcf);
    assert CubeBits(7, 1, 0xe9b5dba5);
    assert CubeBits(11, 2, 0x3956c25b);
    assert CubeBits(13, 2, 0x59f111f1);
    assert CubeBits(17, 2, 0x923f82a4);
    assert CubeBits(19, 2, 0xab1c5ed5);
  }

  lemma {:induction false} SecondRow(j: nat)
    requires j < 8
    ensures |K[1]| == |PRIMES[1]| == 8 && IsCubeRoot(PRIMES[1][j], K[1][j])
  {
    assert CubeBits(23, 2, 0xd807aa98);
    assert CubeBits(29, 3, 0x12835b01);
    assert CubeBits(31, 3, 0x243185be);
    assert CubeBits(37, 3, 0x550c7dc3);
    assert CubeBits(41, 3, 0x72be5d74);
    assert CubeBits(43, 3, 0x80deb1fe);
    assert CubeBits(47, 3, 0x9bdc06a7);
    assert CubeBits(53, 3, 0xc19bf174);
  }

  lemma {:induction false} ThirdRow(j: nat)
    requires j < 8
    ensures |K[2]| == |PRIMES[2]| == 8 && IsCubeRoot(PRIMES[2][j], K[2][j])
  {
    assert CubeBits(59, 3, 0xe49b69c1);
    assert CubeBits(61, 3, 0xefbe4786);
    assert CubeBits(67, 4, 0x0fc19dc6);
    assert CubeBits(71, 4, 0x240ca1cc);
    assert CubeBits(73, 4, 0x2de92c6f);
    assert CubeBits(79, 4, 0x4a7484aa);
    assert CubeBits(83, 4, 0x5cb0a9dc);
    assert CubeBits(89, 4, 0x76f988da);
  }

  lemma {:induction false} FourthRow(j: nat)
    requires j < 8
    ensures |K[3]| == |PRIMES[3]| == 8 && IsCubeRoot(PRIMES[3][j], K[3][j])
  {
    assert CubeBits(97, 4, 0x983e5152);
    assert CubeBits(101, 4, 0xa831c66d);
    assert CubeBits(103, 4, 0xb00327c8);
    assert CubeBits(107, 4, 0xbf597fc7);
    assert CubeBits(109, 4, 0xc6e00bf3);
    assert CubeBits(113, 4, 0xd5a79147);
    assert CubeBits(127, 5, 0x06ca6351);
    assert CubeBits(131, 5, 0x14292967);
  }

  lemma {:induction false} FifthRow(j: nat)
    requires j < 8
    ensures |K[4]| == |PRIMES[4]| == 8 && IsCubeRoot(PRIMES[4][j], K[4][j])
  {
    assert CubeBits(137, 5, 0x27b70a85);
    assert CubeBits(139, 5, 0x2e1b2138);
    assert CubeBits(149, 5, 0x4d2c6dfc);
    assert CubeBits(151, 5, 0x53380d13);
    assert CubeBits(157, 5, 0x650a7354);
    assert CubeBits(163, 5, 0x766a0abb);
    assert CubeBits(167, 5, 0x81c2c92e);
    assert CubeBits(173, 5, 0x92722c85);
  }

  lemma {:induction false} SixthRow(j: nat)
    requires j < 8
    ensures |K[5]| == |PRIMES[5]| == 8 && IsCubeRoot(PRIMES[5][j], K[5][j])
  {
    assert CubeBits(179, 5, 0xa2bfe8a1);
    assert CubeBits(181, 5, 0xa81a664b);
    assert CubeBits(191, 5, 0xc24b8b70);
    assert CubeBits(193, 5, 0xc76c51a3);
    assert CubeBits(197, 5, 0xd192e819);
    assert CubeBits(199, 5, 0xd6990624);
    assert CubeBits(211, 5, 0xf40e3585);
    assert CubeBits(223, 6, 0x106aa070);
  }

  lemma {:induction false} SeventhRow(j: nat)
    requires j < 8
    ensures |K[6]| == |PRIMES[6]| == 8 && IsCubeRoot(PRIMES[6][j], K[6][j])
  {
    assert CubeBits(227, 6, 0x19a4c116);
    assert CubeBits(229, 6, 0x1e376c08);
    assert CubeBits(233, 6, 0x2748774c);
    assert CubeBits(239, 6, 0x34b0bcb5);
    assert CubeBits(241, 6, 0x391c0cb3);
    assert CubeBits(251, 6, 0x4ed8aa4a);
    assert CubeBits(257, 6, 0x5b9cca4f);
    assert CubeBits(263, 6, 0x682e6ff3);
  }

  lemma {:induction false} EighthRow(j: nat)
    requires j < 8
    ensures |K[7]| == |PRIMES[7]| == 8 && IsCubeRoot(PRIMES[7][j], K[7][j])
  {
    assert CubeBits(269, 6, 0x748f82ee);
    assert CubeBits(271, 6, 0x78a5636f);
    assert CubeBits(277, 6, 0x84c87814);
    assert CubeBits(281, 6, 0x8cc70208);
    assert CubeBits(283, 6, 0x90befffa);
    assert CubeBits(293, 6, 0xa4506ceb);
    assert CubeBits(307, 6, 0xbef9a3f7);
    assert CubeBits(311, 6, 0xc67178f2);
  }

  /** The round constants hold the first 32 bits of the fractional parts of the cube roots of the first sixty-four
      primes. */
  lemma {:induction false} ConstantsAreCubeRoots(t: nat)
    requires t < 64
    ensures |PRIMES[t / 8]| == 8 && IsCubeRoot(PRIMES[t / 8][t % 8], ConstantBits(t))
    ensures Constant(t) == ConstantBits(t) as word
  {
    hide IsCubeRoot, PRIMES, K;
    var i, j := t / 8, t % 8;
    if i == 0 {
      FirstRow(j);
    } else if i == 1 {
      SecondRow(j);
    } else if i == 2 {
      ThirdRow(j);
    } else if i == 3 {
      FourthRow(j);
    } else if i == 4 {
      FifthRow(j);
    } else if i == 5 {
      SixthRow(j);
    } else if i == 6 {
      SeventhRow(j);
    } else {
      EighthRow(j);
    }
  }
}
