// SHA-256 as sections 4.1.2, 4.2.2, 5.1.1, 5.2.1, 5.3.3 and 6.2.2 of FIPS 180-4
// define it.

module Fips180 {
  import opened Words
  import opened Blocks

  // ----- section 4.1.2, first on bit vectors -----

  /** A bit of b where a has 1, and of c where it has 0. */
  function Choice(a: bv32, b: bv32, c: bv32): (r: bv32)
    ensures r & a == b & a && r & !a == c & !a
  {
    (a & b) ^ (!a & c)
  }

  /** The bits that two of the three have: every bit that a and b share, none that
      neither has, and the same for the other pairs. */
  function Majority(a: bv32, b: bv32, c: bv32): (r: bv32)
    ensures r & (a & b) == a & b && (r | a | b) == a | b
  {
    (a & b) ^ (a & c) ^ (b & c)
  }

  lemma MajorityOfAnyTwo(a: bv32, b: bv32, c: bv32)
    ensures Majority(a, b, c) == Majority(b, c, a) == Majority(c, a, b)
  {
  }

  function Ch(x: word, y: word, z: word): word {
    Choice(x as bv32, y as bv32, z as bv32) as word
  }

  function Maj(x: word, y: word, z: word): word {
    Majority(x as bv32, y as bv32, z as bv32) as word
  }

  function BigSigma0(x: word): word {
    var b := x as bv32;
    (b.RotateRight(2) ^ b.RotateRight(13) ^ b.RotateRight(22)) as word
  }

  function BigSigma1(x: word): word {
    var b := x as bv32;
    (b.RotateRight(6) ^ b.RotateRight(11) ^ b.RotateRight(25)) as word
  }

  function SmallSigma0(x: word): word {
    var b := x as bv32;
    (b.RotateRight(7) ^ b.RotateRight(18) ^ (b >> 3)) as word
  }

  function SmallSigma1(x: word): word {
    var b := x as bv32;
    (b.RotateRight(17) ^ b.RotateRight(19) ^ (b >> 10)) as word
  }

  // ----- section 4.2.2 -----

  /** The round constants. */
  function K(t: nat): word
    requires t < 64
  {
    [ [0x428a2f98, 0x71374491, 0xb5c0fbcf, 0xe9b5dba5, 0x3956c25b, 0x59f111f1, 0x923f82a4, 0xab1c5ed5],
      [0xd807aa98, 0x12835b01, 0x243185be, 0x550c7dc3, 0x72be5d74, 0x80deb1fe, 0x9bdc06a7, 0xc19bf174],
      [0xe49b69c1, 0xefbe4786, 0x0fc19dc6, 0x240ca1cc, 0x2de92c6f, 0x4a7484aa, 0x5cb0a9dc, 0x76f988da],
      [0x983e5152, 0xa831c66d, 0xb00327c8, 0xbf597fc7, 0xc6e00bf3, 0xd5a79147, 0x06ca6351, 0x14292967],
      [0x27b70a85, 0x2e1b2138, 0x4d2c6dfc, 0x53380d13, 0x650a7354, 0x766a0abb, 0x81c2c92e, 0x92722c85],
      [0xa2bfe8a1, 0xa81a664b, 0xc24b8b70, 0xc76c51a3, 0xd192e819, 0xd6990624, 0xf40e3585, 0x106aa070],
      [0x19a4c116, 0x1e376c08, 0x2748774c, 0x34b0bcb5, 0x391c0cb3, 0x4ed8aa4a, 0x5b9cca4f, 0x682e6ff3],
      [0x748f82ee, 0x78a5636f, 0x84c87814, 0x8cc70208, 0x90befffa, 0xa4506ceb, 0xbef9a3f7, 0xc67178f2] ][t / 8][t % 8]
  }

  // ----- sections 5.2.1 and 6.2.2 -----

  /** Four bytes as a word, the first one highest. */
  function Word(b: seq<byte>): word
    requires |b| == 4
  {
    (b[0] as int * 0x100_0000 + b[1] as int * 0x1_0000 + b[2] as int * 0x100 + b[3] as int) as word
  }

  /** The message schedule. */
  function W(m: Block, t: nat): word
    requires t < 64
  {
    if t < 16 then Word(m[4 * t..4 * t + 4])
    else Plus(Plus(Plus(SmallSigma1(W(m, t - 2)), W(m, t - 7)), SmallSigma0(W(m, t - 15))), W(m, t - 16))
  }

  /** The eight working variables, and the eight words of the hash value. */
  datatype Vars = Vars(a: word, b: word, c: word, d: word, e: word, f: word, g: word, h: word)

  function T1(h: word, e: word, f: word, g: word, kt: word, wt: word): word {
    Plus(Plus(Plus(Plus(h, BigSigma1(e)), Ch(e, f, g)), kt), wt)
  }

  function T2(a: word, b: word, c: word): word {
    Plus(BigSigma0(a), Maj(a, b, c))
  }

  function Round(v: Vars, kt: word, wt: word): Vars {
    var t1 := T1(v.h, v.e, v.f, v.g, kt, wt);
    var t2 := T2(v.a, v.b, v.c);
    Vars(Plus(t1, t2), v.a, v.b, v.c, Plus(v.d, t1), v.e, v.f, v.g)
  }

  function Rounds(v: Vars, m: Block, n: nat): Vars
    requires n <= 64
  {
    if n == 0 then v else Round(Rounds(v, m, n - 1), K(n - 1), W(m, n - 1))
  }

  function Add(u: Vars, v: Vars): Vars {
    Vars(Plus(u.a, v.a), Plus(u.b, v.b), Plus(u.c, v.c), Plus(u.d, v.d),
         Plus(u.e, v.e), Plus(u.f, v.f), Plus(u.g, v.g), Plus(u.h, v.h))
  }

  function Compress(v: Vars, m: Block): Vars {
    Add(Rounds(v, m, 64), v)
  }

  // ----- sections 5.1.1 and 5.3.3 -----

  const H0 := Vars(0x6a09e667, 0xbb67ae85, 0x3c6ef372, 0xa54ff53a, 0x510e527f, 0x9b05688c, 0x1f83d9ab, 0x5be0cd19)

  /** A number as n bytes, the high one first. */
  function BigEndian(x: nat, n: nat): (b: seq<byte>)
    ensures |b| == n
  {
    if n == 0 then [] else BigEndian(x / 0x100, n - 1) + [(x % 0x100) as byte]
  }

  /** The number that bytes stand for, the high one first. */
  function Number(b: seq<byte>): nat {
    if b == [] then 0 else Number(b[..|b| - 1]) * 0x100 + b[|b| - 1] as nat
  }

  /** Enough bytes hold the number. */
  lemma {:induction false} NumberOfBytes(x: nat, n: nat)
    requires x < Power256(n)
    ensures Number(BigEndian(x, n)) == x
  {
    if n > 0 {
      var b := BigEndian(x, n);
      assert b[..n - 1] == BigEndian(x / 0x100, n - 1);
      NumberOfBytes(x / 0x100, n - 1);
    }
  }

  lemma {:induction false} BytesOfNumber(b: seq<byte>)
    ensures Number(b) < Power256(|b|) && BigEndian(Number(b), |b|) == b
  {
    if b != [] {
      var front := b[..|b| - 1];
      BytesOfNumber(front);
      assert b == front + [b[|b| - 1]];
    }
  }

  function Power256(n: nat): (p: nat)
    ensures p > 0
  {
    if n == 0 then 1 else 0x100 * Power256(n - 1)
  }

  /** A word is what its four bytes stand for. */
  lemma WordIsNumber(b: seq<byte>)
    requires |b| == 4
    ensures Word(b) as nat == Number(b)
  {
    var c, d, e := b[..3], b[..2], b[..1];
    assert c[..2] == d && d[..1] == e && e[..0] == [];
    assert Number(e) == b[0] as nat;
    assert Number(d) == Number(e) * 0x100 + b[1] as nat;
    assert Number(c) == Number(d) * 0x100 + b[2] as nat;
  }

  /** The message, the mark, zeros and the length in bits as eight bytes. */
  function Padded(m: seq<byte>): (p: seq<byte>)
    requires 8 * |m| < 0x1_0000_0000_0000_0000
    ensures |p| % 64 == 0
  {
    PaddedWith(m, BigEndian(8 * |m|, 8))
  }

  function Encode(v: Vars): (d: seq<byte>)
    ensures |d| == 32
  {
    BigEndian(v.a as nat, 4) + BigEndian(v.b as nat, 4) + BigEndian(v.c as nat, 4) + BigEndian(v.d as nat, 4) +
    BigEndian(v.e as nat, 4) + BigEndian(v.f as nat, 4) + BigEndian(v.g as nat, 4) + BigEndian(v.h as nat, 4)
  }

  /** The digest of a message of fewer than 2^64 bits. */
  function Digest(m: seq<byte>): (d: seq<byte>)
    requires 8 * |m| < 0x1_0000_0000_0000_0000
    ensures |d| == 32
  {
    Encode(Fold(Compress, H0, Padded(m)))
  }

  // ----- where the constants come from -----

  /** The first 64 primes. */
  function Prime(t: nat): nat
    requires t < 64
  {
    [ [2, 3, 5, 7, 11, 13, 17, 19],
      [23, 29, 31, 37, 41, 43, 47, 53],
      [59, 61, 67, 71, 73, 79, 83, 89],
      [97, 101, 103, 107, 109, 113, 127, 131],
      [137, 139, 149, 151, 157, 163, 167, 173],
      [179, 181, 191, 193, 197, 199, 211, 223],
      [227, 229, 233, 239, 241, 251, 257, 263],
      [269, 271, 277, 281, 283, 293, 307, 311] ][t / 8][t % 8]
  }

  /** k is the first 32 bits of the fractional part of the cube root of p, whose
      whole part is w. */
  predicate IsCubeRoot(p: nat, w: nat, k: word) {
    var c := w * 0x1_0000_0000 + k as nat;
    c * c * c <= p * 0x1_0000_0000_0000_0000_0000_0000 < (c + 1) * (c + 1) * (c + 1)
  }

  /** The same for the square root. */
  predicate IsSquareRoot(p: nat, w: nat, k: word) {
    var c := w * 0x1_0000_0000 + k as nat;
    c * c <= p * 0x1_0000_0000_0000_0000 < (c + 1) * (c + 1)
  }

  /** The whole part of the cube root of a prime. */
  function Whole3(t: nat): nat {
    if t < 4 then 1 else if t < 9 then 2 else if t < 18 then 3 else if t < 30 then 4 else if t < 47 then 5 else 6
  }

  /** Section 4.2.2 defines the round constants by the cube roots of the first 64
      primes. */
  lemma RoundConstants(t: nat)
    requires t < 64
    ensures IsCubeRoot(Prime(t), Whole3(t), K(t))
  {
    RoundConstants0();
    RoundConstants1();
    RoundConstants2();
    RoundConstants3();
    RoundConstants4();
    RoundConstants5();
    RoundConstants6();
    RoundConstants7();
    hide IsCubeRoot, Prime, K;
    assert t / 8 in {0, 1, 2, 3, 4, 5, 6, 7} && t % 8 in {0, 1, 2, 3, 4, 5, 6, 7};
  }

  lemma RoundConstants0()
    ensures IsCubeRoot(Prime(0), 1, K(0)) && IsCubeRoot(Prime(1), 1, K(1))
            && IsCubeRoot(Prime(2), 1, K(2)) && IsCubeRoot(Prime(3), 1, K(3))
    ensures IsCubeRoot(Prime(4), 2, K(4)) && IsCubeRoot(Prime(5), 2, K(5))
            && IsCubeRoot(Prime(6), 2, K(6)) && IsCubeRoot(Prime(7), 2, K(7))
  {
  }

  lemma RoundConstants1()
    ensures IsCubeRoot(Prime(8), 2, K(8)) && IsCubeRoot(Prime(9), 3, K(9))
            && IsCubeRoot(Prime(10), 3, K(10)) && IsCubeRoot(Prime(11), 3, K(11))
    ensures IsCubeRoot(Prime(12), 3, K(12)) && IsCubeRoot(Prime(13), 3, K(13))
            && IsCubeRoot(Prime(14), 3, K(14)) && IsCubeRoot(Prime(15), 3, K(15))
  {
  }

  lemma RoundConstants2()
    ensures IsCubeRoot(Prime(16), 3, K(16)) && IsCubeRoot(Prime(17), 3, K(17))
            && IsCubeRoot(Prime(18), 4, K(18)) && IsCubeRoot(Prime(19), 4, K(19))
    ensures IsCubeRoot(Prime(20), 4, K(20)) && IsCubeRoot(Prime(21), 4, K(21))
            && IsCubeRoot(Prime(22), 4, K(22)) && IsCubeRoot(Prime(23), 4, K(23))
  {
  }

  lemma RoundConstants3()
    ensures IsCubeRoot(Prime(24), 4, K(24)) && IsCubeRoot(Prime(25), 4, K(25))
            && IsCubeRoot(Prime(26), 4, K(26)) && IsCubeRoot(Prime(27), 4, K(27))
    ensures IsCubeRoot(Prime(28), 4, K(28)) && IsCubeRoot(Prime(29), 4, K(29))
            && IsCubeRoot(Prime(30), 5, K(30)) && IsCubeRoot(Prime(31), 5, K(31))
  {
  }

  lemma RoundConstants4()
    ensures IsCubeRoot(Prime(32), 5, K(32)) && IsCubeRoot(Prime(33), 5, K(33))
            && IsCubeRoot(Prime(34), 5, K(34)) && IsCubeRoot(Prime(35), 5, K(35))
    ensures IsCubeRoot(Prime(36), 5, K(36)) && IsCubeRoot(Prime(37), 5, K(37))
            && IsCubeRoot(Prime(38), 5, K(38)) && IsCubeRoot(Prime(39), 5, K(39))
  {
  }

  lemma RoundConstants5()
    ensures IsCubeRoot(Prime(40), 5, K(40)) && IsCubeRoot(Prime(41), 5, K(41))
            && IsCubeRoot(Prime(42), 5, K(42)) && IsCubeRoot(Prime(43), 5, K(43))
    ensures IsCubeRoot(Prime(44), 5, K(44)) && IsCubeRoot(Prime(45), 5, K(45))
            && IsCubeRoot(Prime(46), 5, K(46)) && IsCubeRoot(Prime(47), 6, K(47))
  {
  }

  lemma RoundConstants6()
    ensures IsCubeRoot(Prime(48), 6, K(48)) && IsCubeRoot(Prime(49), 6, K(49))
            && IsCubeRoot(Prime(50), 6, K(50)) && IsCubeRoot(Prime(51), 6, K(51))
    ensures IsCubeRoot(Prime(52), 6, K(52)) && IsCubeRoot(Prime(53), 6, K(53))
            && IsCubeRoot(Prime(54), 6, K(54)) && IsCubeRoot(Prime(55), 6, K(55))
  {
  }

  lemma RoundConstants7()
    ensures IsCubeRoot(Prime(56), 6, K(56)) && IsCubeRoot(Prime(57), 6, K(57))
            && IsCubeRoot(Prime(58), 6, K(58)) && IsCubeRoot(Prime(59), 6, K(59))
    ensures IsCubeRoot(Prime(60), 6, K(60)) && IsCubeRoot(Prime(61), 6, K(61))
            && IsCubeRoot(Prime(62), 6, K(62)) && IsCubeRoot(Prime(63), 6, K(63))
  {
  }

  /** Section 5.3.3 defines the initial hash value by square roots. */
  lemma InitialValue()
    ensures IsSquareRoot(Prime(0), 1, H0.a) && IsSquareRoot(Prime(1), 1, H0.b)
            && IsSquareRoot(Prime(2), 2, H0.c) && IsSquareRoot(Prime(3), 2, H0.d)
    ensures IsSquareRoot(Prime(4), 3, H0.e) && IsSquareRoot(Prime(5), 3, H0.f)
            && IsSquareRoot(Prime(6), 4, H0.g) && IsSquareRoot(Prime(7), 4, H0.h)
  {
  }
}
