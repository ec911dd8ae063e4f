// MD5 of scripts/mkhash.c: the optimised functions, the unrolled steps, and the
// context with its split byte counter.

module Md5Macros {
  import opened Words
  import opened Blocks
  import R = Rfc1321

  function F(x: word, y: word, z: word): word {
    var (a, b, c) := (x as bv32, y as bv32, z as bv32);
    (c ^ (a & (b ^ c))) as word
  }

  function G(x: word, y: word, z: word): word {
    var (a, b, c) := (x as bv32, y as bv32, z as bv32);
    (b ^ (c & (a ^ b))) as word
  }

  function H(x: word, y: word, z: word): word {
    ((x as bv32 ^ y as bv32) ^ z as bv32) as word
  }

  function H2(x: word, y: word, z: word): word {
    (x as bv32 ^ (y as bv32 ^ z as bv32)) as word
  }

  function I(x: word, y: word, z: word): word {
    var (a, b, c) := (x as bv32, y as bv32, z as bv32);
    (b ^ (a | !c)) as word
  }

  function Rotl(x: word, s: nat): word
    requires 0 < s < 32
  {
    ((x as bv32 << s) | (x as bv32 >> (32 - s))) as word
  }

  lemma FBits(x: bv32, y: bv32, z: bv32)
    ensures z ^ (x & (y ^ z)) == (x & y) | (!x & z)
  {
  }

  lemma GBits(x: bv32, y: bv32, z: bv32)
    ensures y ^ (z & (x ^ y)) == (x & z) | (y & !z)
  {
  }

  lemma H2Bits(x: bv32, y: bv32, z: bv32)
    ensures x ^ (y ^ z) == x ^ y ^ z
  {
  }

  lemma FAgrees(x: word, y: word, z: word)
    ensures F(x, y, z) == R.F(x, y, z)
  {
    FBits(x as bv32, y as bv32, z as bv32);
  }

  lemma GAgrees(x: word, y: word, z: word)
    ensures G(x, y, z) == R.G(x, y, z)
  {
    GBits(x as bv32, y as bv32, z as bv32);
  }

  lemma HAgrees(x: word, y: word, z: word)
    ensures H(x, y, z) == R.H(x, y, z) && H2(x, y, z) == R.H(x, y, z)
  {
    H2Bits(x as bv32, y as bv32, z as bv32);
  }

  lemma IAgrees(x: word, y: word, z: word)
    ensures I(x, y, z) == R.I(x, y, z)
  {
  }

  lemma RotationBits(b: bv32)
    ensures (b << 4) | (b >> 28) == b.RotateLeft(4)
    ensures (b << 5) | (b >> 27) == b.RotateLeft(5)
    ensures (b << 6) | (b >> 26) == b.RotateLeft(6)
    ensures (b << 7) | (b >> 25) == b.RotateLeft(7)
    ensures (b << 9) | (b >> 23) == b.RotateLeft(9)
    ensures (b << 10) | (b >> 22) == b.RotateLeft(10)
    ensures (b << 11) | (b >> 21) == b.RotateLeft(11)
    ensures (b << 12) | (b >> 20) == b.RotateLeft(12)
    ensures (b << 14) | (b >> 18) == b.RotateLeft(14)
    ensures (b << 15) | (b >> 17) == b.RotateLeft(15)
    ensures (b << 16) | (b >> 16) == b.RotateLeft(16)
    ensures (b << 17) | (b >> 15) == b.RotateLeft(17)
    ensures (b << 20) | (b >> 12) == b.RotateLeft(20)
    ensures (b << 21) | (b >> 11) == b.RotateLeft(21)
    ensures (b << 22) | (b >> 10) == b.RotateLeft(22)
    ensures (b << 23) | (b >> 9) == b.RotateLeft(23)
  {
  }

  lemma RotlAgrees(x: word, s: nat)
    requires s in {4, 5, 6, 7, 9, 10, 11, 12, 14, 15, 16, 17, 20, 21, 22, 23}
    ensures Rotl(x, s) == R.Rotate(x, s)
  {
    RotationBits(x as bv32);
    if s == 4 { assert Rotl(x, 4) == R.Rotate(x, 4); }
    else if s == 5 { assert Rotl(x, 5) == R.Rotate(x, 5); }
    else if s == 6 { assert Rotl(x, 6) == R.Rotate(x, 6); }
    else if s == 7 { assert Rotl(x, 7) == R.Rotate(x, 7); }
    else if s == 9 { assert Rotl(x, 9) == R.Rotate(x, 9); }
    else if s == 10 { assert Rotl(x, 10) == R.Rotate(x, 10); }
    else if s == 11 { assert Rotl(x, 11) == R.Rotate(x, 11); }
    else if s == 12 { assert Rotl(x, 12) == R.Rotate(x, 12); }
    else if s == 14 { assert Rotl(x, 14) == R.Rotate(x, 14); }
    else if s == 15 { assert Rotl(x, 15) == R.Rotate(x, 15); }
    else if s == 16 { assert Rotl(x, 16) == R.Rotate(x, 16); }
    else if s == 17 { assert Rotl(x, 17) == R.Rotate(x, 17); }
    else if s == 20 { assert Rotl(x, 20) == R.Rotate(x, 20); }
    else if s == 21 { assert Rotl(x, 21) == R.Rotate(x, 21); }
    else if s == 22 { assert Rotl(x, 22) == R.Rotate(x, 22); }
    else if s == 23 { assert Rotl(x, 23) == R.Rotate(x, 23); }
  }

  /** What STEP makes of a, given the value of the function. */
  function Stepped(f: word, a: word, b: word, x: word, t: word, s: nat): word
    requires 0 < s < 32
  {
    Plus(Rotl(Plus(a, Plus(Plus(f, x), t)), s), b)
  }

  lemma SteppedAgrees(v: R.Regs, m: Block, i: nat, f: word)
    requires i < 64 && f == R.Auxiliary(i, v.b, v.c, v.d)
    ensures R.Step(v, m, i) == R.Regs(v.d, Stepped(f, v.a, v.b, R.X(m, R.K(i)), R.T(i), R.S(i)), v.b, v.c)
  {
    var x, t, s := R.X(m, R.K(i)), R.T(i), R.S(i);
    RotationsOfSteps(i);
    hide Plus, R.X, R.T, R.K, R.S, R.Auxiliary, Rotl, R.Rotate;
    PlusAssociates(v.a, Plus(f, x), t);
    PlusAssociates(v.a, f, x);
    var sum := Plus(Plus(Plus(v.a, f), x), t);
    RotlAgrees(sum, s);
    PlusCommutes(v.b, R.Rotate(sum, s));
  }

  lemma RotationsOfSteps(i: nat)
    requires i < 64
    ensures R.S(i) in {4, 5, 6, 7, 9, 10, 11, 12, 14, 15, 16, 17, 20, 21, 22, 23}
  {
  }
}

module Md5 {
  import opened Words
  import opened Blocks
  import R = Rfc1321
  import opened Md5Macros

  /** The registers a, b, c and d, in the order of step n, after n steps. */
  ghost predicate At(v: R.Regs, m: Block, n: nat, a: word, b: word, c: word, d: word) {
    n <= 64 && R.Steps(v, m, n) == R.Regs(a, b, c, d)
  }

  /** What the constants of a step have to be. */
  ghost predicate Constants(i: nat, k: nat, t: word, s: nat) {
    i < 64 && k == R.K(i) && t == R.T(i) && s == R.S(i)
  }

  lemma Next(v: R.Regs, m: Block, i: nat, a: word, b: word, c: word, d: word, f: word)
    requires i < 64 && At(v, m, i, a, b, c, d) && f == R.Auxiliary(i, b, c, d)
    ensures At(v, m, i + 1, d, Stepped(f, a, b, R.X(m, R.K(i)), R.T(i), R.S(i)), b, c)
  {
    hide R.T, R.K, R.S, R.X, R.Auxiliary, Stepped, R.Step;
    SteppedAgrees(R.Regs(a, b, c, d), m, i, f);
  }

  method StepF(ghost i: nat, ghost v: R.Regs, m: Block, a: word, b: word, c: word, d: word, k: nat, t: word,
          s: nat) returns (r: word)
    requires 0 <= i < 16 && Constants(i, k, t, s) && At(v, m, i, a, b, c, d)
    ensures At(v, m, i + 1, d, r, b, c)
  {
    r := Stepped(F(b, c, d), a, b, R.X(m, k), t, s);
    FAgrees(b, c, d);
    Next(v, m, i, a, b, c, d, F(b, c, d));
  }

  method StepG(ghost i: nat, ghost v: R.Regs, m: Block, a: word, b: word, c: word, d: word, k: nat, t: word,
          s: nat) returns (r: word)
    requires 16 <= i < 32 && Constants(i, k, t, s) && At(v, m, i, a, b, c, d)
    ensures At(v, m, i + 1, d, r, b, c)
  {
    r := Stepped(G(b, c, d), a, b, R.X(m, k), t, s);
    GAgrees(b, c, d);
    Next(v, m, i, a, b, c, d, G(b, c, d));
  }

  method StepH(ghost i: nat, ghost v: R.Regs, m: Block, a: word, b: word, c: word, d: word, k: nat, t: word,
          s: nat) returns (r: word)
    requires 32 <= i < 48 && Constants(i, k, t, s) && At(v, m, i, a, b, c, d)
    ensures At(v, m, i + 1, d, r, b, c)
  {
    r := Stepped(H(b, c, d), a, b, R.X(m, k), t, s);
    HAgrees(b, c, d);
    Next(v, m, i, a, b, c, d, H(b, c, d));
  }

  method StepH2(ghost i: nat, ghost v: R.Regs, m: Block, a: word, b: word, c: word, d: word, k: nat, t: word,
          s: nat) returns (r: word)
    requires 32 <= i < 48 && Constants(i, k, t, s) && At(v, m, i, a, b, c, d)
    ensures At(v, m, i + 1, d, r, b, c)
  {
    r := Stepped(H2(b, c, d), a, b, R.X(m, k), t, s);
    HAgrees(b, c, d);
    Next(v, m, i, a, b, c, d, H2(b, c, d));
  }

  method StepI(ghost i: nat, ghost v: R.Regs, m: Block, a: word, b: word, c: word, d: word, k: nat, t: word,
          s: nat) returns (r: word)
    requires 48 <= i < 64 && Constants(i, k, t, s) && At(v, m, i, a, b, c, d)
    ensures At(v, m, i + 1, d, r, b, c)
  {
    r := Stepped(I(b, c, d), a, b, R.X(m, k), t, s);
    IAgrees(b, c, d);
    Next(v, m, i, a, b, c, d, I(b, c, d));
  }

  method Round1(m: Block, a0: word, b0: word, c0: word, d0: word, ghost v: R.Regs) returns (a: word, b: word,
          c: word, d: word)
    requires At(v, m, 0, a0, b0, c0, d0)
    ensures At(v, m, 16, a, b, c, d)
  {
    hide At;
    a, b, c, d := a0, b0, c0, d0;
    a := StepF(0, v, m, a, b, c, d, 0, 0xd76aa478, 7);
    d := StepF(1, v, m, d, a, b, c, 1, 0xe8c7b756, 12);
    c := StepF(2, v, m, c, d, a, b, 2, 0x242070db, 17);
    b := StepF(3, v, m, b, c, d, a, 3, 0xc1bdceee, 22);
    a := StepF(4, v, m, a, b, c, d, 4, 0xf57c0faf, 7);
    d := StepF(5, v, m, d, a, b, c, 5, 0x4787c62a, 12);
    c := StepF(6, v, m, c, d, a, b, 6, 0xa8304613, 17);
    b := StepF(7, v, m, b, c, d, a, 7, 0xfd469501, 22);
    a := StepF(8, v, m, a, b, c, d, 8, 0x698098d8, 7);
    d := StepF(9, v, m, d, a, b, c, 9, 0x8b44f7af, 12);
    c := StepF(10, v, m, c, d, a, b, 10, 0xffff5bb1, 17);
    b := StepF(11, v, m, b, c, d, a, 11, 0x895cd7be, 22);
    a := StepF(12, v, m, a, b, c, d, 12, 0x6b901122, 7);
    d := StepF(13, v, m, d, a, b, c, 13, 0xfd987193, 12);
    c := StepF(14, v, m, c, d, a, b, 14, 0xa679438e, 17);
    b := StepF(15, v, m, b, c, d, a, 15, 0x49b40821, 22);
  }

  method Round2(m: Block, a0: word, b0: word, c0: word, d0: word, ghost v: R.Regs) returns (a: word, b: word,
          c: word, d: word)
    requires At(v, m, 16, a0, b0, c0, d0)
    ensures At(v, m, 32, a, b, c, d)
  {
    hide At;
    a, b, c, d := a0, b0, c0, d0;
    a := StepG(16, v, m, a, b, c, d, 1, 0xf61e2562, 5);
    d := StepG(17, v, m, d, a, b, c, 6, 0xc040b340, 9);
    c := StepG(18, v, m, c, d, a, b, 11, 0x265e5a51, 14);
    b := StepG(19, v, m, b, c, d, a, 0, 0xe9b6c7aa, 20);
    a := StepG(20, v, m, a, b, c, d, 5, 0xd62f105d, 5);
    d := StepG(21, v, m, d, a, b, c, 10, 0x02441453, 9);
    c := StepG(22, v, m, c, d, a, b, 15, 0xd8a1e681, 14);
    b := StepG(23, v, m, b, c, d, a, 4, 0xe7d3fbc8, 20);
    a := StepG(24, v, m, a, b, c, d, 9, 0x21e1cde6, 5);
    d := StepG(25, v, m, d, a, b, c, 14, 0xc33707d6, 9);
    c := StepG(26, v, m, c, d, a, b, 3, 0xf4d50d87, 14);
    b := StepG(27, v, m, b, c, d, a, 8, 0x455a14ed, 20);
    a := StepG(28, v, m, a, b, c, d, 13, 0xa9e3e905, 5);
    d := StepG(29, v, m, d, a, b, c, 2, 0xfcefa3f8, 9);
    c := StepG(30, v, m, c, d, a, b, 7, 0x676f02d9, 14);
    b := StepG(31, v, m, b, c, d, a, 12, 0x8d2a4c8a, 20);
  }

  method Round3(m: Block, a0: word, b0: word, c0: word, d0: word, ghost v: R.Regs) returns (a: word, b: word,
          c: word, d: word)
    requires At(v, m, 32, a0, b0, c0, d0)
    ensures At(v, m, 48, a, b, c, d)
  {
    hide At;
    a, b, c, d := a0, b0, c0, d0;
    a := StepH(32, v, m, a, b, c, d, 5, 0xfffa3942, 4);
    d := StepH2(33, v, m, d, a, b, c, 8, 0x8771f681, 11);
    c := StepH(34, v, m, c, d, a, b, 11, 0x6d9d6122, 16);
    b := StepH2(35, v, m, b, c, d, a, 14, 0xfde5380c, 23);
    a := StepH(36, v, m, a, b, c, d, 1, 0xa4beea44, 4);
    d := StepH2(37, v, m, d, a, b, c, 4, 0x4bdecfa9, 11);
    c := StepH(38, v, m, c, d, a, b, 7, 0xf6bb4b60, 16);
    b := StepH2(39, v, m, b, c, d, a, 10, 0xbebfbc70, 23);
    a := StepH(40, v, m, a, b, c, d, 13, 0x289b7ec6, 4);
    d := StepH2(41, v, m, d, a, b, c, 0, 0xeaa127fa, 11);
    c := StepH(42, v, m, c, d, a, b, 3, 0xd4ef3085, 16);
    b := StepH2(43, v, m, b, c, d, a, 6, 0x04881d05, 23);
    a := StepH(44, v, m, a, b, c, d, 9, 0xd9d4d039, 4);
    d := StepH2(45, v, m, d, a, b, c, 12, 0xe6db99e5, 11);
    c := StepH(46, v, m, c, d, a, b, 15, 0x1fa27cf8, 16);
    b := StepH2(47, v, m, b, c, d, a, 2, 0xc4ac5665, 23);
  }

  method Round4(m: Block, a0: word, b0: word, c0: word, d0: word, ghost v: R.Regs) returns (a: word, b: word,
          c: word, d: word)
    requires At(v, m, 48, a0, b0, c0, d0)
    ensures At(v, m, 64, a, b, c, d)
  {
    hide At;
    a, b, c, d := a0, b0, c0, d0;
    a := StepI(48, v, m, a, b, c, d, 0, 0xf4292244, 6);
    d := StepI(49, v, m, d, a, b, c, 7, 0x432aff97, 10);
    c := StepI(50, v, m, c, d, a, b, 14, 0xab9423a7, 15);
    b := StepI(51, v, m, b, c, d, a, 5, 0xfc93a039, 21);
    a := StepI(52, v, m, a, b, c, d, 12, 0x655b59c3, 6);
    d := StepI(53, v, m, d, a, b, c, 3, 0x8f0ccc92, 10);
    c := StepI(54, v, m, c, d, a, b, 10, 0xffeff47d, 15);
    b := StepI(55, v, m, b, c, d, a, 1, 0x85845dd1, 21);
    a := StepI(56, v, m, a, b, c, d, 8, 0x6fa87e4f, 6);
    d := StepI(57, v, m, d, a, b, c, 15, 0xfe2ce6e0, 10);
    c := StepI(58, v, m, c, d, a, b, 6, 0xa3014314, 15);
    b := StepI(59, v, m, b, c, d, a, 13, 0x4e0811a1, 21);
    a := StepI(60, v, m, a, b, c, d, 4, 0xf7537e82, 6);
    d := StepI(61, v, m, d, a, b, c, 11, 0xbd3af235, 10);
    c := StepI(62, v, m, c, d, a, b, 2, 0x2ad7d2bb, 15);
    b := StepI(63, v, m, b, c, d, a, 9, 0xeb86d391, 21);
  }

  /** One block: four rounds, and the sum with the saved registers. */
  method Transform(m: Block, v: R.Regs) returns (w: R.Regs)
    ensures w == R.Compress(v, m)
  {
    hide Plus, R.Step;
    var a, b, c, d := v.a, v.b, v.c, v.d;
    a, b, c, d := Round1(m, a, b, c, d, v);
    a, b, c, d := Round2(m, a, b, c, d, v);
    a, b, c, d := Round3(m, a, b, c, d, v);
    a, b, c, d := Round4(m, a, b, c, d, v);
    w := R.Regs(Plus(a, v.a), Plus(b, v.b), Plus(c, v.c), Plus(d, v.d));
  }

  // ----- the split byte counter -----

  /** lo has 29 bits, hi has 32; together they count bytes modulo 2^61. */
  ghost predicate Counts(lo: nat, hi: nat, n: nat) {
    lo < 0x2000_0000 && hi < 0x1_0000_0000 && lo + 0x2000_0000 * hi == n % 0x2000_0000_0000_0000
  }

  function NewLo(lo: nat, size: nat): nat { (lo + size) % 0x2000_0000 }

  function NewHi(lo: nat, hi: nat, size: nat): nat {
    var carried := if NewLo(lo, size) < lo then (hi + 1) % 0x1_0000_0000 else hi;
    (carried + size / 0x2000_0000) % 0x1_0000_0000
  }

  /** The carry out of lo is noticed by its becoming smaller. */
  lemma Carry(lo: nat, size: nat)
    requires lo < 0x2000_0000
    ensures (lo + size) / 0x2000_0000 == size / 0x2000_0000 + (if NewLo(lo, size) < lo then 1 else 0)
  {
  }

  lemma Split(x: nat)
    ensures x % 0x2000_0000 + 0x2000_0000 * (x / 0x2000_0000 % 0x1_0000_0000) == x % 0x2000_0000_0000_0000
  {
  }

  lemma AddHigh(low: nat, hi: nat)
    ensures (low + 0x2000_0000 * hi) % 0x2000_0000 == low % 0x2000_0000
    ensures (low + 0x2000_0000 * hi) / 0x2000_0000 == hi + low / 0x2000_0000
  {
  }

  lemma HighWraps(hi: nat, carry: nat, k: nat)
    ensures ((hi + carry) % 0x1_0000_0000 + k) % 0x1_0000_0000 == (hi + carry + k) % 0x1_0000_0000
  {
  }

  lemma NewHiIs(lo: nat, hi: nat, size: nat)
    requires lo < 0x2000_0000 && hi < 0x1_0000_0000
    ensures NewHi(lo, hi, size) == (hi + (lo + size) / 0x2000_0000) % 0x1_0000_0000
  {
    Carry(lo, size);
    hide NewLo;
    HighWraps(hi, if NewLo(lo, size) < lo then 1 else 0, size / 0x2000_0000);
  }

  lemma CountsMore(lo: nat, hi: nat, n: nat, size: nat)
    requires Counts(lo, hi, n)
    ensures Counts(NewLo(lo, size), NewHi(lo, hi, size), n + size)
  {
    var x := lo + size + 0x2000_0000 * hi;
    AddHigh(lo + size, hi);
    NewHiIs(lo, hi, size);
    hide NewHi;
    Split(x);
    BytesWrap(lo + 0x2000_0000 * hi, n, size);
  }

  lemma BytesWrap(a: nat, n: nat, size: nat)
    requires a == n % 0x2000_0000_0000_0000
    ensures (a + size) % 0x2000_0000_0000_0000 == (n + size) % 0x2000_0000_0000_0000
  {
  }

  lemma CountsUsed(lo: nat, hi: nat, n: nat)
    requires Counts(lo, hi, n)
    ensures lo % 64 == n % 64
  {
  }

  // ----- the context -----

  class Context {
    var lo: nat
    var hi: nat
    var regs: R.Regs
    const buffer: array<byte>
    /** The message so far. */
    ghost var data: seq<byte>

    ghost predicate Valid()
      reads this, buffer
    {
      buffer.Length == 64 && Counts(lo, hi, |data|) && Holds(R.Compress, R.START, regs, buffer[..], data)
    }

    constructor Begin()
      ensures Valid() && data == [] && fresh(buffer)
    {
      hide R.Compress, Fold;
      buffer := new byte[64];
      regs := R.Regs(0x67452301, 0xefcdab89, 0x98badcfe, 0x10325476);
      lo, hi, data := 0, 0, [];
      new;
      HoldsNothing(R.Compress, R.START, buffer[..]);
    }

    /** Copies bytes into the buffer. */
    method Copy(at: nat, src: seq<byte>)
      requires at + |src| <= buffer.Length
      modifies buffer
      ensures buffer[..] == old(buffer[..at]) + src + old(buffer[at + |src|..])
    {
      forall i | 0 <= i < |src| {
        buffer[at + i] := src[i];
      }
    }

    /** Processes one or more blocks. */
    method Body(src: seq<byte>, ghost d: seq<byte>)
      requires |src| > 0 && |src| % 64 == 0 && Folded(R.Compress, R.START, regs, d)
      modifies this`regs
      ensures Folded(R.Compress, R.START, regs, d + src)
    {
      hide Folded, R.Compress;
      var v, pos := regs, 0;
      assert d + src[..0] == d;
      while true
        invariant 0 <= pos < |src| && pos % 64 == 0
        invariant Folded(R.Compress, R.START, v, d + src[..pos])
        decreases |src| - pos
      {
        OneMore(R.Compress, R.START, v, d + src[..pos], src[pos..pos + 64]);
        assert d + src[..pos] + src[pos..pos + 64] == d + src[..pos + 64];
        v := Transform(src[pos..pos + 64], v);
        pos := pos + 64;
        if pos == |src| {
          break;
        }
      }
      assert src[..pos] == src;
      regs := v;
    }

    /** Adds bytes to the message. */
    method Hash(src: seq<byte>)
      requires Valid() && |src| < 0x1_0000_0000_0000_0000
      modifies this, buffer
      ensures Valid() && data == old(data) + src
    {
      hide Folded, Holds, R.Compress, Counts, NewLo, NewHi;
      var savedLo := lo;
      CountsUsed(lo, hi, |data|);
      CountsMore(lo, hi, |data|, |src|);
      lo := NewLo(savedLo, |src|);
      hi := NewHi(savedLo, hi, |src|);
      ghost var before, b := data, buffer[..];
      data := data + src;
      var used := savedLo % 64;
      var rest := src;
      if used != 0 {
        var available := 64 - used;
        if |src| < available {
          Copy(used, src);
          Keep(R.Compress, R.START, regs, b, buffer[..], before, src);
          return;
        }
        Copy(used, src[..available]);
        rest := src[available..];
        NextBlock(R.Compress, R.START, regs, b, buffer[..], before, src[..available]);
        Body(buffer[..], before[..Whole(|before|)]);
        before := before + src[..available];
        assert before + rest == data;
      } else {
        HoldsWhole(R.Compress, R.START, regs, b, before);
      }
      Finish(rest, before);
    }

    /** The whole blocks that are left, and the copy of the others. */
    method Finish(src: seq<byte>, ghost d: seq<byte>)
      requires buffer.Length == 64 && Folded(R.Compress, R.START, regs, d)
      modifies this`regs, buffer
      ensures Holds(R.Compress, R.START, regs, buffer[..], d + src)
    {
      hide Folded, Holds, R.Compress;
      var rest := src;
      ghost var d' := d;
      if |src| >= 64 {
        var whole := |src| - |src| % 64;
        Body(src[..whole], d);
        rest := src[whole..];
        d' := d + src[..whole];
      }
      assert d' + rest == d + src;
      Copy(0, rest);
      Rest(R.Compress, R.START, regs, buffer[..], d', rest);
    }

    /** Pads, stores the byte count as a bit count, exports the digest and clears
        the context. */
    method End(result: array<byte>)
      requires Valid() && result.Length == 16 && result != buffer
      modifies result, this`lo, this`hi, this`regs, buffer
      ensures result[..] == R.Digest(data)
      ensures lo == hi == 0 && regs == R.Regs(0, 0, 0, 0) && forall i | 0 <= i < 64 :: buffer[i] == 0
    {
      hide Folded, Holds, R.Compress, Fold, Counts, PaddedWith, R.LittleEndian;
      ghost var length := R.LittleEndian(8 * |data| % 0x1_0000_0000_0000_0000, 8);
      PadAndMix(length);
      ghost var v := regs;
      Put(result, 0, regs.a as nat);
      Put(result, 4, regs.b as nat);
      Put(result, 8, regs.c as nat);
      Put(result, 12, regs.d as nat);
      assert result[..] == R.Encode(v);
      lo, hi, regs := 0, 0, R.Regs(0, 0, 0, 0);
      forall i | 0 <= i < 64 {
        buffer[i] := 0;
      }
    }

    method PadAndMix(ghost length: seq<byte>)
      requires Valid() && length == R.LittleEndian(8 * |data| % 0x1_0000_0000_0000_0000, 8)
      modifies this`lo, this`regs, buffer
      ensures regs == Fold(R.Compress, R.START, PaddedWith(data, length))
    {
      hide Folded, Holds, R.Compress, Fold, Counts, PaddedWith, R.LittleEndian;
      ghost var b, d, tail := buffer[..], data[..Whole(|data|)], data[Whole(|data|)..];
      HoldsParts(R.Compress, R.START, regs, b, data);
      CountsUsed(lo, hi, |data|);
      CountsBits(lo, hi, |data|);
      var used := lo % 64;
      buffer[used] := 0x80;
      used := used + 1;
      var available := 64 - used;
      assert buffer[..used] == tail + [0x80];
      if available < 8 {
        Copy(used, Zeros(available));
        assert buffer[..] == tail + [0x80] + Zeros(available);
        Body(buffer[..], d);
        d, tail := d + (tail + [0x80] + Zeros(available)), [];
        used := 0;
        available := 64;
      } else {
        tail := tail + [0x80];
      }
      Copy(used, Zeros(available - 8));
      lo := lo * 8 % 0x1_0000_0000;
      Put(buffer, 56, lo);
      Put(buffer, 60, hi);
      assert buffer[..] == tail + Zeros(available - 8) + length;
      Body(buffer[..], d);
      PaddedParts(data, length, d, tail, available - 8);
      FoldedIs(R.Compress, R.START, regs, PaddedWith(data, length));
    }
  }

  /** The parts that MD5_end puts together are the padded message. */
  lemma PaddedParts(data: seq<byte>, length: seq<byte>, d: seq<byte>, tail: seq<byte>, zeros: nat)
    requires |length| == 8
    requires |data| % 64 < 56 ==>
               d == data[..Whole(|data|)] && tail == data[Whole(|data|)..] + [0x80] && zeros == 55 - |data| % 64
    requires |data| % 64 >= 56 ==>
               && d == data[..Whole(|data|)] + (data[Whole(|data|)..] + [0x80] + Zeros(63 - |data| % 64))
               && tail == [] && zeros == 56
    ensures d + (tail + Zeros(zeros) + length) == PaddedWith(data, length)
  {
    if |data| % 64 < 56 {
      assert zeros == ZeroCount(|data|);
    } else {
      assert Zeros(ZeroCount(|data|)) == Zeros(63 - |data| % 64) + Zeros(56);
    }
  }

  lemma EightTimes(n: nat)
    ensures 8 * n % 0x1_0000_0000_0000_0000 == 8 * (n % 0x2000_0000_0000_0000)
  {
  }

  lemma CountsBits(lo: nat, hi: nat, n: nat)
    requires Counts(lo, hi, n)
    ensures lo < 0x2000_0000 && hi < 0x1_0000_0000
    ensures R.LittleEndian(lo * 8 % 0x1_0000_0000, 4) + R.LittleEndian(hi, 4)
            == R.LittleEndian(8 * n % 0x1_0000_0000_0000_0000, 8)
  {
    EightTimes(n);
    LowAndHigh(lo * 8, hi, 4);
    hide R.LittleEndian;
    assert lo * 8 % 0x1_0000_0000 == lo * 8;
  }

  lemma FourSteps(u: nat, n: nat)
    ensures R.LittleEndian(u, n + 4) ==
            [(u % 0x100) as byte, (u / 0x100 % 0x100) as byte,
             (u / 0x1_0000 % 0x100) as byte, (u / 0x100_0000 % 0x100) as byte]
            + R.LittleEndian(u / 0x1_0000_0000, n)
  {
    ByteByByte(u, n + 4);
    ByteByByte(u / 0x100, n + 3);
    ByteByByte(u / 0x1_0000, n + 2);
    ByteByByte(u / 0x100_0000, n + 1);
    hide R.LittleEndian;
    Shifts(u);
    Prepend((u % 0x100) as byte, (u / 0x100 % 0x100) as byte,
        (u / 0x1_0000 % 0x100) as byte, (u / 0x100_0000 % 0x100) as byte,
        R.LittleEndian(u / 0x1_0000_0000, n));
  }

  lemma Prepend(a: byte, b: byte, c: byte, d: byte, r: seq<byte>)
    ensures [a] + ([b] + ([c] + ([d] + r))) == [a, b, c, d] + r
  {
  }

  /** The low bytes come first. */
  lemma LowAndHigh(x: nat, y: nat, n: nat)
    requires x < 0x1_0000_0000
    ensures R.LittleEndian(x + 0x1_0000_0000 * y, n + 4) == R.LittleEndian(x, 4) + R.LittleEndian(y, n)
  {
    hide R.LittleEndian;
    FourBytes(x);
    FourSteps(x + 0x1_0000_0000 * y, n);
    LowDigits(x, y);
  }

  lemma LowDigits(x: nat, y: nat)
    requires x < 0x1_0000_0000
    ensures (x + 0x1_0000_0000 * y) % 0x100 == x % 0x100
    ensures (x + 0x1_0000_0000 * y) / 0x100 % 0x100 == x / 0x100 % 0x100
    ensures (x + 0x1_0000_0000 * y) / 0x1_0000 % 0x100 == x / 0x1_0000 % 0x100
    ensures (x + 0x1_0000_0000 * y) / 0x100_0000 % 0x100 == x / 0x100_0000
    ensures (x + 0x1_0000_0000 * y) / 0x1_0000_0000 == y
  {
    var u := x + 0x1_0000_0000 * y;
    assert u / 0x100_0000 == x / 0x100_0000 + 0x100 * y;
    assert u / 0x1_0000 == x / 0x1_0000 + 0x1_0000 * y;
    assert u / 0x100 == x / 0x100 + 0x100_0000 * y;
    DropMultiple(0x100_0000 * y, x);
    DropMultiple(0x1_0000 * y, x / 0x100);
    DropMultiple(0x100 * y, x / 0x1_0000);
    DropMultiple(y, x / 0x100_0000);
  }

  lemma ByteByByte(u: nat, n: nat)
    requires 1 <= n
    ensures R.LittleEndian(u, n) == [(u % 0x100) as byte] + R.LittleEndian(u / 0x100, n - 1)
  {
  }

  lemma FourBytes(u: nat)
    requires u < 0x1_0000_0000
    ensures R.LittleEndian(u, 4)
         == [(u % 0x100) as byte, (u / 0x100 % 0x100) as byte, (u / 0x1_0000 % 0x100) as byte, (u / 0x100_0000) as byte]
  {
    ByteByByte(u, 4);
    ByteByByte(u / 0x100, 3);
    ByteByByte(u / 0x1_0000, 2);
    ByteByByte(u / 0x100_0000, 1);
    Shifts(u);
  }

  /** Stores a word, the low byte first. */
  method Put(p: array<byte>, at: nat, u: nat)
    requires at + 4 <= p.Length && u < 0x1_0000_0000
    modifies p
    ensures p[..] == old(p[..at]) + R.LittleEndian(u, 4) + old(p[at + 4..])
  {
    p[at] := (u % 0x100) as byte;
    p[at + 1] := (u / 0x100 % 0x100) as byte;
    p[at + 2] := (u / 0x1_0000 % 0x100) as byte;
    p[at + 3] := (u / 0x100_0000) as byte;
    FourBytes(u);
  }

  /** Hashing a file that is read in chunks: how it is cut does not matter. */
  method HashChunks(chunks: seq<seq<byte>>) returns (digest: array<byte>)
    requires forall c | c in chunks :: |c| < 0x1_0000_0000_0000_0000
    ensures digest.Length == 16 && fresh(digest) && digest[..] == R.Digest(Concat(chunks))
  {
    hide Concat, Holds, Fold, Counts, R.Digest, R.Compress;
    var ctx := new Context.Begin();
    ConcatNothing();
    for i := 0 to |chunks|
      invariant chunks[..0] == [] && ctx.Valid() && fresh(ctx) && fresh(ctx.buffer) && ctx.data == Concat(chunks[..i])
    {
      ConcatOneMore(chunks, i);
      ctx.Hash(chunks[i]);
    }
    assert chunks[..|chunks|] == chunks;
    digest := new byte[16];
    ctx.End(digest);
  }
}
