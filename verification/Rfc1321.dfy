// MD5 as section 3 of RFC 1321 defines it.

module Rfc1321 {
  import opened Words
  import opened Blocks

  // ----- section 3.4 -----

  /** A bit of b where a has 1, and of c where it has 0. */
  function Choice(a: bv32, b: bv32, c: bv32): (r: bv32)
    ensures r & a == b & a && r & !a == c & !a
  {
    (a & b) | (!a & c)
  }

  function F(x: word, y: word, z: word): word {
    Choice(x as bv32, y as bv32, z as bv32) as word
  }

  function G(x: word, y: word, z: word): word {
    Choice(z as bv32, x as bv32, y as bv32) as word
  }

  function H(x: word, y: word, z: word): word {
    (x as bv32 ^ y as bv32 ^ z as bv32) as word
  }

  function I(x: word, y: word, z: word): word {
    var (a, b, c) := (x as bv32, y as bv32, z as bv32);
    (b ^ (a | !c)) as word
  }

  /** The table of sines, counted from 0. */
  function T(i: nat): word
    requires i < 64
  {
    if i < 16 then [[0xd76aa478, 0xe8c7b756, 0x242070db, 0xc1bdceee],
      [0xf57c0faf, 0x4787c62a, 0xa8304613, 0xfd469501],
      [0x698098d8, 0x8b44f7af, 0xffff5bb1, 0x895cd7be],
      [0x6b901122, 0xfd987193, 0xa679438e, 0x49b40821]][i / 4][i % 4]
    else if i < 32 then [[0xf61e2562, 0xc040b340, 0x265e5a51, 0xe9b6c7aa],
      [0xd62f105d, 0x02441453, 0xd8a1e681, 0xe7d3fbc8],
      [0x21e1cde6, 0xc33707d6, 0xf4d50d87, 0x455a14ed],
      [0xa9e3e905, 0xfcefa3f8, 0x676f02d9, 0x8d2a4c8a]][i / 4 - 4][i % 4]
    else if i < 48 then [[0xfffa3942, 0x8771f681, 0x6d9d6122, 0xfde5380c],
      [0xa4beea44, 0x4bdecfa9, 0xf6bb4b60, 0xbebfbc70],
      [0x289b7ec6, 0xeaa127fa, 0xd4ef3085, 0x04881d05],
      [0xd9d4d039, 0xe6db99e5, 0x1fa27cf8, 0xc4ac5665]][i / 4 - 8][i % 4]
    else [[0xf4292244, 0x432aff97, 0xab9423a7, 0xfc93a039],
      [0x655b59c3, 0x8f0ccc92, 0xffeff47d, 0x85845dd1],
      [0x6fa87e4f, 0xfe2ce6e0, 0xa3014314, 0x4e0811a1],
      [0xf7537e82, 0xbd3af235, 0x2ad7d2bb, 0xeb86d391]][i / 4 - 12][i % 4]
  }

  /** The word of the block that step i reads. */
  function K(i: nat): (k: nat)
    requires i < 64
    ensures k < 16
  {
    if i < 16 then i
    else if i < 32 then (5 * i + 1) % 16
    else if i < 48 then (3 * i + 5) % 16
    else 7 * i % 16
  }

  /** The rotation of step i. */
  function S(i: nat): (s: nat)
    requires i < 64
    ensures 0 < s < 32
  {
    if i < 16 then [7, 12, 17, 22][i % 4]
    else if i < 32 then [5, 9, 14, 20][i % 4]
    else if i < 48 then [4, 11, 16, 23][i % 4]
    else [6, 10, 15, 21][i % 4]
  }

  function Auxiliary(i: nat, x: word, y: word, z: word): word {
    if i < 16 then F(x, y, z) else if i < 32 then G(x, y, z) else if i < 48 then H(x, y, z) else I(x, y, z)
  }

  /** Four bytes as a word, the first one lowest. */
  function X(m: Block, k: nat): word
    requires k < 16
  {
    (m[4 * k] as int + m[4 * k + 1] as int * 0x100
     + m[4 * k + 2] as int * 0x1_0000 + m[4 * k + 3] as int * 0x100_0000) as word
  }

  function Rotate(x: word, s: nat): word
    requires s < 32
  {
    (x as bv32).RotateLeft(s) as word
  }

  datatype Regs = Regs(a: word, b: word, c: word, d: word)

  /** Step i computes the first register; then the registers change places. */
  function Step(v: Regs, m: Block, i: nat): Regs
    requires i < 64
  {
    var sum := Plus(Plus(Plus(v.a, Auxiliary(i, v.b, v.c, v.d)), X(m, K(i))), T(i));
    Regs(v.d, Plus(v.b, Rotate(sum, S(i))), v.b, v.c)
  }

  function Steps(v: Regs, m: Block, n: nat): Regs
    requires n <= 64
  {
    if n == 0 then v else Step(Steps(v, m, n - 1), m, n - 1)
  }

  function Compress(v: Regs, m: Block): Regs {
    var w := Steps(v, m, 64);
    Regs(Plus(w.a, v.a), Plus(w.b, v.b), Plus(w.c, v.c), Plus(w.d, v.d))
  }

  // ----- sections 3.1 to 3.3 and 3.5 -----

  const START := Regs(0x67452301, 0xefcdab89, 0x98badcfe, 0x10325476)

  /** A number as n bytes, the low one first. */
  function LittleEndian(x: nat, n: nat): (b: seq<byte>)
    ensures |b| == n
  {
    if n == 0 then [] else [(x % 0x100) as byte] + LittleEndian(x / 0x100, n - 1)
  }

  /** Only the low 64 bits of the length in bits are used. */
  function Padded(m: seq<byte>): (p: seq<byte>)
    ensures |p| % 64 == 0
  {
    PaddedWith(m, LittleEndian(8 * |m| % 0x1_0000_0000_0000_0000, 8))
  }

  function Encode(v: Regs): (d: seq<byte>)
    ensures |d| == 16
  {
    LittleEndian(v.a as nat, 4) + LittleEndian(v.b as nat, 4) +
    LittleEndian(v.c as nat, 4) + LittleEndian(v.d as nat, 4)
  }

  function Digest(m: seq<byte>): (d: seq<byte>)
    ensures |d| == 16
  {
    Encode(Fold(Compress, START, Padded(m)))
  }
}
