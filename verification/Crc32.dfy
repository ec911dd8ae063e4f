// The table-driven CRC-32 of scripts/cfe-partition-tag.py.

module Crc32 {
  // ----- the reference: division by the polynomial, one bit at a time -----

  /** x^32 + x^26 + x^23 + x^22 + x^16 + x^12 + x^11 + x^10 + x^8 + x^7 + x^5 + x^4 + x^2 + x + 1
      without its leading term, the highest power in the highest bit. */
  const POLYNOMIAL: bv32 := 0x04C11DB7

  /** One more message bit enters the remainder. */
  function Divide(r: bv32, bit: bv32): bv32 {
    if ((r >> 31) ^ bit) & 1 == 1 then (r << 1) ^ POLYNOMIAL else r << 1
  }

  /** The bits of a byte without the lowest n. */
  function Later(b: bv8, n: nat): bv32
    requires n <= 8
  {
    (b as bv32) >> n
  }

  /** The remainder after the low n bits of a byte, the lowest first. */
  function DivideBits(r: bv32, b: bv8, n: nat): bv32
    requires n <= 8
  {
    if n == 0 then r else Divide(DivideBits(r, b, n - 1), Later(b, n - 1))
  }

  function Remainder(m: seq<bv8>, r: bv32): bv32 {
    if m == [] then r else DivideBits(Remainder(m[..|m| - 1], r), m[|m| - 1], 8)
  }

  /** The bits in the opposite order. */
  function Reflect(x: bv32): bv32 {
    var a := ((x >> 1) & 0x55555555) | ((x & 0x55555555) << 1);
    var b := ((a >> 2) & 0x33333333) | ((a & 0x33333333) << 2);
    var c := ((b >> 4) & 0x0F0F0F0F) | ((b & 0x0F0F0F0F) << 4);
    var d := ((c >> 8) & 0x00FF00FF) | ((c & 0x00FF00FF) << 8);
    (d >> 16) | (d << 16)
  }

  // ----- the same, reflected -----

  function Bit(x: bv32): bv32 {
    if x & 1 == 1 then (x >> 1) ^ 0xEDB88320 else x >> 1
  }

  function Bits(x: bv32, n: nat): bv32
    decreases n
  {
    if n == 0 then x else Bits(Bit(x), n - 1)
  }

  function Bits8(x: bv32): bv32 {
    Bit(Bit(Bit(Bit(Bit(Bit(Bit(Bit(x))))))))
  }

  lemma ReflectTwice(x: bv32)
    ensures Reflect(Reflect(x)) == x
  {
  }

  lemma ReflectFacts(x: bv32)
    ensures Reflect(x << 1) == Reflect(x) >> 1
    ensures Reflect(x) & 1 == x >> 31
  {
  }

  lemma ReflectOfSum(r: bv32)
    ensures Reflect((r << 1) ^ POLYNOMIAL) == (Reflect(r) >> 1) ^ 0xEDB88320
  {
  }

  lemma LowBit(x: bv32, r: bv32, bit: bv32)
    requires x & 1 == r >> 31
    ensures (x ^ (bit & 1)) & 1 == ((r >> 31) ^ bit) & 1
    ensures (x ^ (bit & 1)) >> 1 == x >> 1
  {
  }

  lemma BitOfSum(x: bv32, r: bv32, bit: bv32)
    requires x & 1 == r >> 31
    ensures ((r >> 31) ^ bit) & 1 == 1 ==> Bit(x ^ (bit & 1)) == (x >> 1) ^ 0xEDB88320
    ensures ((r >> 31) ^ bit) & 1 != 1 ==> Bit(x ^ (bit & 1)) == x >> 1
  {
    LowBit(x, r, bit);
  }

  lemma DivideOdd(r: bv32, bit: bv32)
    requires ((r >> 31) ^ bit) & 1 == 1
    ensures Divide(r, bit) == (r << 1) ^ POLYNOMIAL
  {
  }

  lemma DivideEven(r: bv32, bit: bv32)
    requires ((r >> 31) ^ bit) & 1 != 1
    ensures Divide(r, bit) == r << 1
  {
  }

  lemma BitIsDivide(r: bv32, bit: bv32)
    ensures Bit(Reflect(r) ^ (bit & 1)) == Reflect(Divide(r, bit))
  {
    hide Reflect, Bit, Divide;
    if ((r >> 31) ^ bit) & 1 == 1 {
      BitIsDivideOdd(r, bit);
    } else {
      BitIsDivideEven(r, bit);
    }
  }

  lemma BitIsDivideOdd(r: bv32, bit: bv32)
    requires ((r >> 31) ^ bit) & 1 == 1
    ensures Bit(Reflect(r) ^ (bit & 1)) == Reflect(Divide(r, bit))
  {
    hide Reflect, Bit, Divide;
    ReflectFacts(r);
    BitOfSum(Reflect(r), r, bit);
    DivideOdd(r, bit);
    ReflectOfSum(r);
  }

  lemma BitIsDivideEven(r: bv32, bit: bv32)
    requires ((r >> 31) ^ bit) & 1 != 1
    ensures Bit(Reflect(r) ^ (bit & 1)) == Reflect(Divide(r, bit))
  {
    hide Reflect, Bit, Divide;
    ReflectFacts(r);
    BitOfSum(Reflect(r), r, bit);
    DivideEven(r, bit);
  }

  /** Bits above the lowest pass through a step unchanged. */
  lemma BitDelays(x: bv32, w: bv32)
    ensures Bit(x ^ w) == Bit(x ^ (w & 1)) ^ (w >> 1)
  {
  }

  lemma OddOdd(x: bv32, y: bv32)
    requires x & 1 == 1 && y & 1 == 1
    ensures (x ^ y) & 1 != 1 && (x ^ y) >> 1 == ((x >> 1) ^ 0xEDB88320) ^ ((y >> 1) ^ 0xEDB88320)
  {
  }

  lemma OddEven(x: bv32, y: bv32)
    requires x & 1 == 1 && y & 1 != 1
    ensures (x ^ y) & 1 == 1 && ((x ^ y) >> 1) ^ 0xEDB88320 == ((x >> 1) ^ 0xEDB88320) ^ (y >> 1)
  {
  }

  lemma EvenEven(x: bv32, y: bv32)
    requires x & 1 != 1 && y & 1 != 1
    ensures (x ^ y) & 1 != 1 && (x ^ y) >> 1 == (x >> 1) ^ (y >> 1)
  {
  }

  lemma BitOfOdd(x: bv32)
    requires x & 1 == 1
    ensures Bit(x) == (x >> 1) ^ 0xEDB88320
  {
  }

  lemma BitOfEven(x: bv32)
    requires x & 1 != 1
    ensures Bit(x) == x >> 1
  {
  }

  lemma BitIsLinear(x: bv32, y: bv32)
    ensures Bit(x ^ y) == Bit(x) ^ Bit(y)
  {
    hide Bit;
    if x & 1 == 1 && y & 1 == 1 {
      OddOdd(x, y);
      BitOfOdd(x);
      BitOfOdd(y);
      BitOfEven(x ^ y);
    } else if x & 1 == 1 {
      OddAndEven(x, y);
    } else if y & 1 == 1 {
      OddAndEven(y, x);
    } else {
      EvenEven(x, y);
      BitOfEven(x);
      BitOfEven(y);
      BitOfEven(x ^ y);
    }
  }

  lemma OddAndEven(x: bv32, y: bv32)
    requires x & 1 == 1 && y & 1 != 1
    ensures Bit(x ^ y) == Bit(x) ^ Bit(y)
  {
    hide Bit;
    OddEven(x, y);
    BitOfOdd(x);
    BitOfEven(y);
    BitOfOdd(x ^ y);
  }

  lemma BitIsInjective(x: bv32, y: bv32)
    requires Bit(x) == Bit(y)
    ensures x == y
  {
  }

  // ----- a byte at a time -----

  function Xor(x: bv32, y: bv32): bv32 { x ^ y }

  lemma BitOfXor(x: bv32, y: bv32)
    ensures Bit(Xor(x, y)) == Xor(Bit(x), Bit(y))
  {
    hide Bit;
    BitIsLinear(x, y);
  }

  lemma {:induction false} BitsCompose(x: bv32, n: nat, k: nat)
    ensures Bits(Bits(x, n), k) == Bits(x, n + k)
    decreases n
  {
    hide Bit;
    if n > 0 {
      BitsCompose(Bit(x), n - 1, k);
    }
  }

  lemma {:induction false} BitsIsInjective(x: bv32, y: bv32, n: nat)
    requires Bits(x, n) == Bits(y, n)
    ensures x == y
    decreases n
  {
    hide Bit;
    if n > 0 {
      BitsIsInjective(Bit(x), Bit(y), n - 1);
      BitIsInjective(x, y);
    }
  }

  lemma {:induction false} BitsIsLinear(x: bv32, y: bv32, n: nat)
    ensures Bits(Xor(x, y), n) == Xor(Bits(x, n), Bits(y, n))
    decreases n
  {
    hide Bit, Xor;
    if n > 0 {
      BitsIsLinear(Bit(x), Bit(y), n - 1);
      BitOfXor(x, y);
    }
  }

  lemma EightBits(x: bv32)
    ensures Bits(x, 8) == Bits8(x)
  {
    hide Bit;
    assert Bits(x, 8) == Bits(Bit(Bit(Bit(Bit(x)))), 4);
  }

  /** Without low bits the steps only shift. */
  lemma BitsShift(y: bv32)
    requires y & 0xff == 0
    ensures Bits(y, 8) == y >> 8
  {
    EightBits(y);
  }

  /** Only the low byte goes through the polynomial. */
  lemma LowByte(x: bv32)
    ensures Bits(x, 8) == Xor(x >> 8, Bits(x & 0xff, 8))
  {
    Halves(x);
    BitsShift(x & 0xffffff00);
    hide Xor, Bits;
    BitsIsLinear(x & 0xffffff00, x & 0xff, 8);
  }

  lemma Halves(x: bv32)
    ensures Xor(x & 0xffffff00, x & 0xff) == x
    ensures x & 0xffffff00 & 0xff == 0
    ensures (x & 0xffffff00) >> 8 == x >> 8
  {
  }

  // ----- the table -----

  function Row(h: nat): (r: seq<bv32>)
    requires h < 16
    ensures |r| == 16
  {
    if h == 0 then
      [0x00000000, 0x77073096, 0xEE0E612C, 0x990951BA, 0x076DC419, 0x706AF48F, 0xE963A535, 0x9E6495A3,
       0x0EDB8832, 0x79DCB8A4, 0xE0D5E91E, 0x97D2D988, 0x09B64C2B, 0x7EB17CBD, 0xE7B82D07, 0x90BF1D91]
    else if h == 1 then
      [0x1DB71064, 0x6AB020F2, 0xF3B97148, 0x84BE41DE, 0x1ADAD47D, 0x6DDDE4EB, 0xF4D4B551, 0x83D385C7,
       0x136C9856, 0x646BA8C0, 0xFD62F97A, 0x8A65C9EC, 0x14015C4F, 0x63066CD9, 0xFA0F3D63, 0x8D080DF5]
    else if h == 2 then
      [0x3B6E20C8, 0x4C69105E, 0xD56041E4, 0xA2677172, 0x3C03E4D1, 0x4B04D447, 0xD20D85FD, 0xA50AB56B,
       0x35B5A8FA, 0x42B2986C, 0xDBBBC9D6, 0xACBCF940, 0x32D86CE3, 0x45DF5C75, 0xDCD60DCF, 0xABD13D59]
    else if h == 3 then
      [0x26D930AC, 0x51DE003A, 0xC8D75180, 0xBFD06116, 0x21B4F4B5, 0x56B3C423, 0xCFBA9599, 0xB8BDA50F,
       0x2802B89E, 0x5F058808, 0xC60CD9B2, 0xB10BE924, 0x2F6F7C87, 0x58684C11, 0xC1611DAB, 0xB6662D3D]
    else if h == 4 then
      [0x76DC4190, 0x01DB7106, 0x98D220BC, 0xEFD5102A, 0x71B18589, 0x06B6B51F, 0x9FBFE4A5, 0xE8B8D433,
       0x7807C9A2, 0x0F00F934, 0x9609A88E, 0xE10E9818, 0x7F6A0DBB, 0x086D3D2D, 0x91646C97, 0xE6635C01]
    else if h == 5 then
      [0x6B6B51F4, 0x1C6C6162, 0x856530D8, 0xF262004E, 0x6C0695ED, 0x1B01A57B, 0x8208F4C1, 0xF50FC457,
       0x65B0D9C6, 0x12B7E950, 0x8BBEB8EA, 0xFCB9887C, 0x62DD1DDF, 0x15DA2D49, 0x8CD37CF3, 0xFBD44C65]
    else if h == 6 then
      [0x4DB26158, 0x3AB551CE, 0xA3BC0074, 0xD4BB30E2, 0x4ADFA541, 0x3DD895D7, 0xA4D1C46D, 0xD3D6F4FB,
       0x4369E96A, 0x346ED9FC, 0xAD678846, 0xDA60B8D0, 0x44042D73, 0x33031DE5, 0xAA0A4C5F, 0xDD0D7CC9]
    else if h == 7 then
      [0x5005713C, 0x270241AA, 0xBE0B1010, 0xC90C2086, 0x5768B525, 0x206F85B3, 0xB966D409, 0xCE61E49F,
       0x5EDEF90E, 0x29D9C998, 0xB0D09822, 0xC7D7A8B4, 0x59B33D17, 0x2EB40D81, 0xB7BD5C3B, 0xC0BA6CAD]
    else if h == 8 then
      [0xEDB88320, 0x9ABFB3B6, 0x03B6E20C, 0x74B1D29A, 0xEAD54739, 0x9DD277AF, 0x04DB2615, 0x73DC1683,
       0xE3630B12, 0x94643B84, 0x0D6D6A3E, 0x7A6A5AA8, 0xE40ECF0B, 0x9309FF9D, 0x0A00AE27, 0x7D079EB1]
    else if h == 9 then
      [0xF00F9344, 0x8708A3D2, 0x1E01F268, 0x6906C2FE, 0xF762575D, 0x806567CB, 0x196C3671, 0x6E6B06E7,
       0xFED41B76, 0x89D32BE0, 0x10DA7A5A, 0x67DD4ACC, 0xF9B9DF6F, 0x8EBEEFF9, 0x17B7BE43, 0x60B08ED5]
    else if h == 10 then
      [0xD6D6A3E8, 0xA1D1937E, 0x38D8C2C4, 0x4FDFF252, 0xD1BB67F1, 0xA6BC5767, 0x3FB506DD, 0x48B2364B,
       0xD80D2BDA, 0xAF0A1B4C, 0x36034AF6, 0x41047A60, 0xDF60EFC3, 0xA867DF55, 0x316E8EEF, 0x4669BE79]
    else if h == 11 then
      [0xCB61B38C, 0xBC66831A, 0x256FD2A0, 0x5268E236, 0xCC0C7795, 0xBB0B4703, 0x220216B9, 0x5505262F,
       0xC5BA3BBE, 0xB2BD0B28, 0x2BB45A92, 0x5CB36A04, 0xC2D7FFA7, 0xB5D0CF31, 0x2CD99E8B, 0x5BDEAE1D]
    else if h == 12 then
      [0x9B64C2B0, 0xEC63F226, 0x756AA39C, 0x026D930A, 0x9C0906A9, 0xEB0E363F, 0x72076785, 0x05005713,
       0x95BF4A82, 0xE2B87A14, 0x7BB12BAE, 0x0CB61B38, 0x92D28E9B, 0xE5D5BE0D, 0x7CDCEFB7, 0x0BDBDF21]
    else if h == 13 then
      [0x86D3D2D4, 0xF1D4E242, 0x68DDB3F8, 0x1FDA836E, 0x81BE16CD, 0xF6B9265B, 0x6FB077E1, 0x18B74777,
       0x88085AE6, 0xFF0F6A70, 0x66063BCA, 0x11010B5C, 0x8F659EFF, 0xF862AE69, 0x616BFFD3, 0x166CCF45]
    else if h == 14 then
      [0xA00AE278, 0xD70DD2EE, 0x4E048354, 0x3903B3C2, 0xA7672661, 0xD06016F7, 0x4969474D, 0x3E6E77DB,
       0xAED16A4A, 0xD9D65ADC, 0x40DF0B66, 0x37D83BF0, 0xA9BCAE53, 0xDEBB9EC5, 0x47B2CF7F, 0x30B5FFE9]
    else
      [0xBDBDF21C, 0xCABAC28A, 0x53B39330, 0x24B4A3A6, 0xBAD03605, 0xCDD70693, 0x54DE5729, 0x23D967BF,
       0xB3667A2E, 0xC4614AB8, 0x5D681B02, 0x2A6F2B94, 0xB40BBE37, 0xC30C8EA1, 0x5A05DF1B, 0x2D02EF8D]
  }


  /** CRC32_TABLE. */
  function Table(j: nat): bv32
    requires j < 256
  {
    Row(j / 16)[j % 16]
  }

  /** The row is the first one, shifted by its own first entry. */
  predicate IsShifted(r: seq<bv32>, first: seq<bv32>)
    requires |r| == |first| == 16
  {
    && r[0] == Xor(r[0], first[0]) && r[1] == Xor(r[0], first[1])
    && r[2] == Xor(r[0], first[2]) && r[3] == Xor(r[0], first[3])
    && r[4] == Xor(r[0], first[4]) && r[5] == Xor(r[0], first[5])
    && r[6] == Xor(r[0], first[6]) && r[7] == Xor(r[0], first[7])
    && r[8] == Xor(r[0], first[8]) && r[9] == Xor(r[0], first[9])
    && r[10] == Xor(r[0], first[10]) && r[11] == Xor(r[0], first[11])
    && r[12] == Xor(r[0], first[12]) && r[13] == Xor(r[0], first[13])
    && r[14] == Xor(r[0], first[14]) && r[15] == Xor(r[0], first[15])
  }

  lemma FirstRows()
    ensures IsShifted(Row(0), Row(0)) && IsShifted(Row(1), Row(0))
            && IsShifted(Row(2), Row(0)) && IsShifted(Row(3), Row(0))
  {
  }

  lemma SecondRows()
    ensures IsShifted(Row(4), Row(0)) && IsShifted(Row(5), Row(0))
            && IsShifted(Row(6), Row(0)) && IsShifted(Row(7), Row(0))
  {
  }

  lemma ThirdRows()
    ensures IsShifted(Row(8), Row(0)) && IsShifted(Row(9), Row(0))
            && IsShifted(Row(10), Row(0)) && IsShifted(Row(11), Row(0))
  {
  }

  lemma LastRows()
    ensures IsShifted(Row(12), Row(0)) && IsShifted(Row(13), Row(0))
            && IsShifted(Row(14), Row(0)) && IsShifted(Row(15), Row(0))
  {
  }

  lemma RowIsShifted(h: nat)
    requires h < 16
    ensures IsShifted(Row(h), Row(0))
  {
    FirstRows();
    SecondRows();
    ThirdRows();
    LastRows();
    hide Row, IsShifted;
    assert h in {0, 1, 2, 3, 4, 5, 6, 7, 8, 9, 10, 11, 12, 13, 14, 15};
  }

  lemma ShiftedAt(r: seq<bv32>, first: seq<bv32>, l: nat)
    requires |r| == |first| == 16 && IsShifted(r, first) && l < 16
    ensures r[l] == Xor(r[0], first[l])
  {
    hide Xor;
    assert l in {0, 1, 2, 3, 4, 5, 6, 7, 8, 9, 10, 11, 12, 13, 14, 15};
  }

  lemma FirstOfRow()
    ensures Row(0)[0] == Bits8(0) && Row(0)[1] == Bits8(1) && Row(0)[2] == Bits8(2) && Row(0)[3] == Bits8(3)
  {
  }

  lemma FirstOfColumn()
    ensures Row(0)[0] == Bits8(0) && Row(1)[0] == Bits8(16) && Row(2)[0] == Bits8(32) && Row(3)[0] == Bits8(48)
  {
  }

  lemma SecondOfRow()
    ensures Row(0)[4] == Bits8(4) && Row(0)[5] == Bits8(5) && Row(0)[6] == Bits8(6) && Row(0)[7] == Bits8(7)
  {
  }

  lemma SecondOfColumn()
    ensures Row(4)[0] == Bits8(64) && Row(5)[0] == Bits8(80) && Row(6)[0] == Bits8(96) && Row(7)[0] == Bits8(112)
  {
  }

  lemma ThirdOfRow()
    ensures Row(0)[8] == Bits8(8) && Row(0)[9] == Bits8(9) && Row(0)[10] == Bits8(10) && Row(0)[11] == Bits8(11)
  {
  }

  lemma ThirdOfColumn()
    ensures Row(8)[0] == Bits8(128) && Row(9)[0] == Bits8(144) && Row(10)[0] == Bits8(160) && Row(11)[0] == Bits8(176)
  {
  }

  lemma LastOfRow()
    ensures Row(0)[12] == Bits8(12) && Row(0)[13] == Bits8(13) && Row(0)[14] == Bits8(14) && Row(0)[15] == Bits8(15)
  {
  }

  lemma LastOfColumn()
    ensures Row(12)[0] == Bits8(192) && Row(13)[0] == Bits8(208) && Row(14)[0] == Bits8(224) && Row(15)[0] == Bits8(240)
  {
  }

  lemma RowEntry(n: bv32)
    requires n < 16
    ensures n as nat < 16 && Row(0)[n as nat] == Bits8(n)
  {
    FirstOfRow();
    SecondOfRow();
    ThirdOfRow();
    LastOfRow();
    hide Row, Bits8;
    assert n == 0 || n == 1 || n == 2 || n == 3 || n == 4 || n == 5 || n == 6 || n == 7
        || n == 8 || n == 9 || n == 10 || n == 11 || n == 12 || n == 13 || n == 14 || n == 15;
  }

  lemma ColumnEntry(n: bv32)
    requires n < 16
    ensures n as nat < 16 && Row(n as nat)[0] == Bits8(n << 4)
  {
    FirstOfColumn();
    SecondOfColumn();
    ThirdOfColumn();
    LastOfColumn();
    hide Row, Bits8;
    assert n == 0 || n == 1 || n == 2 || n == 3 || n == 4 || n == 5 || n == 6 || n == 7
        || n == 8 || n == 9 || n == 10 || n == 11 || n == 12 || n == 13 || n == 14 || n == 15;
  }

  lemma Nibbles(x: bv32)
    requires x < 256
    ensures x as nat < 256 && x as nat / 16 == (x >> 4) as nat && x as nat % 16 == (x & 15) as nat
    ensures x >> 4 < 16 && x & 15 < 16 && Xor((x >> 4) << 4, x & 15) == x
  {
  }

  lemma EntryIsXor(h: nat, l: nat)
    requires h < 16 && l < 16
    ensures Table(16 * h + l) == Xor(Row(h)[0], Row(0)[l])
  {
    RowIsShifted(h);
    ShiftedAt(Row(h), Row(0), l);
    hide Row, Xor, IsShifted;
    assert (16 * h + l) / 16 == h && (16 * h + l) % 16 == l;
  }

  /** Every entry of the table is eight steps on its index. */
  lemma TableIsBits(x: bv32)
    requires x < 256
    ensures x as nat < 256 && Table(x as nat) == Bits(x, 8)
  {
    hide Row, Bits, Bits8, Xor, Table;
    Nibbles(x);
    var hi, lo := x >> 4, x & 15;
    RowEntry(lo);
    ColumnEntry(hi);
    EntryIsXor(hi as nat, lo as nat);
    EightBits(lo);
    EightBits(hi << 4);
    BitsIsLinear(hi << 4, lo, 8);
  }

  // ----- the loop -----

  /** The remainder, reflected, after one more byte. */
  function Next(c: bv32, b: bv8): bv32 {
    Bits(Xor(c, b as bv32), 8)
  }

  /** The remainder, reflected, after the bytes of m. */
  function Crc(m: seq<bv8>, c: bv32): bv32 {
    if m == [] then c else Next(Crc(m[..|m| - 1], c), m[|m| - 1])
  }

  lemma LowByteFits(x: bv32)
    ensures x & 0xff < 256 && (x & 0xff) as nat < 256
  {
  }

  function Lookup(x: bv32): bv32 {
    LowByteFits(x);
    Table((x & 0xff) as nat)
  }

  lemma LookupIsBits(x: bv32)
    ensures Lookup(x) == Bits(x & 0xff, 8)
  {
    LowByteFits(x);
    TableIsBits(x & 0xff);
    hide Bits, Table;
  }

  lemma ByteShiftsOut(c: bv32, b: bv8)
    ensures Xor(c, b as bv32) >> 8 == c >> 8
  {
  }

  /** The step with the table is eight single steps. */
  lemma TableStep(c: bv32, b: bv8)
    ensures Xor(c >> 8, Lookup(Xor(c, b as bv32))) == Next(c, b)
  {
    hide Bits, Lookup, Xor;
    var x := Xor(c, b as bv32);
    LookupIsBits(x);
    LowByte(x);
    ByteShiftsOut(c, b);
  }

  method Crc32(bytes: seq<bv8>, size: nat, crc0: bv32) returns (crc: bv32)
    requires size <= |bytes|
    ensures crc == Crc(bytes[..size], crc0)
  {
    hide Bits, Lookup, Xor, Next;
    crc := crc0;
    var i := 0;
    while i < size
      invariant 0 <= i <= size && crc == Crc(bytes[..i], crc0)
    {
      TableStep(crc, bytes[i]);
      assert bytes[..i + 1][..i] == bytes[..i];
      crc := Xor(crc >> 8, Lookup(Xor(crc, bytes[i] as bv32)));
      i := i + 1;
    }
  }

  // ----- what the result means -----

  lemma ByteBit(b: bv8, n: nat)
    requires n < 8
    ensures Later(b, n) >> 1 == Later(b, n + 1)
  {
    assert n in {0, 1, 2, 3, 4, 5, 6, 7};
  }

  lemma XorDelays(x: bv32, w: bv32)
    ensures Bit(Xor(x, w)) == Xor(Bit(Xor(x, w & 1)), w >> 1)
  {
    hide Bit;
    BitDelays(x, w);
  }

  lemma XorDivides(r: bv32, bit: bv32)
    ensures Bit(Xor(Reflect(r), bit & 1)) == Reflect(Divide(r, bit))
  {
    hide Bit, Reflect, Divide;
    BitIsDivide(r, bit);
  }

  lemma BitDivides(d: bv32, w: bv32)
    ensures Bit(Xor(Reflect(d), w)) == Xor(Reflect(Divide(d, w)), w >> 1)
  {
    hide Reflect, Bit, Divide, Xor;
    XorDelays(Reflect(d), w);
    XorDivides(d, w);
  }

  lemma NextBit(r: bv32, b: bv8, n: nat)
    requires 0 < n <= 8
    ensures DivideBits(r, b, n) == Divide(DivideBits(r, b, n - 1), Later(b, n - 1))
  {
    hide Divide, Later;
  }

  lemma OneBit(x: bv32)
    ensures Bits(x, 1) == Bit(x)
  {
    hide Bit;
    assert Bits(Bit(x), 0) == Bit(x);
  }

  lemma ByteIsThere(b: bv8)
    ensures Later(b, 0) == b as bv32 && Later(b, 8) == 0
  {
  }

  /** The bits of the byte that are still to come wait above the register. */
  lemma {:induction false} BitsDivide(r: bv32, b: bv8, n: nat)
    requires n <= 8
    ensures Bits(Xor(Reflect(r), b as bv32), n) == Xor(Reflect(DivideBits(r, b, n)), Later(b, n))
  {
    hide Reflect, Xor, Bit, Divide, Later;
    if n == 0 {
      ByteIsThere(b);
    } else {
      hide Bits, DivideBits;
      NextBit(r, b, n);
      BitsDivide(r, b, n - 1);
      var x, d, w := Xor(Reflect(r), b as bv32), DivideBits(r, b, n - 1), Later(b, n - 1);
      BitsCompose(x, n - 1, 1);
      OneBit(Bits(x, n - 1));
      BitDivides(d, w);
      ByteBit(b, n - 1);
    }
  }

  lemma XorZero(x: bv32)
    ensures Xor(x, 0) == x
  {
  }

  /** The program's checksum is the remainder of the division, with the bits of
      every byte and of the register in reflected order. */
  lemma {:induction false} CrcIsRemainder(m: seq<bv8>, c: bv32)
    ensures Crc(m, c) == Reflect(Remainder(m, Reflect(c)))
  {
    hide Reflect, Bits, Xor, DivideBits, Later;
    if m == [] {
      ReflectTwice(c);
    } else {
      var r, b := Remainder(m[..|m| - 1], Reflect(c)), m[|m| - 1];
      CrcIsRemainder(m[..|m| - 1], c);
      BitsDivide(r, b, 8);
      ByteIsThere(b);
      XorZero(Reflect(DivideBits(r, b, 8)));
    }
  }

  /** Checksums can be continued over a concatenation. */
  lemma {:induction false} CrcConcat(a: seq<bv8>, b: seq<bv8>, c: bv32)
    ensures Crc(a + b, c) == Crc(b, Crc(a, c))
  {
    if b == [] {
      assert a + b == a;
    } else {
      assert (a + b)[..|a + b| - 1] == a + b[..|b| - 1];
      CrcConcat(a, b[..|b| - 1], c);
    }
  }

  lemma XorIsInjective(x: bv32, y: bv32, c: bv32)
    requires Xor(c, x) == Xor(c, y) || Xor(x, c) == Xor(y, c)
    ensures x == y
  {
  }

  /** Different registers stay different. */
  lemma {:induction false} RegisterIsKept(m: seq<bv8>, c: bv32, d: bv32)
    requires Crc(m, c) == Crc(m, d)
    ensures c == d
  {
    hide Bits, Xor;
    if m != [] {
      var a, b := Crc(m[..|m| - 1], c), Crc(m[..|m| - 1], d);
      BitsIsInjective(Xor(a, m[|m| - 1] as bv32), Xor(b, m[|m| - 1] as bv32), 8);
      XorIsInjective(a, b, m[|m| - 1] as bv32);
      RegisterIsKept(m[..|m| - 1], c, d);
    }
  }

  // ----- bursts -----

  /** Up to four bytes as one word, the first byte lowest. */
  function Word(m: seq<bv8>): bv32
    requires |m| <= 4
  {
    if m == [] then 0 else Push(Word(m[1..]), m[0])
  }

  function Push(w: bv32, b: bv8): bv32 { (w << 8) | (b as bv32) }

  lemma WordGrows(w: bv32, b: bv8)
    ensures w == 0 ==> Push(w, b) < 0x100
    ensures w < 0x100 ==> Push(w, b) < 0x1_0000
    ensures w < 0x1_0000 ==> Push(w, b) < 0x100_0000
    ensures w < 0x100_0000 ==> (w << 8) >> 8 == w
  {
  }

  lemma WordCons(m: seq<bv8>)
    requires 0 < |m| <= 4
    ensures Word(m) == Push(Word(m[1..]), m[0])
  {
    hide Push;
  }

  lemma WordNil()
    ensures Word([]) == 0
  {
  }

  lemma {:induction false} WordBound(m: seq<bv8>)
    requires |m| <= 3
    ensures |m| == 0 ==> Word(m) == 0
    ensures |m| <= 1 ==> Word(m) < 0x100
    ensures |m| <= 2 ==> Word(m) < 0x1_0000
    ensures Word(m) < 0x100_0000
  {
    hide Word, Push;
    WordNil();
    if m != [] {
      WordBound(m[1..]);
      WordCons(m);
      WordGrows(Word(m[1..]), m[0]);
    }
  }

  lemma WordFits(m: seq<bv8>)
    requires |m| <= 3
    ensures (Word(m) << 8) >> 8 == Word(m)
  {
    hide Word;
    WordBound(m);
    WordGrows(Word(m), 0);
  }

  lemma Separate(c: bv32, w: bv32, b: bv8)
    ensures Xor(c, Push(w, b)) == Xor(Xor(c, b as bv32), w << 8)
    ensures (w << 8) & 0xff == 0
  {
  }

  /** What waits above the low byte joins the register after eight steps. */
  lemma FirstByteOfWord(c: bv32, w: bv32, b: bv8)
    requires (w << 8) >> 8 == w
    ensures Bits(Xor(c, Push(w, b)), 8) == Xor(Bits(Xor(c, b as bv32), 8), w)
  {
    hide Bits, Xor;
    Separate(c, w, b);
    BitsIsLinear(Xor(c, b as bv32), w << 8, 8);
    BitsShift(w << 8);
  }

  /** Up to four bytes enter the register as one word. */
  lemma {:induction false} CrcOfWord(m: seq<bv8>, c: bv32)
    requires |m| <= 4
    ensures Crc(m, c) == Bits(Xor(c, Word(m)), 8 * |m|)
  {
    hide Bits, Xor;
    if m == [] {
      XorZero(c);
      NoBits(c);
    } else {
      var w := Word(m[1..]);
      CrcConcat([m[0]], m[1..], c);
      assert [m[0]] + m[1..] == m;
      CrcOfWord(m[1..], Crc([m[0]], c));
      WordFits(m[1..]);
      FirstByteOfWord(c, w, m[0]);
      BitsCompose(Xor(c, Word(m)), 8, 8 * |m[1..]|);
      CrcOfByte(m[0], c);
    }
  }

  lemma NoBits(x: bv32)
    ensures Bits(x, 0) == x
  {
  }

  lemma CrcOfByte(b: bv8, c: bv32)
    ensures Crc([b], c) == Bits(Xor(c, b as bv32), 8)
  {
    hide Bits, Xor;
    assert [b][..0] == [];
  }

  lemma TopAndLow(w: bv32, v: bv32, a: bv8, b: bv8)
    requires (w << 8) >> 8 == w && (v << 8) >> 8 == v
    requires Push(w, a) == Push(v, b)
    ensures w == v && a == b
  {
  }

  lemma {:induction false} WordIsInjective(m: seq<bv8>, n: seq<bv8>)
    requires |m| == |n| <= 4 && Word(m) == Word(n)
    ensures m == n
  {
    hide Word, Push;
    if m != [] {
      WordCons(m);
      WordCons(n);
      WordFits(m[1..]);
      WordFits(n[1..]);
      TopAndLow(Word(m[1..]), Word(n[1..]), m[0], n[0]);
      WordIsInjective(m[1..], n[1..]);
      assert m == [m[0]] + m[1..] && n == [n[0]] + n[1..];
    }
  }

  /** Two messages that differ only within four consecutive bytes have different
      checksums, whatever comes before and after. */
  lemma DetectsBursts(before: seq<bv8>, m: seq<bv8>, n: seq<bv8>, after: seq<bv8>, c: bv32)
    requires |m| == |n| <= 4 && m != n
    ensures Crc(before + m + after, c) != Crc(before + n + after, c)
  {
    hide Bits, Xor, Crc, Word;
    if Crc(before + m + after, c) == Crc(before + n + after, c) {
      var d := Crc(before, c);
      CrcConcat(before + m, after, c);
      CrcConcat(before + n, after, c);
      CrcConcat(before, m, c);
      CrcConcat(before, n, c);
      RegisterIsKept(after, Crc(m, d), Crc(n, d));
      CrcOfWord(m, d);
      CrcOfWord(n, d);
      BitsIsInjective(Xor(d, Word(m)), Xor(d, Word(n)), 8 * |m|);
      XorIsInjective(Word(m), Word(n), d);
      WordIsInjective(m, n);
    }
  }

  /** In particular a single wrong byte is noticed. */
  lemma DetectsByte(m: seq<bv8>, i: nat, b: bv8, c: bv32)
    requires i < |m| && m[i] != b
    ensures Crc(m[i := b], c) != Crc(m, c)
  {
    hide Crc;
    assert m == m[..i] + [m[i]] + m[i + 1..];
    assert m[i := b] == m[..i] + [b] + m[i + 1..];
    DetectsBursts(m[..i], [b], [m[i]], m[i + 1..], c);
  }
}
