// Bytes, 32-bit words, and what the two hash functions of scripts/mkhash.c share:
// folding a compression function over 64-byte blocks, and padding.

module Words {
  newtype byte = x: int | 0 <= x < 0x100

  newtype word = x: int | 0 <= x < 0x1_0000_0000

  /** Addition of words, modulo 2^32. */
  function Plus(a: word, b: word): word {
    ((a as int + b as int) % 0x1_0000_0000) as word
  }

  lemma PlusCommutes(a: word, b: word)
    ensures Plus(a, b) == Plus(b, a)
  {
  }

  lemma PlusAssociates(a: word, b: word, c: word)
    ensures Plus(Plus(a, b), c) == Plus(a, Plus(b, c))
  {
  }

  // ----- division by powers of 256 -----

  lemma Shifts(u: nat)
    ensures u / 0x100 / 0x100 == u / 0x1_0000
    ensures u / 0x1_0000 / 0x100 == u / 0x100_0000
    ensures u / 0x100_0000 / 0x100 == u / 0x1_0000_0000
  {
  }

  lemma DropMultiple(y: nat, x: nat)
    ensures (x + 0x100 * y) % 0x100 == x % 0x100
  {
  }
}

module Blocks {
  import opened Words

  type Block = b: seq<byte> | |b| == 64 witness seq(64, _ => 0)

  /** The chaining value after the blocks of m, the last block applied last. */
  function Fold<S>(f: (S, Block) -> S, s: S, m: seq<byte>): S
    requires |m| % 64 == 0
  {
    if m == [] then s else f(Fold(f, s, m[..|m| - 64]), m[|m| - 64..])
  }

  lemma FoldAppend<S>(f: (S, Block) -> S, s: S, m: seq<byte>, b: Block)
    requires |m| % 64 == 0
    ensures Fold(f, s, m + b) == f(Fold(f, s, m), b)
  {
    assert (m + b)[..|m|] == m && (m + b)[|m|..] == b;
  }

  /** How many bytes of a message of n bytes fill whole blocks. */
  function Whole(n: nat): (w: nat)
    ensures w % 64 == 0 && w <= n < w + 64
  {
    n - n % 64
  }

  function Zeros(n: nat): (z: seq<byte>)
    ensures |z| == n
  {
    seq(n, _ => 0)
  }

  /** The zero bytes between the mark 0x80 and the length: the fewest that make
      the message with mark, zeros and eight length bytes a multiple of 64. */
  function ZeroCount(n: nat): (z: nat)
    ensures z < 64 && (n + 1 + z + 8) % 64 == 0
    ensures forall k: nat {:trigger n + 1 + k + 8} | (n + 1 + k + 8) % 64 == 0 :: z <= k
  {
    (119 - n % 64) % 64
  }

  /** The message followed by the mark, the zeros and the given length field. */
  function PaddedWith(m: seq<byte>, length: seq<byte>): (p: seq<byte>)
    requires |length| == 8
    ensures |p| % 64 == 0
  {
    m + [0x80] + Zeros(ZeroCount(|m|)) + length
  }

  /** A byte as bits, the highest first. */
  function BitsOf(b: byte): seq<bool> {
    var n := b as nat;
    [n / 128 == 1, n / 64 % 2 == 1, n / 32 % 2 == 1, n / 16 % 2 == 1,
     n / 8 % 2 == 1, n / 4 % 2 == 1, n / 2 % 2 == 1, n % 2 == 1]
  }

  function Bits(m: seq<byte>): seq<bool> {
    if m == [] then [] else BitsOf(m[0]) + Bits(m[1..])
  }

  lemma {:induction false} BitsConcat(a: seq<byte>, b: seq<byte>)
    ensures Bits(a + b) == Bits(a) + Bits(b)
  {
    if a == [] {
      assert a + b == b;
    } else {
      assert (a + b)[1..] == a[1..] + b;
      BitsConcat(a[1..], b);
    }
  }

  lemma {:induction false} BitsOfZeros(n: nat)
    ensures Bits(Zeros(n)) == seq(8 * n, _ => false)
  {
    if n > 0 {
      assert Zeros(n)[1..] == Zeros(n - 1);
      BitsOfZeros(n - 1);
    }
  }

  /** In bits, what follows the message is a single 1, then zeros, then the length. */
  lemma PaddedInBits(m: seq<byte>, length: seq<byte>)
    requires |length| == 8
    ensures Bits(PaddedWith(m, length)) == Bits(m) + [true] + seq(7 + 8 * ZeroCount(|m|), _ => false) + Bits(length)
  {
    var z := ZeroCount(|m|);
    BitsOfMark();
    BitsOfZeros(z);
    BitsConcat(m, [0x80]);
    BitsConcat(m + [0x80], Zeros(z));
    BitsConcat(m + [0x80] + Zeros(z), length);
    hide Bits, BitsOf, Zeros, ZeroCount;
    JoinZeros(Bits(m), 8 * z, Bits(length));
  }

  lemma BitsOfMark()
    ensures Bits([0x80]) == [true] + seq(7, _ => false)
  {
    var mark: seq<byte> := [0x80];
    assert mark[1..] == [];
    assert Bits(mark) == BitsOf(0x80) + Bits([]) == BitsOf(0x80);
    assert BitsOf(0x80) == [true, false, false, false, false, false, false, false];
  }

  lemma JoinZeros(a: seq<bool>, n: nat, b: seq<bool>)
    ensures a + ([true] + seq(7, _ => false)) + seq(n, _ => false) + b == a + [true] + seq(7 + n, _ => false) + b
  {
    assert seq(7, _ => false) + seq(n, _ => false) == seq(7 + n, _ => false);
    assert a + ([true] + seq(7, _ => false)) + seq(n, _ => false)
        == a + [true] + (seq(7, _ => false) + seq(n, _ => false));
  }

  function Concat(chunks: seq<seq<byte>>): seq<byte> {
    if chunks == [] then [] else Concat(chunks[..|chunks| - 1]) + chunks[|chunks| - 1]
  }

  /** What a streaming context holds of the message data: the chaining value of
      its whole blocks, and the bytes after them at the start of the buffer. */
  ghost predicate Holds<S>(f: (S, Block) -> S, s: S, v: S, buf: seq<byte>, data: seq<byte>) {
    && |buf| == 64 && v == Fold(f, s, data[..Whole(|data|)])
    && buf[..|data| % 64] == data[Whole(|data|)..]
  }

  /** All of the message is in whole blocks. */
  ghost predicate Folded<S>(f: (S, Block) -> S, s: S, v: S, data: seq<byte>) {
    |data| % 64 == 0 && v == Fold(f, s, data)
  }

  lemma HoldsNothing<S>(f: (S, Block) -> S, s: S, buf: seq<byte>)
    requires |buf| == 64
    ensures Holds(f, s, s, buf, [])
  {
  }

  /** Bytes that do not fill the block only go into the buffer. */
  lemma Keep<S>(f: (S, Block) -> S, s: S, v: S, buf: seq<byte>, buf': seq<byte>, data: seq<byte>, src: seq<byte>)
    requires Holds(f, s, v, buf, data) && |data| % 64 + |src| < 64
    requires |buf'| == 64 && buf'[..|data| % 64 + |src|] == buf[..|data| % 64] + src
    ensures Holds(f, s, v, buf', data + src)
  {
    var d := data + src;
    assert Whole(|d|) == Whole(|data|) && |d| % 64 == |data| % 64 + |src|;
    assert d[..Whole(|data|)] == data[..Whole(|data|)] && d[Whole(|data|)..] == data[Whole(|data|)..] + src;
  }

  /** Bytes that fill the block make it one of the whole blocks. */
  lemma Fill<S>(f: (S, Block) -> S, s: S, v: S, buf: seq<byte>, block: Block, data: seq<byte>, src: seq<byte>)
    requires Holds(f, s, v, buf, data) && |data| % 64 + |src| == 64 && block == buf[..|data| % 64] + src
    ensures Folded(f, s, f(v, block), data + src)
  {
    var w := Whole(|data|);
    assert data + src == data[..w] + block;
    FoldAppend(f, s, data[..w], block);
  }

  lemma MoveOver<T>(a: seq<T>, b: seq<T>, n: nat)
    requires n <= |b|
    ensures a + b[..n] + b[n..] == a + b
  {
  }

  lemma OneMore<S>(f: (S, Block) -> S, s: S, v: S, data: seq<byte>, block: Block)
    requires Folded(f, s, v, data)
    ensures Folded(f, s, f(v, block), data + block)
  {
    FoldAppend(f, s, data, block);
  }

  lemma Rest<S>(f: (S, Block) -> S, s: S, v: S, buf: seq<byte>, data: seq<byte>, src: seq<byte>)
    requires Folded(f, s, v, data) && |src| < 64 && |buf| == 64 && buf[..|src|] == src
    ensures Holds(f, s, v, buf, data + src)
  {
    var d := data + src;
    assert Whole(|d|) == |data| && |d| % 64 == |src|;
    assert d[..|data|] == data && d[|data|..] == src;
  }

  /** Mark, zeros and length fit into the block that is being filled. */
  lemma PadShort<S>(f: (S, Block) -> S, s: S, v: S, buf: seq<byte>, block: Block, data: seq<byte>, length: seq<byte>)
    requires Holds(f, s, v, buf, data) && |data| % 64 < 56 && |length| == 8
    requires block == buf[..|data| % 64] + [0x80] + Zeros(55 - |data| % 64) + length
    ensures f(v, block) == Fold(f, s, PaddedWith(data, length))
  {
    var tail := [0x80] + Zeros(55 - |data| % 64) + length;
    assert block == buf[..|data| % 64] + tail;
    Fill(f, s, v, buf, block, data, tail);
    assert PaddedWith(data, length) == data + tail;
  }

  /** They do not: the zeros run on into a block of their own. */
  lemma PadLong<S>(f: (S,
          Block) -> S, s: S, v: S, buf: seq<byte>, block: Block, last: Block, data: seq<byte>, length: seq<byte>)
    requires Holds(f, s, v, buf, data) && |data| % 64 >= 56 && |length| == 8
    requires block == buf[..|data| % 64] + [0x80] + Zeros(63 - |data| % 64) && last == Zeros(56) + length
    ensures f(f(v, block), last) == Fold(f, s, PaddedWith(data, length))
  {
    var tail := [0x80] + Zeros(63 - |data| % 64);
    assert block == buf[..|data| % 64] + tail;
    Fill(f, s, v, buf, block, data, tail);
    OneMore(f, s, f(v, block), data + tail, last);
    assert Zeros(ZeroCount(|data|)) == Zeros(63 - |data| % 64) + Zeros(56);
    assert PaddedWith(data, length) == data + tail + last;
  }

  lemma HoldsWhole<S>(f: (S, Block) -> S, s: S, v: S, buf: seq<byte>, data: seq<byte>)
    requires Holds(f, s, v, buf, data) && |data| % 64 == 0
    ensures Folded(f, s, v, data)
  {
    assert data[..|data|] == data;
  }

  /** A full buffer is the next block after the whole ones. */
  lemma NextBlock<S>(f: (S, Block) -> S, s: S, v: S, buf: seq<byte>, block: Block, data: seq<byte>, src: seq<byte>)
    requires Holds(f, s, v, buf, data) && |data| % 64 + |src| == 64 && block == buf[..|data| % 64] + src
    ensures Folded(f, s, v, data[..Whole(|data|)]) && data[..Whole(|data|)] + block == data + src
  {
  }

  lemma HoldsParts<S>(f: (S, Block) -> S, s: S, v: S, buf: seq<byte>, data: seq<byte>)
    requires Holds(f, s, v, buf, data)
    ensures Folded(f, s, v, data[..Whole(|data|)]) && buf[..|data| % 64] == data[Whole(|data|)..]
  {
  }

  lemma FoldedIs<S>(f: (S, Block) -> S, s: S, v: S, data: seq<byte>)
    requires Folded(f, s, v, data)
    ensures |data| % 64 == 0 && v == Fold(f, s, data)
  {
  }

  lemma ConcatNothing()
    ensures Concat([]) == []
  {
  }

  lemma ConcatOneMore(chunks: seq<seq<byte>>, i: nat)
    requires i < |chunks|
    ensures Concat(chunks[..i + 1]) == Concat(chunks[..i]) + chunks[i]
  {
    assert chunks[..i + 1][..i] == chunks[..i];
  }
}
