// SHA-256 of scripts/mkhash.c: the macros, the transformation with its rotating
// state and in-place schedule, and the buffered context.

module Sha256Macros {
  import opened Words
  import F = Fips180

  // ----- the elementary functions as the macros compute them -----

  function Ch(x: word, y: word, z: word): word {
    var (a, b, c) := (x as bv32, y as bv32, z as bv32);
    ((a & (b ^ c)) ^ c) as word
  }

  function Maj(x: word, y: word, z: word): word {
    var (a, b, c) := (x as bv32, y as bv32, z as bv32);
    ((a & (b | c)) | (b & c)) as word
  }

  // ROTR(x, n) is written out for each n.

  function S0(x: word): word {
    var b := x as bv32;
    (((b >> 2) | (b << 30)) ^ ((b >> 13) | (b << 19)) ^ ((b >> 22) | (b << 10))) as word
  }

  function S1(x: word): word {
    var b := x as bv32;
    (((b >> 6) | (b << 26)) ^ ((b >> 11) | (b << 21)) ^ ((b >> 25) | (b << 7))) as word
  }

  function s0(x: word): word {
    var b := x as bv32;
    (((b >> 7) | (b << 25)) ^ ((b >> 18) | (b << 14)) ^ (b >> 3)) as word
  }

  function s1(x: word): word {
    var b := x as bv32;
    (((b >> 17) | (b << 15)) ^ ((b >> 19) | (b << 13)) ^ (b >> 10)) as word
  }

  lemma ChoiceBits(x: bv32, y: bv32, z: bv32)
    ensures (x & (y ^ z)) ^ z == (x & y) ^ (!x & z)
  {
  }

  lemma MajorityBits(x: bv32, y: bv32, z: bv32)
    ensures (x & (y | z)) | (y & z) == (x & y) ^ (x & z) ^ (y & z)
  {
  }

  lemma BigSigma0Bits(b: bv32)
    ensures ((b >> 2) | (b << 30)) ^ ((b >> 13) | (b << 19)) ^ ((b >> 22) | (b << 10))
            == b.RotateRight(2) ^ b.RotateRight(13) ^ b.RotateRight(22)
  {
  }

  lemma BigSigma1Bits(b: bv32)
    ensures ((b >> 6) | (b << 26)) ^ ((b >> 11) | (b << 21)) ^ ((b >> 25) | (b << 7))
            == b.RotateRight(6) ^ b.RotateRight(11) ^ b.RotateRight(25)
  {
  }

  lemma SmallSigma0Bits(b: bv32)
    ensures ((b >> 7) | (b << 25)) ^ ((b >> 18) | (b << 14)) ^ (b >> 3)
            == b.RotateRight(7) ^ b.RotateRight(18) ^ (b >> 3)
  {
  }

  lemma SmallSigma1Bits(b: bv32)
    ensures ((b >> 17) | (b << 15)) ^ ((b >> 19) | (b << 13)) ^ (b >> 10)
            == b.RotateRight(17) ^ b.RotateRight(19) ^ (b >> 10)
  {
  }

  lemma ChoiceAgrees(x: word, y: word, z: word)
    ensures Ch(x, y, z) == F.Ch(x, y, z)
  {
    ChoiceBits(x as bv32, y as bv32, z as bv32);
  }

  lemma MajorityAgrees(x: word, y: word, z: word)
    ensures Maj(x, y, z) == F.Maj(x, y, z)
  {
    MajorityBits(x as bv32, y as bv32, z as bv32);
  }

  lemma BigSigma0Agrees(x: word)
    ensures S0(x) == F.BigSigma0(x)
  {
    BigSigma0Bits(x as bv32);
  }

  lemma BigSigma1Agrees(x: word)
    ensures S1(x) == F.BigSigma1(x)
  {
    BigSigma1Bits(x as bv32);
  }

  lemma SmallSigma0Agrees(x: word)
    ensures s0(x) == F.SmallSigma0(x)
  {
    SmallSigma0Bits(x as bv32);
  }

  lemma SmallSigma1Agrees(x: word)
    ensures s1(x) == F.SmallSigma1(x)
  {
    SmallSigma1Bits(x as bv32);
  }

  /** What RND makes of h first, and what it makes of h last. */
  function First(h: word, e: word, f: word, g: word, k: word): word {
    Plus(h, Plus(Plus(S1(e), Ch(e, f, g)), k))
  }

  function Last(h: word, a: word, b: word, c: word): word {
    Plus(h, Plus(S0(a), Maj(a, b, c)))
  }

  lemma Regroup(h: word, s: word, c: word, k: word, w: word)
    ensures Plus(h, Plus(Plus(s, c), Plus(w, k))) == Plus(Plus(Plus(Plus(h, s), c), k), w)
  {
    hide Plus;
    PlusCommutes(w, k);
    PlusAssociates(h, Plus(s, c), Plus(k, w));
    PlusAssociates(h, s, c);
    PlusAssociates(Plus(Plus(h, s), c), k, w);
  }

  lemma FirstAgrees(h: word, e: word, f: word, g: word, kt: word, wt: word)
    ensures First(h, e, f, g, Plus(wt, kt)) == F.T1(h, e, f, g, kt, wt)
  {
    hide Plus, S1, Ch, F.BigSigma1, F.Ch;
    BigSigma1Agrees(e);
    ChoiceAgrees(e, f, g);
    Regroup(h, S1(e), Ch(e, f, g), kt, wt);
  }

  lemma LastAgrees(h: word, a: word, b: word, c: word)
    ensures Last(h, a, b, c) == Plus(h, F.T2(a, b, c))
  {
    hide Plus, S0, Maj, F.BigSigma0, F.Maj;
    BigSigma0Agrees(a);
    MajorityAgrees(a, b, c);
  }

  /** The three assignments of RND are the round in FIPS 180-4. */
  lemma RoundAgrees(v: F.Vars, kt: word, wt: word)
    ensures var t1 := First(v.h, v.e, v.f, v.g, Plus(wt, kt));
            F.Round(v, kt, wt) == F.Vars(Last(t1, v.a, v.b, v.c), v.a, v.b, v.c, Plus(v.d, t1), v.e, v.f, v.g)
  {
    hide Plus, First, Last, F.T1, F.T2;
    FirstAgrees(v.h, v.e, v.f, v.g, kt, wt);
    LastAgrees(First(v.h, v.e, v.f, v.g, Plus(wt, kt)), v.a, v.b, v.c);
  }
}

module Sha256 {
  import opened Words
  import opened Blocks
  import F = Fips180
  import opened Sha256Macros

  // ----- the rotating state -----

  /** Where round i keeps its working variable j: 0 for a up to 7 for h. */
  function Slot(i: nat, j: nat): (k: nat)
    requires i <= 16
    ensures k < 8
  {
    (64 - i + j) % 8
  }

  /** Going to the next round renames the slots instead of moving the words. */
  lemma SlotsRotate(i: nat)
    requires i < 16
    ensures Slot(i + 1, 0) == Slot(i, 7) && Slot(i + 1, 1) == Slot(i, 0)
            && Slot(i + 1, 2) == Slot(i, 1) && Slot(i + 1, 3) == Slot(i, 2)
    ensures Slot(i + 1, 4) == Slot(i, 3) && Slot(i + 1, 5) == Slot(i, 4)
            && Slot(i + 1, 6) == Slot(i, 5) && Slot(i + 1, 7) == Slot(i, 6)
  {
  }

  lemma SlotsDiffer(i: nat, j: nat, l: nat)
    requires i <= 16 && j < l < 8
    ensures Slot(i, j) != Slot(i, l)
  {
  }

  /** The working variables of round i. */
  function View(s: seq<word>, i: nat): F.Vars
    requires |s| == 8 && i <= 16
  {
    F.Vars(s[Slot(i, 0)], s[Slot(i, 1)], s[Slot(i, 2)], s[Slot(i, 3)],
        s[Slot(i, 4)], s[Slot(i, 5)], s[Slot(i, 6)], s[Slot(i, 7)])
  }

  lemma ViewHas(s: seq<word>, i: nat)
    requires |s| == 8 && i <= 16
    ensures var v := View(s, i);
            v.a == s[Slot(i, 0)] && v.b == s[Slot(i, 1)] && v.c == s[Slot(i, 2)] && v.d == s[Slot(i, 3)]
    ensures var v := View(s, i);
            v.e == s[Slot(i, 4)] && v.f == s[Slot(i, 5)] && v.g == s[Slot(i, 6)] && v.h == s[Slot(i, 7)]
  {
    hide Slot;
  }

  lemma SlotsOf(i: nat)
    requires i <= 16
    ensures forall j: nat | j < 7 :: Slot(i, j) != Slot(i, 7)
    ensures forall j: nat | j < 3 :: Slot(i, j) != Slot(i, 3)
  {
    forall j: nat, l: nat | j < l < 8 ensures Slot(i, j) != Slot(i, l) {
      SlotsDiffer(i, j, l);
    }
    hide Slot;
  }

  /** Writing the slots of h and d and then renaming is the shift of a round. */
  lemma ViewRotates(s: seq<word>, i: nat, x: word, y: word)
    requires |s| == 8 && i < 16
    ensures var v := View(s, i);
            View(s[Slot(i, 7) := x][Slot(i, 3) := y], i + 1) == F.Vars(x, v.a, v.b, v.c, y, v.e, v.f, v.g)
  {
    SlotsRotate(i);
    forall j: nat, l: nat | j < l < 8 ensures Slot(i, j) != Slot(i, l) {
      SlotsDiffer(i, j, l);
    }
    hide Slot;
  }

  /** One round on the rotating state: two words change, the others are renamed. */
  method Rndr(S: array<word>, w: array<word>, i: nat, ii: nat)
    requires S.Length == 8 && w.Length == 64 && i < 16 && i + ii < 64
    modifies S
    ensures View(S[..], i + 1) == F.Round(old(View(S[..], i)), F.K(i + ii), w[i + ii])
  {
    hide F.K, F.Round, Plus, Slot, First, Last, View;
    ghost var s := S[..];
    var k := Plus(w[i + ii], F.K(i + ii));
    RoundAgrees(View(s, i), F.K(i + ii), w[i + ii]);
    SlotsOf(i);
    var d, h := Slot(i, 3), Slot(i, 7);
    ViewHas(s, i);
    S[h] := First(S[h], S[Slot(i, 4)], S[Slot(i, 5)], S[Slot(i, 6)], k);
    S[d] := Plus(S[d], S[h]);
    S[h] := Last(S[h], S[Slot(i, 0)], S[Slot(i, 1)], S[Slot(i, 2)]);
    ViewRotates(s, i, S[h], S[d]);
    assert S[..] == s[h := S[h]][d := S[d]];
  }

  // ----- the schedule and the transformation -----

  /** The first n words of the array are the message schedule. */
  ghost predicate Scheduled(w: seq<word>, m: Block, n: nat) {
    |w| == 64 && n <= 64 && forall t | 0 <= t < n :: w[t] == F.W(m, t)
  }

  method Msch(w: array<word>, ii: nat, i: nat, ghost m: Block)
    requires i + ii + 16 < 64 && Scheduled(w[..], m, i + ii + 16)
    modifies w
    ensures Scheduled(w[..], m, i + ii + 17)
  {
    hide Plus, s0, s1;
    var t := i + ii + 16;
    SmallSigma1Agrees(w[t - 2]);
    SmallSigma0Agrees(w[t - 15]);
    w[t] := Plus(Plus(Plus(s1(w[i + ii + 14]), w[i + ii + 9]), s0(w[i + ii + 1])), w[i + ii]);
    ScheduleStep(m, t);
  }

  lemma ScheduleStep(m: Block, t: nat)
    requires 16 <= t < 64
    ensures F.W(m, t)
         == Plus(Plus(Plus(F.SmallSigma1(F.W(m, t - 2)), F.W(m, t - 7)), F.SmallSigma0(F.W(m, t - 15))), F.W(m, t - 16))
  {
  }

  /** The working variables are those after n rounds. */
  ghost predicate After(s: seq<word>, i: nat, v: F.Vars, m: Block, n: nat) {
    |s| == 8 && i <= 16 && n <= 64 && View(s, i) == F.Rounds(v, m, n)
  }

  method Step(S: array<word>, w: array<word>, i: nat, ii: nat, ghost v: F.Vars, ghost m: Block)
    requires i < 16 && ii + 16 <= 64 && After(S[..], i, v, m, ii + i) && Scheduled(w[..], m, ii + 16) && w != S
    modifies S
    ensures After(S[..], i + 1, v, m, ii + i + 1)
  {
    hide View, F.K, F.Round;
    Rndr(S, w, i, ii);
  }

  /** Sixteen rounds bring every working variable back to its slot. */
  method Mix(S: array<word>, w: array<word>, ii: nat, ghost v: F.Vars, ghost m: Block)
    requires ii + 16 <= 64 && After(S[..], 0, v, m, ii) && Scheduled(w[..], m, ii + 16) && w != S
    modifies S
    ensures After(S[..], 0, v, m, ii + 16)
  {
    hide After, Scheduled;
    Step(S, w, 0, ii, v, m);
    Step(S, w, 1, ii, v, m);
    Step(S, w, 2, ii, v, m);
    Step(S, w, 3, ii, v, m);
    Step(S, w, 4, ii, v, m);
    Step(S, w, 5, ii, v, m);
    Step(S, w, 6, ii, v, m);
    Step(S, w, 7, ii, v, m);
    Step(S, w, 8, ii, v, m);
    Step(S, w, 9, ii, v, m);
    Step(S, w, 10, ii, v, m);
    Step(S, w, 11, ii, v, m);
    Step(S, w, 12, ii, v, m);
    Step(S, w, 13, ii, v, m);
    Step(S, w, 14, ii, v, m);
    Step(S, w, 15, ii, v, m);
    FullTurn(S[..], v, m, ii + 16);
  }

  lemma FullTurn(s: seq<word>, v: F.Vars, m: Block, n: nat)
    requires After(s, 16, v, m, n)
    ensures After(s, 0, v, m, n)
  {
  }

  /** Sixteen more words of the schedule. */
  method Extend(w: array<word>, ii: nat, ghost m: Block)
    requires ii + 32 <= 64 && Scheduled(w[..], m, ii + 16)
    modifies w
    ensures Scheduled(w[..], m, ii + 32)
  {
    hide Scheduled;
    Msch(w, ii, 0, m);
    Msch(w, ii, 1, m);
    Msch(w, ii, 2, m);
    Msch(w, ii, 3, m);
    Msch(w, ii, 4, m);
    Msch(w, ii, 5, m);
    Msch(w, ii, 6, m);
    Msch(w, ii, 7, m);
    Msch(w, ii, 8, m);
    Msch(w, ii, 9, m);
    Msch(w, ii, 10, m);
    Msch(w, ii, 11, m);
    Msch(w, ii, 12, m);
    Msch(w, ii, 13, m);
    Msch(w, ii, 14, m);
    Msch(w, ii, 15, m);
  }

  function Be16dec(b: seq<byte>): (h: nat)
    requires |b| == 2
    ensures h < 0x1_0000
  {
    b[0] as nat * 0x100 + b[1] as nat
  }

  function Be32dec(b: seq<byte>): (w: word)
    requires |b| == 4
    ensures w == F.Word(b)
  {
    (Be16dec(b[..2]) * 0x1_0000 + Be16dec(b[2..])) as word
  }

  method Be32decVect(dst: array<word>, src: Block)
    requires dst.Length == 64
    modifies dst
    ensures Scheduled(dst[..], src, 16)
  {
    hide Be32dec, F.Word;
    for i := 0 to 16
      invariant Scheduled(dst[..], src, i)
    {
      dst[i] := Be32dec(src[4 * i..4 * i + 4]);
    }
  }

  function VarsOf(s: seq<word>): F.Vars
    requires |s| == 8
  {
    F.Vars(s[0], s[1], s[2], s[3], s[4], s[5], s[6], s[7])
  }

  /** The loop that mixes sixteen rounds at a time and extends the schedule in between. */
  method MixAll(S: array<word>, w: array<word>, ghost v: F.Vars, ghost m: Block)
    requires After(S[..], 0, v, m, 0) && Scheduled(w[..], m, 16) && w != S
    modifies S, w
    ensures After(S[..], 0, v, m, 64)
  {
    hide After, Scheduled;
    var i := 0;
    while i < 64
      invariant 0 <= i <= 64 && i % 16 == 0 && After(S[..], 0, v, m, i)
      invariant i < 64 ==> Scheduled(w[..], m, i + 16)
    {
      Mix(S, w, i, v, m);
      if i == 48 {
        break;
      }
      Extend(w, i, m);
      i := i + 16;
    }
  }

  lemma StartOfRounds(s: seq<word>, m: Block)
    requires |s| == 8
    ensures After(s, 0, VarsOf(s), m, 0)
  {
  }

  lemma EndOfRounds(before: seq<word>, s: seq<word>, after: seq<word>, m: Block)
    requires |before| == |after| == 8 && After(s, 0, VarsOf(before), m, 64)
    requires forall j | 0 <= j < 8 :: after[j] == Plus(before[j], s[j])
    ensures VarsOf(after) == F.Compress(VarsOf(before), m)
  {
    hide Plus, F.Rounds;
    assert View(s, 0) == VarsOf(s);
    forall j | 0 <= j < 8 ensures after[j] == Plus(s[j], before[j]) {
      PlusCommutes(before[j], s[j]);
    }
  }

  /** The compression function: schedule, rounds, and the sum with the old state. */
  method Transform(state: array<word>, block: Block)
    requires state.Length == 8
    modifies state
    ensures VarsOf(state[..]) == F.Compress(old(VarsOf(state[..])), block)
  {
    hide Scheduled, After, F.W, Plus, VarsOf, F.Compress;
    var w := new word[64];
    var S := new word[8];
    ghost var s := state[..];
    Be32decVect(w, block);
    ghost var ws := w[..];
    for j := 0 to 8
      invariant S[..j] == s[..j] && w[..] == ws && state[..] == s
    {
      S[j] := state[j];
    }
    assert S[..] == S[..8] == s[..8] == s;
    StartOfRounds(s, block);
    MixAll(S, w, VarsOf(s), block);
    ghost var mixed := S[..];
    var i := 0;
    while i < 8
      invariant 0 <= i <= 8 && S[..] == mixed
      invariant forall j | 0 <= j < 8 :: state[j] == if j < i then Plus(s[j], mixed[j]) else s[j]
    {
      state[i] := Plus(state[i], S[i]);
      i := i + 1;
    }
    EndOfRounds(s, mixed, state[..], block);
  }

  // ----- the buffered context -----

  /** The bits of n bytes in a 64-bit counter. */
  function BitCount(n: nat): nat { 8 * n % 0x1_0000_0000_0000_0000 }

  /** The counter after len more bytes. */
  function AddBits(count: nat, len: nat): nat {
    var bitlen := len * 8 % 0x1_0000_0000_0000_0000;
    (count + bitlen) % 0x1_0000_0000_0000_0000
  }

  /** The bytes left in the buffer. */
  function Used(count: nat): (r: nat)
    ensures r < 64
  {
    count / 8 % 64
  }

  lemma CountNothing()
    ensures BitCount(0) == 0
  {
  }

  lemma UsedBytes(n: nat)
    ensures Used(BitCount(n)) == n % 64
  {
  }

  lemma CountBits(n: nat, more: nat)
    ensures AddBits(BitCount(n), more) == BitCount(n + more)
  {
  }

  class Context {
    const state: array<word>
    /** Bits processed so far, modulo 2^64. */
    var count: nat
    const buf: array<byte>
    /** The message so far. */
    ghost var data: seq<byte>

    ghost predicate Valid()
      reads this, state, buf
    {
      && state.Length == 8 && buf.Length == 64 && count == BitCount(|data|)
      && Holds(F.Compress, F.H0, VarsOf(state[..]), buf[..], data)
    }

    constructor Init()
      ensures Valid() && data == [] && fresh(state) && fresh(buf)
    {
      state := new word[8];
      buf := new byte[64];
      count, data := 0, [];
      new;
      hide Holds, F.Compress, Fold, BitCount;
      state[0], state[1], state[2], state[3] := 0x6A09E667, 0xBB67AE85, 0x3C6EF372, 0xA54FF53A;
      state[4], state[5], state[6], state[7] := 0x510E527F, 0x9B05688C, 0x1F83D9AB, 0x5BE0CD19;
      CountNothing();
      assert VarsOf(state[..]) == F.H0;
      HoldsNothing(F.Compress, F.H0, buf[..]);
    }

    /** Copies bytes into the buffer. */
    method Copy(at: nat, src: seq<byte>)
      requires at + |src| <= buf.Length
      modifies buf
      ensures buf[..] == old(buf[..at]) + src + old(buf[at + |src|..])
    {
      forall i | 0 <= i < |src| {
        buf[at + i] := src[i];
      }
    }

    /** Adds bytes to the message. */
    method Update(src: seq<byte>)
      requires Valid() && |src| < 0x1_0000_0000_0000_0000
      modifies this`count, this`data, state, buf
      ensures Valid() && data == old(data) + src
    {
      hide Holds, Folded, VarsOf, F.Compress, Fold, BitCount, AddBits, Used;
      ghost var before := data;
      var r := Used(count);
      UsedBytes(|data|);
      CountBits(|data|, |src|);
      count := AddBits(count, |src|);
      data := data + src;
      if |src| < 64 - r {
        ghost var b := buf[..];
        Copy(r, src);
        Keep(F.Compress, F.H0, VarsOf(state[..]), b, buf[..], before, src);
        return;
      }
      ghost var b := buf[..];
      Copy(r, src[..64 - r]);
      Fill(F.Compress, F.H0, VarsOf(state[..]), b, buf[..], before, src[..64 - r]);
      Transform(state, buf[..]);
      Complete(src[64 - r..], before + src[..64 - r]);
      assert before + src[..64 - r] + src[64 - r..] == before + src;
    }

    /** Performs the complete blocks of src, and buffers what is left over. */
    method Complete(src: seq<byte>, ghost d: seq<byte>)
      requires state.Length == 8 && buf.Length == 64 && Folded(F.Compress, F.H0, VarsOf(state[..]), d)
      modifies state, buf
      ensures Holds(F.Compress, F.H0, VarsOf(state[..]), buf[..], d + src)
    {
      hide Holds, Folded, VarsOf, F.Compress, Fold;
      var rest := src;
      ghost var done := d;
      while |rest| >= 64
        invariant Folded(F.Compress, F.H0, VarsOf(state[..]), done) && done + rest == d + src
        decreases |rest|
      {
        OneMore(F.Compress, F.H0, VarsOf(state[..]), done, rest[..64]);
        MoveOver(done, rest, 64);
        Transform(state, rest[..64]);
        done, rest := done + rest[..64], rest[64..];
      }
      Copy(0, rest);
      Rest(F.Compress, F.H0, VarsOf(state[..]), buf[..], done, rest);
    }

    /** Adds the padding and the bit count, and mixes them in. */
    method Pad()
      requires Valid()
      modifies state, buf
      ensures VarsOf(state[..]) == Fold(F.Compress, F.H0, PaddedWith(data, F.BigEndian(count, 8)))
    {
      hide Holds, VarsOf, F.Compress, Fold, BitCount, Used, F.BigEndian, PaddedWith;
      ghost var v, b := VarsOf(state[..]), buf[..];
      var r := Used(count);
      UsedBytes(|data|);
      CountFits(|data|);
      ghost var length := F.BigEndian(count, 8);
      if r < 56 {
        Copy(r, PAD[..56 - r]);
        Be64enc(buf, 56, count);
        assert PAD[..56 - r] == [0x80] + Zeros(55 - r);
        assert buf[..] == b[..r] + [0x80] + Zeros(55 - r) + length;
        PadShort(F.Compress, F.H0, v, b, buf[..], data, length);
      } else {
        Copy(r, PAD[..64 - r]);
        ghost var block := buf[..];
        assert PAD[..64 - r] == [0x80] + Zeros(63 - r);
        assert block == b[..r] + [0x80] + Zeros(63 - r);
        Transform(state, buf[..]);
        Copy(0, Zeros(56));
        Be64enc(buf, 56, count);
        assert buf[..] == Zeros(56) + length;
        PadLong(F.Compress, F.H0, v, b, block, buf[..], data, length);
      }
      Transform(state, buf[..]);
    }

    /** Pads, exports the hash value and clears the context. */
    method Final(digest: array<byte>)
      requires Valid() && digest.Length == 32 && digest != buf
      modifies digest, this`count, state, buf
      ensures 8 * |data| < 0x1_0000_0000_0000_0000 ==> digest[..] == F.Digest(data)
      ensures count == 0 && (forall i | 0 <= i < 8 :: state[i] == 0) && forall i | 0 <= i < 64 :: buf[i] == 0
    {
      hide Holds, VarsOf, F.Compress, Fold, BitCount, F.BigEndian, PaddedWith, F.Encode;
      Pad();
      Be32encVect(digest, state);
      CountFits(|data|);
      count := 0;
      forall i | 0 <= i < 8 {
        state[i] := 0;
      }
      forall i | 0 <= i < 64 {
        buf[i] := 0;
      }
    }
  }

  const PAD: seq<byte> := [0x80] + Zeros(63)

  lemma CountFits(n: nat)
    ensures BitCount(n) < 0x1_0000_0000_0000_0000
    ensures 8 * n < 0x1_0000_0000_0000_0000 ==> BitCount(n) == 8 * n
  {
  }

  // ----- encoding -----

  /** be32dec undoes be32enc, and the other way round. */
  lemma DecAfterEnc(u: word)
    ensures Be32dec(F.BigEndian(u as nat, 4)) == u
  {
    F.WordIsNumber(F.BigEndian(u as nat, 4));
    F.NumberOfBytes(u as nat, 4);
    hide F.BigEndian, F.Number, Be32dec, F.Word;
    assert F.Power256(4) == 0x1_0000_0000;
  }

  lemma EncAfterDec(b: seq<byte>)
    requires |b| == 4
    ensures F.BigEndian(Be32dec(b) as nat, 4) == b
  {
    F.WordIsNumber(b);
    F.BytesOfNumber(b);
    hide F.BigEndian, F.Number, Be32dec, F.Word;
  }

  method Be32enc(p: array<byte>, at: nat, u: word)
    requires at + 4 <= p.Length
    modifies p
    ensures p[..] == old(p[..at]) + F.BigEndian(u as nat, 4) + old(p[at + 4..])
    ensures Be32dec(p[at..at + 4]) == u
  {
    p[at] := (u / 0x100_0000) as byte;
    p[at + 1] := (u / 0x1_0000 % 0x100) as byte;
    p[at + 2] := (u / 0x100 % 0x100) as byte;
    p[at + 3] := (u % 0x100) as byte;
    FourBytes(u as nat);
    DecAfterEnc(u);
    assert p[at..at + 4] == F.BigEndian(u as nat, 4);
    hide F.BigEndian, Be32dec;
  }

  lemma FourBytes(u: nat)
    requires u < 0x1_0000_0000
    ensures F.BigEndian(u, 4)
         == [(u / 0x100_0000) as byte, (u / 0x1_0000 % 0x100) as byte, (u / 0x100 % 0x100) as byte, (u % 0x100) as byte]
  {
    assert F.BigEndian(u / 0x100_0000, 1) == [(u / 0x100_0000) as byte];
    assert F.BigEndian(u / 0x1_0000, 2) == F.BigEndian(u / 0x100_0000, 1) + [(u / 0x1_0000 % 0x100) as byte];
    assert F.BigEndian(u / 0x100, 3) == F.BigEndian(u / 0x1_0000, 2) + [(u / 0x100 % 0x100) as byte];
  }

  method Be64enc(p: array<byte>, at: nat, u: nat)
    requires at + 8 <= p.Length && u < 0x1_0000_0000_0000_0000
    modifies p
    ensures p[..] == old(p[..at]) + F.BigEndian(u, 8) + old(p[at + 8..])
  {
    hide F.BigEndian;
    Be32enc(p, at, (u / 0x1_0000_0000) as word);
    Be32enc(p, at + 4, (u % 0x1_0000_0000) as word);
    HighAndLow(u, 8);
  }

  lemma Digits(h: nat, l: nat)
    ensures (h * 0x1_0000_0000 + l) / 0x100_0000 == h * 0x100 + l / 0x100_0000
    ensures (h * 0x1_0000_0000 + l) / 0x1_0000 == h * 0x1_0000 + l / 0x1_0000
    ensures (h * 0x1_0000_0000 + l) / 0x100 == h * 0x100_0000 + l / 0x100
  {
  }

  lemma LowDigits(u: nat, h: nat, l: nat)
    requires u == h * 0x1_0000_0000 + l && l < 0x1_0000_0000
    ensures l / 0x100_0000 == u / 0x100_0000 % 0x100
    ensures l / 0x1_0000 % 0x100 == u / 0x1_0000 % 0x100
    ensures l / 0x100 % 0x100 == u / 0x100 % 0x100
    ensures l % 0x100 == u % 0x100
  {
    Digits(h, l);
    DropMultiple(h, l / 0x100_0000);
    DropMultiple(0x100 * h, l / 0x1_0000);
    DropMultiple(0x1_0000 * h, l / 0x100);
    DropMultiple(0x100_0000 * h, l);
  }

  lemma HighAndLow(u: nat, n: nat)
    requires 4 <= n
    ensures F.BigEndian(u, n) == F.BigEndian(u / 0x1_0000_0000, n - 4) + F.BigEndian(u % 0x1_0000_0000, 4)
  {
    FourBytes(u % 0x1_0000_0000);
    LowDigits(u, u / 0x1_0000_0000, u % 0x1_0000_0000);
    Shifts(u);
    ByteByByte(u / 0x100_0000, n - 3);
    ByteByByte(u / 0x1_0000, n - 2);
    ByteByByte(u / 0x100, n - 1);
    ByteByByte(u, n);
    hide F.BigEndian;
  }

  lemma ByteByByte(u: nat, n: nat)
    requires 1 <= n
    ensures F.BigEndian(u, n) == F.BigEndian(u / 0x100, n - 1) + [(u % 0x100) as byte]
  {
  }

  method Be32encVect(dst: array<byte>, src: array<word>)
    requires dst.Length == 32 && src.Length == 8
    modifies dst
    ensures dst[..] == F.Encode(VarsOf(src[..]))
  {
    hide F.BigEndian;
    for i := 0 to 8
      invariant forall j | 0 <= j < i :: dst[4 * j..4 * j + 4] == F.BigEndian(src[j] as nat, 4)
    {
      ghost var was := dst[..];
      Be32enc(dst, 4 * i, src[i]);
      forall j | 0 <= j < i ensures dst[4 * j..4 * j + 4] == was[4 * j..4 * j + 4] {
      }
    }
    EightSlices(dst[..]);
  }

  lemma EightSlices(d: seq<byte>)
    requires |d| == 32
    ensures d == d[0..4] + d[4..8] + d[8..12] + d[12..16] + d[16..20] + d[20..24] + d[24..28] + d[28..32]
  {
  }

  /** Hashing a file that is read in chunks: how it is cut does not matter. */
  method HashChunks(chunks: seq<seq<byte>>) returns (digest: array<byte>)
    requires forall c | c in chunks :: |c| < 0x1_0000_0000_0000_0000
    ensures digest.Length == 32 && fresh(digest)
    ensures 8 * |Concat(chunks)| < 0x1_0000_0000_0000_0000 ==> digest[..] == F.Digest(Concat(chunks))
  {
    hide Concat, Holds, Fold, VarsOf, BitCount, F.Digest, F.Compress;
    var ctx := new Context.Init();
    ConcatNothing();
    for i := 0 to |chunks|
      invariant chunks[..0] == [] && ctx.Valid() && fresh(ctx)
              && fresh(ctx.state) && fresh(ctx.buf) && ctx.data == Concat(chunks[..i])
    {
      ConcatOneMore(chunks, i);
      ctx.Update(chunks[i]);
    }
    assert chunks[..|chunks|] == chunks;
    digest := new byte[32];
    ctx.Final(digest);
  }
}