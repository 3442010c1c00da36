/** The secure hash standard as FIPS 180-1 states it: padding (section 4), functions and constants
    (sections 5 and 6), and the computation over an 80-word schedule (section 7). The order in which
    four bytes make a word is a parameter; the standard asks for `Big`. */
module Sha1Spec {
  import opened Words

  type Byte = bv8

  datatype ByteOrder = Big | Little

  datatype Regs = Regs(a: Word, b: Word, c: Word, d: Word, e: Word)

  const IV := Regs(0x67452301, 0xEFCDAB89, 0x98BADCFE, 0x10325476, 0xC3D2E1F0)

  const BLOCK := 64
  const COUNT_SPAN: int := 0x1_0000_0000_0000_0000

  function F(t: nat, b: Word, c: Word, d: Word): Word {
    if t < 20 then (b & c) | (!b & d)
    else if t < 40 then b ^ c ^ d
    else if t < 60 then (b & c) | (b & d) | (c & d)
    else b ^ c ^ d
  }

  function K(t: nat): Word {
    if t < 20 then 0x5A827999 else if t < 40 then 0x6ED9EBA1 else if t < 60 then 0x8F1BBCDC else 0xCA62C1D6
  }

  /** Word `t` of a schedule, from the sixteen words before it. */
  function NextWord(w: seq<Word>, t: nat): Word
    requires 16 <= t <= |w|
  {
    Rol1(w[t - 3] ^ w[t - 8] ^ w[t - 14] ^ w[t - 16])
  }

  /** The first `n` words of the schedule. */
  function Schedule(m: seq<Word>, n: nat): (w: seq<Word>)
    requires |m| == 16 && 16 <= n
    ensures |w| == n
  {
    if n == 16 then m
    else
      var w := Schedule(m, n - 1);
      w + [NextWord(w, n - 1)]
  }

  /** The sum modulo 2^32 that each round forms. */
  function Temp(e: Word, f: Word, w: Word, k: Word, a: Word): Word {
    Plus(e, Plus(Plus(Plus(f, w), k), Rol5(a)))
  }

  function Round(r: Regs, w: Word, t: nat): Regs {
    Regs(Temp(r.e, F(t, r.b, r.c, r.d), w, K(t), r.a), r.a, Rol30(r.b), r.c, r.d)
  }

  function Rounds(r: Regs, w: seq<Word>, n: nat): Regs
    requires n <= |w|
  {
    if n == 0 then r else Round(Rounds(r, w, n - 1), w[n - 1], n - 1)
  }

  function Add(r: Regs, s: Regs): Regs {
    Regs(Plus(r.a, s.a), Plus(r.b, s.b), Plus(r.c, s.c), Plus(r.d, s.d), Plus(r.e, s.e))
  }

  /** Eighty rounds: five for each word of the block. */
  function RoundCount(m: seq<Word>): (n: nat)
    requires |m| == 16
    ensures n == 80
  {
    5 * |m|
  }

  function Compress(h: Regs, m: seq<Word>): Regs
    requires |m| == 16
  {
    Add(h, Rounds(h, Schedule(m, RoundCount(m)), RoundCount(m)))
  }

  // ---------------------------------------------------------------------------------------
  // Rounds in numbers
  // ---------------------------------------------------------------------------------------

  lemma SumNumber(e: int, f: int, w: int, k: int, a: int, p: int, q: int, s: int)
    requires p == (f + w) % WORD_SPAN && q == (p + k) % WORD_SPAN && s == (q + a) % WORD_SPAN
    ensures (e + s) % WORD_SPAN == (e + f + w + k + a) % WORD_SPAN
  {
  }

  lemma PartialSums(f: Word, w: Word, k: Word, a: Word) returns (p: Word, q: Word, s: Word)
    ensures p == Plus(f, w) && q == Plus(p, k) && s == Plus(q, a)
    ensures p as int == (f as int + w as int) % WORD_SPAN && q as int == (p as int + k as int) % WORD_SPAN
    ensures s as int == (q as int + a as int) % WORD_SPAN
  {
    p := Plus(f, w);
    q := Plus(p, k);
    s := Plus(q, a);
    PlusIsSum(f, w);
    PlusIsSum(p, k);
    PlusIsSum(q, a);
  }

  lemma FiveTerms(e: Word, f: Word, w: Word, k: Word, a: Word, t: Word)
    requires t == Plus(e, Plus(Plus(Plus(f, w), k), a))
    ensures t as int == (e as int + f as int + w as int + k as int + a as int) % WORD_SPAN
  {
    var p, q, s := PartialSums(f, w, k, a);
    PlusIsSum(e, s);
    SumNumber(e as int, f as int, w as int, k as int, a as int, p as int, q as int, s as int);
  }

  /** What a round computes, in numbers: the sum of five terms modulo 2^32, one of them rotated by
      five, one register rotated by thirty, and the others moved on. */
  lemma RoundNumber(r: Regs, w: Word, t: nat)
    ensures var a, f, k := r.a as int, F(t, r.b, r.c, r.d) as int, K(t) as int;
            Round(r, w, t).a as int ==
            (r.e as int + f + w as int + k + (a * 32 % WORD_SPAN + a / 0x800_0000)) % WORD_SPAN
    ensures var b := r.b as int; Round(r, w, t).c as int == b * 0x4000_0000 % WORD_SPAN + b / 4
    ensures Round(r, w, t).b == r.a && Round(r, w, t).d == r.c && Round(r, w, t).e == r.d
  {
    FiveTerms(r.e, F(t, r.b, r.c, r.d), w, K(t), Rol5(r.a), Round(r, w, t).a);
    Rol5Number(r.a);
    Rol30Number(r.b);
  }

  // ---------------------------------------------------------------------------------------
  // Messages
  // ---------------------------------------------------------------------------------------

  function WordOf(order: ByteOrder, b: seq<Byte>): Word
    requires |b| == 4
  {
    if order.Big? then ((b[0] as Word) << 24) | ((b[1] as Word) << 16) | ((b[2] as Word) << 8) | (b[3] as Word)
    else ((b[3] as Word) << 24) | ((b[2] as Word) << 16) | ((b[1] as Word) << 8) | (b[0] as Word)
  }

  function Load(order: ByteOrder, block: seq<Byte>): (m: seq<Word>)
    requires |block| == BLOCK
    ensures |m| == 16
  {
    seq(16, i requires 0 <= i < 16 => WordOf(order, block[4 * i..4 * i + 4]))
  }

  function Absorb(order: ByteOrder, h: Regs, data: seq<Byte>): Regs
    requires |data| % BLOCK == 0
    decreases |data|
  {
    if data == [] then h else Absorb(order, Compress(h, Load(order, data[..BLOCK])), data[BLOCK..])
  }

  /** The bytes of a 32-bit number, the most significant first. */
  function Be32(x: nat): (b: seq<Byte>)
    requires x < WORD_SPAN
    ensures |b| == 4
  {
    [Octet(x / 0x100_0000), Octet(x / 0x1_0000 % 0x100), Octet(x / 0x100 % 0x100), Octet(x % 0x100)]
  }

  function Be64(x: nat): (b: seq<Byte>)
    requires x < COUNT_SPAN
    ensures |b| == 8
  {
    Be32(x / WORD_SPAN) + Be32(x % WORD_SPAN)
  }

  /** The number of zero bytes between the mark and the length. */
  function ZerosFor(length: nat): (k: nat)
    ensures k < BLOCK && (length + 1 + k) % BLOCK == 56
  {
    (55 - length) % BLOCK
  }

  function Zeros(k: nat): seq<Byte> { seq(k, i => 0) }

  function BitCount(length: nat): nat { 8 * length % COUNT_SPAN }

  lemma LengthEndsBlock(n: nat)
    requires n % BLOCK == 56
    ensures (n + 8) % BLOCK == 0 && (n + 8) % 4 == 0
  {
    var q := n / BLOCK;
    assert n + 8 == BLOCK * (q + 1) && n + 8 == 4 * (16 * (q + 1));
  }

  function Pad(m: seq<Byte>): (p: seq<Byte>)
    ensures |p| % BLOCK == 0 && |p| % 4 == 0
  {
    LengthEndsBlock(|m| + 1 + ZerosFor(|m|));
    m + [0x80] + Zeros(ZerosFor(|m|)) + Be64(BitCount(|m|))
  }

  function BytesOf(w: Word): (b: seq<Byte>)
    ensures |b| == 4
  {
    [((w >> 24) & 255) as Byte, ((w >> 16) & 255) as Byte, ((w >> 8) & 255) as Byte, (w & 255) as Byte]
  }

  function Digest(r: Regs): (d: seq<Byte>)
    ensures |d| == 20
  {
    BytesOf(r.a) + BytesOf(r.b) + BytesOf(r.c) + BytesOf(r.d) + BytesOf(r.e)
  }

  function Hash(order: ByteOrder, m: seq<Byte>): (d: seq<Byte>)
    ensures |d| == 20
  {
    Digest(Absorb(order, IV, Pad(m)))
  }

  // ---------------------------------------------------------------------------------------

  lemma {:induction false} AbsorbConcat(order: ByteOrder, h: Regs, x: seq<Byte>, y: seq<Byte>)
    requires |x| % BLOCK == 0 && |y| % BLOCK == 0
    ensures Absorb(order, h, x + y) == Absorb(order, Absorb(order, h, x), y)
    decreases |x|
  {
    if x == [] {
      assert x + y == y;
    } else {
      assert (x + y)[..BLOCK] == x[..BLOCK] && (x + y)[BLOCK..] == x[BLOCK..] + y;
      AbsorbConcat(order, Compress(h, Load(order, x[..BLOCK])), x[BLOCK..], y);
    }
  }

  lemma AbsorbBlock(order: ByteOrder, h: Regs, block: seq<Byte>)
    requires |block| == BLOCK
    ensures Absorb(order, h, block) == Compress(h, Load(order, block))
  {
    assert block[..BLOCK] == block && block[BLOCK..] == [];
  }

  // ---------------------------------------------------------------------------------------
  // What the other byte order computes
  // ---------------------------------------------------------------------------------------

  /** The bytes with every group of four reversed. */
  function SwapWords(data: seq<Byte>): (s: seq<Byte>)
    requires |data| % 4 == 0
    ensures |s| == |data|
  {
    seq(|data|, i requires 0 <= i < |data| => data[4 * (i / 4) + 3 - i % 4])
  }

  lemma WordOfReversed(x: seq<Byte>, y: seq<Byte>)
    requires |x| == |y| == 4 && y == [x[3], x[2], x[1], x[0]]
    ensures WordOf(Little, x) == WordOf(Big, y)
  {
  }

  lemma SwappedGroup(data: seq<Byte>, i: nat)
    requires |data| % 4 == 0 && 4 * i + 4 <= |data|
    ensures SwapWords(data)[4 * i..4 * i + 4] == [data[4 * i + 3], data[4 * i + 2], data[4 * i + 1], data[4 * i]]
  {
  }

  lemma LittleIsSwappedBig(block: seq<Byte>)
    requires |block| == BLOCK
    ensures Load(Little, block) == Load(Big, SwapWords(block))
  {
    var s := SwapWords(block);
    var little, big := Load(Little, block), Load(Big, s);
    forall i | 0 <= i < 16 ensures little[i] == big[i] {
      SwappedGroup(block, i);
      WordOfReversed(block[4 * i..4 * i + 4], s[4 * i..4 * i + 4]);
    }
  }

  lemma SwapSplit(data: seq<Byte>)
    requires BLOCK <= |data| && |data| % 4 == 0
    ensures SwapWords(data)[..BLOCK] == SwapWords(data[..BLOCK])
    ensures SwapWords(data)[BLOCK..] == SwapWords(data[BLOCK..])
  {
  }

  lemma {:induction false} AbsorbLittle(h: Regs, data: seq<Byte>)
    requires |data| % BLOCK == 0
    ensures Absorb(Little, h, data) == Absorb(Big, h, SwapWords(data))
    decreases |data|
  {
    if data != [] {
      LittleIsSwappedBig(data[..BLOCK]);
      SwapSplit(data);
      AbsorbLittle(Compress(h, Load(Little, data[..BLOCK])), data[BLOCK..]);
    }
  }

  /** A host that loads words in the other order computes the standard's digest of the padded
      message with each of its words reversed. */
  lemma LittleHash(m: seq<Byte>)
    ensures Hash(Little, m) == Digest(Absorb(Big, IV, SwapWords(Pad(m))))
  {
    AbsorbLittle(IV, Pad(m));
  }

  // ---------------------------------------------------------------------------------------
  // Bytes and words in numbers
  // ---------------------------------------------------------------------------------------

  /** The number that four bytes stand for, the most significant first. */
  function Number(b: seq<Byte>): nat
    requires |b| == 4
  {
    0x100_0000 * (b[0] as int) + 0x1_0000 * (b[1] as int) + 0x100 * (b[2] as int) + b[3] as int
  }

  lemma WordNumber(b: seq<Byte>)
    requires |b| == 4
    ensures WordOf(Big, b) as int == Number(b)
  {
    FourBytes(b[0], b[1], b[2], b[3]);
  }

  lemma BytesJoin(w: Word)
    ensures WordOf(Big, BytesOf(w)) == w
  {
  }

  /** The bytes of a digest are the digits of its words to base 256, most significant first. */
  lemma BytesNumber(w: Word)
    ensures Number(BytesOf(w)) == w as int
  {
    BytesJoin(w);
    WordNumber(BytesOf(w));
  }

  lemma FourDigits(x: nat)
    ensures x == 0x100_0000 * (x / 0x100_0000) + 0x1_0000 * (x / 0x1_0000 % 0x100) + 0x100 * (x / 0x100 % 0x100) + x % 0x100
  {
    assert x / 0x100 / 0x100 == x / 0x1_0000 && x / 0x1_0000 / 0x100 == x / 0x100_0000;
  }

  /** So are the bytes of the length. */
  lemma Be32Number(x: nat)
    requires x < WORD_SPAN
    ensures Number(Be32(x)) == x
  {
    FourDigits(x);
  }

  /** Four bytes are determined by their number. */
  lemma NumberDigits(b: seq<Byte>)
    requires |b| == 4
    ensures var n := Number(b);
            && b[0] as int == n / 0x100_0000 && b[1] as int == n / 0x1_0000 % 0x100
            && b[2] as int == n / 0x100 % 0x100 && b[3] as int == n % 0x100
  {
    var n0, n1, n2, n3: nat := b[0] as int, b[1] as int, b[2] as int, b[3] as int;
    DigitsOf(n0, n1, n2, n3, Number(b));
  }

  lemma LastDigit(q: nat, r: nat)
    requires r < 0x100
    ensures (0x100 * q + r) / 0x100 == q && (0x100 * q + r) % 0x100 == r
  {
  }

  lemma DigitsOf(a: nat, b: nat, c: nat, d: nat, n: nat)
    requires b < 0x100 && c < 0x100 && d < 0x100 && n == 0x100_0000 * a + 0x1_0000 * b + 0x100 * c + d
    ensures a == n / 0x100_0000 && b == n / 0x1_0000 % 0x100 && c == n / 0x100 % 0x100 && d == n % 0x100
  {
    LastDigit(0x1_0000 * a + 0x100 * b + c, d);
    LastDigit(0x100 * a + b, c);
    LastDigit(a, b);
    assert n / 0x100 / 0x100 == n / 0x1_0000 && n / 0x1_0000 / 0x100 == n / 0x100_0000;
  }
}
