/** 32-bit words as numbers: what the sums and rotations of bit vectors compute. */
module Words {

  type Word = bv32

  const WORD_SPAN: int := 0x1_0000_0000

  // ---------------------------------------------------------------------------------------
  // Numbers from their parts
  // ---------------------------------------------------------------------------------------

  lemma TwoDigits(h: bv4, l: bv4)
    ensures (((h as bv8) << 4) | (l as bv8)) as int == 16 * (h as int) + l as int
  {
  }

  lemma TwoBytes(h: bv8, l: bv8)
    ensures (((h as bv16) << 8) | (l as bv16)) as int == 0x100 * (h as int) + l as int
  {
  }

  lemma ThreeBytes(h: bv8, l: bv16)
    ensures (((h as bv24) << 16) | (l as bv24)) as int == 0x1_0000 * (h as int) + l as int
  {
  }

  lemma WholeWord(h: bv8, l: bv24)
    ensures (((h as Word) << 24) | (l as Word)) as int == 0x100_0000 * (h as int) + l as int
  {
  }

  lemma FourBytes(a: bv8, b: bv8, c: bv8, d: bv8)
    ensures (((a as Word) << 24) | ((b as Word) << 16) | ((c as Word) << 8) | (d as Word)) as int
         == 0x100_0000 * (a as int) + 0x1_0000 * (b as int) + 0x100 * (c as int) + d as int
  {
  }

  lemma Split8(a: bv8) returns (h: bv4, l: bv4)
    ensures a == ((h as bv8) << 4) | (l as bv8)
  {
    h, l := (a >> 4) as bv4, (a & 0xF) as bv4;
  }

  lemma Split16(a: bv16) returns (h: bv8, l: bv8)
    ensures a == ((h as bv16) << 8) | (l as bv16)
  {
    h, l := (a >> 8) as bv8, (a & 0xFF) as bv8;
  }

  lemma Split24(a: bv24) returns (h: bv8, l: bv16)
    ensures a == ((h as bv24) << 16) | (l as bv24)
  {
    h, l := (a >> 16) as bv8, (a & 0xFFFF) as bv16;
  }

  lemma Split32(a: Word) returns (h: bv8, l: bv24)
    ensures a == ((h as Word) << 24) | (l as Word)
  {
    h, l := (a >> 24) as bv8, (a & 0xFF_FFFF) as bv24;
  }

  // ---------------------------------------------------------------------------------------
  // Sums: of four bits, eight, sixteen, twenty-four, and of words
  // ---------------------------------------------------------------------------------------

  /** The sum of `a`, `b` and the carry `c` is `s` with the carry `d`. The carry comes in from an
      extra bit on the right. */
  ghost predicate Adds4(a: bv4, b: bv4, c: bv1, s: bv4, d: bv1) {
    ((((a as bv6) << 1) | 1) + (((b as bv6) << 1) | (c as bv6))) >> 1 == ((d as bv6) << 4) | (s as bv6)
  }

  ghost predicate Adds8(a: bv8, b: bv8, c: bv1, s: bv8, d: bv1) {
    ((((a as bv10) << 1) | 1) + (((b as bv10) << 1) | (c as bv10))) >> 1 == ((d as bv10) << 8) | (s as bv10)
  }

  ghost predicate Adds16(a: bv16, b: bv16, c: bv1, s: bv16, d: bv1) {
    ((((a as bv18) << 1) | 1) + (((b as bv18) << 1) | (c as bv18))) >> 1 == ((d as bv18) << 16) | (s as bv18)
  }

  ghost predicate Adds24(a: bv24, b: bv24, c: bv1, s: bv24, d: bv1) {
    WithoutLast(((a as bv26) << 1) | 1, ((b as bv26) << 1) | (c as bv26)) == ((d as bv26) << 24) | (s as bv26)
  }

  function WithoutLast(x: bv26, y: bv26): bv26 { (x + y) >> 1 }

  lemma FourBits(a: bv4, b: bv4, c: bv1)
    ensures (((((a as bv6) << 1) | 1) + (((b as bv6) << 1) | (c as bv6))) >> 1) as int == a as int + b as int + c as int
  {
  }

  lemma FiveBits(d: bv1, s: bv4)
    ensures (((d as bv6) << 4) | (s as bv6)) as int == 16 * (d as int) + s as int
  {
  }

  lemma Sum4(a: bv4, b: bv4, c: bv1) returns (s: bv4, d: bv1)
    ensures Adds4(a, b, c, s, d) && a as int + b as int + c as int == 16 * (d as int) + s as int
  {
    var t := ((((a as bv6) << 1) | 1) + (((b as bv6) << 1) | (c as bv6))) >> 1;
    s, d := (t & 15) as bv4, (t >> 4) as bv1;
    FourBits(a, b, c);
    FiveBits(d, s);
  }

  lemma Ripple8(c: bv1, a1: bv4, a0: bv4, b1: bv4, b0: bv4, s1: bv4, s0: bv4, d1: bv1, d0: bv1)
    requires ((((a0 as bv6) << 1) | 1) + (((b0 as bv6) << 1) | (c as bv6))) >> 1 == ((d0 as bv6) << 4) | (s0 as bv6)
    requires ((((a1 as bv6) << 1) | 1) + (((b1 as bv6) << 1) | (d0 as bv6))) >> 1 == ((d1 as bv6) << 4) | (s1 as bv6)
    ensures ((((((a1 as bv10) << 4) | (a0 as bv10)) << 1) | 1) + (((((b1 as bv10) << 4) | (b0 as bv10)) << 1) | (c as bv10))) >> 1
         == ((d1 as bv10) << 8) | (((s1 as bv10) << 4) | (s0 as bv10))
  {
  }

  lemma Wider8(a: bv8, h: bv4, l: bv4)
    requires a == ((h as bv8) << 4) | (l as bv8)
    ensures a as bv10 == ((h as bv10) << 4) | (l as bv10)
  {
  }

  lemma Carry8(c: bv1, a1: bv4, a0: bv4, b1: bv4, b0: bv4, s1: bv4, s0: bv4, d1: bv1, d0: bv1)
    requires Adds4(a0, b0, c, s0, d0) && Adds4(a1, b1, d0, s1, d1)
    ensures Adds8(((a1 as bv8) << 4) | (a0 as bv8), ((b1 as bv8) << 4) | (b0 as bv8), c, ((s1 as bv8) << 4) | (s0 as bv8), d1)
  {
    Ripple8(c, a1, a0, b1, b0, s1, s0, d1, d0);
    Wider8(((a1 as bv8) << 4) | (a0 as bv8), a1, a0);
    Wider8(((b1 as bv8) << 4) | (b0 as bv8), b1, b0);
    Wider8(((s1 as bv8) << 4) | (s0 as bv8), s1, s0);
  }

  lemma Sum8(a: bv8, b: bv8, c: bv1) returns (s: bv8, d: bv1)
    ensures Adds8(a, b, c, s, d) && a as int + b as int + c as int == 0x100 * (d as int) + s as int
  {
    var a1, a0 := Split8(a);
    var b1, b0 := Split8(b);
    var s0, d0 := Sum4(a0, b0, c);
    var s1, d1 := Sum4(a1, b1, d0);
    s, d := ((s1 as bv8) << 4) | (s0 as bv8), d1;
    Carry8(c, a1, a0, b1, b0, s1, s0, d1, d0);
    TwoDigits(a1, a0);
    TwoDigits(b1, b0);
    TwoDigits(s1, s0);
  }

  lemma Ripple16(c: bv1, a1: bv8, a0: bv8, b1: bv8, b0: bv8, s1: bv8, s0: bv8, d1: bv1, d0: bv1)
    requires ((((a0 as bv10) << 1) | 1) + (((b0 as bv10) << 1) | (c as bv10))) >> 1 == ((d0 as bv10) << 8) | (s0 as bv10)
    requires ((((a1 as bv10) << 1) | 1) + (((b1 as bv10) << 1) | (d0 as bv10))) >> 1 == ((d1 as bv10) << 8) | (s1 as bv10)
    ensures ((((((a1 as bv18) << 8) | (a0 as bv18)) << 1) | 1) + (((((b1 as bv18) << 8) | (b0 as bv18)) << 1) | (c as bv18))) >> 1
         == ((d1 as bv18) << 16) | (((s1 as bv18) << 8) | (s0 as bv18))
  {
  }

  lemma Wider16(a: bv16, h: bv8, l: bv8)
    requires a == ((h as bv16) << 8) | (l as bv16)
    ensures a as bv18 == ((h as bv18) << 8) | (l as bv18)
  {
  }

  lemma Carry16(c: bv1, a1: bv8, a0: bv8, b1: bv8, b0: bv8, s1: bv8, s0: bv8, d1: bv1, d0: bv1)
    requires Adds8(a0, b0, c, s0, d0) && Adds8(a1, b1, d0, s1, d1)
    ensures Adds16(((a1 as bv16) << 8) | (a0 as bv16), ((b1 as bv16) << 8) | (b0 as bv16), c, ((s1 as bv16) << 8) | (s0 as bv16), d1)
  {
    Ripple16(c, a1, a0, b1, b0, s1, s0, d1, d0);
    Wider16(((a1 as bv16) << 8) | (a0 as bv16), a1, a0);
    Wider16(((b1 as bv16) << 8) | (b0 as bv16), b1, b0);
    Wider16(((s1 as bv16) << 8) | (s0 as bv16), s1, s0);
  }

  lemma Sum16(a: bv16, b: bv16, c: bv1) returns (s: bv16, d: bv1)
    ensures Adds16(a, b, c, s, d) && a as int + b as int + c as int == 0x1_0000 * (d as int) + s as int
  {
    var a1, a0 := Split16(a);
    var b1, b0 := Split16(b);
    var s0, d0 := Sum8(a0, b0, c);
    var s1, d1 := Sum8(a1, b1, d0);
    s, d := ((s1 as bv16) << 8) | (s0 as bv16), d1;
    Carry16(c, a1, a0, b1, b0, s1, s0, d1, d0);
    TwoBytes(a1, a0);
    TwoBytes(b1, b0);
    TwoBytes(s1, s0);
  }

  lemma Ripple24(c: bv1, a1: bv8, a0: bv16, b1: bv8, b0: bv16, s1: bv8, s0: bv16, d1: bv1, d0: bv1)
    requires ((((a0 as bv18) << 1) | 1) + (((b0 as bv18) << 1) | (c as bv18))) >> 1 == ((d0 as bv18) << 16) | (s0 as bv18)
    requires ((((a1 as bv10) << 1) | 1) + (((b1 as bv10) << 1) | (d0 as bv10))) >> 1 == ((d1 as bv10) << 8) | (s1 as bv10)
    ensures ((((((a1 as bv26) << 16) | (a0 as bv26)) << 1) | 1) + (((((b1 as bv26) << 16) | (b0 as bv26)) << 1) | (c as bv26))) >> 1
         == ((d1 as bv26) << 24) | (((s1 as bv26) << 16) | (s0 as bv26))
  {
  }

  lemma Wider24(a: bv24, h: bv8, l: bv16)
    requires a == ((h as bv24) << 16) | (l as bv24)
    ensures a as bv26 == ((h as bv26) << 16) | (l as bv26)
  {
  }

  lemma Carry24(c: bv1, a1: bv8, a0: bv16, b1: bv8, b0: bv16, s1: bv8, s0: bv16, d1: bv1, d0: bv1)
    requires Adds16(a0, b0, c, s0, d0) && Adds8(a1, b1, d0, s1, d1)
    ensures Adds24(((a1 as bv24) << 16) | (a0 as bv24), ((b1 as bv24) << 16) | (b0 as bv24), c, ((s1 as bv24) << 16) | (s0 as bv24), d1)
  {
    Ripple24(c, a1, a0, b1, b0, s1, s0, d1, d0);
    Wider24(((a1 as bv24) << 16) | (a0 as bv24), a1, a0);
    Wider24(((b1 as bv24) << 16) | (b0 as bv24), b1, b0);
    Wider24(((s1 as bv24) << 16) | (s0 as bv24), s1, s0);
  }

  lemma AddUp24(a: int, a1: int, a0: int, b: int, b1: int, b0: int, s: int, s1: int, s0: int, d: int, d0: int, c: int)
    requires a == 0x1_0000 * a1 + a0 && b == 0x1_0000 * b1 + b0 && s == 0x1_0000 * s1 + s0
    requires a0 + b0 + c == 0x1_0000 * d0 + s0 && a1 + b1 + d0 == 0x100 * d + s1
    ensures a + b + c == 0x100_0000 * d + s
  {
  }

  lemma Sum24(a: bv24, b: bv24, c: bv1) returns (s: bv24, d: bv1)
    ensures Adds24(a, b, c, s, d) && a as int + b as int + c as int == 0x100_0000 * (d as int) + s as int
  {
    var a1, a0 := Split24(a);
    var b1, b0 := Split24(b);
    var s0, d0 := Sum16(a0, b0, c);
    var s1, d1 := Sum8(a1, b1, d0);
    s, d := ((s1 as bv24) << 16) | (s0 as bv24), d1;
    Carry24(c, a1, a0, b1, b0, s1, s0, d1, d0);
    ThreeBytes(a1, a0);
    ThreeBytes(b1, b0);
    ThreeBytes(s1, s0);
    AddUp24(a as int, a1 as int, a0 as int, b as int, b1 as int, b0 as int, s as int, s1 as int, s0 as int, d as int, d0 as int, c as int);
  }

  function Plus(x: Word, y: Word): Word { x + y }

  lemma Ripple32(a1: bv8, a0: bv24, b1: bv8, b0: bv24, s1: bv8, s0: bv24, d1: bv1, d0: bv1)
    requires ((((a0 as bv26) << 1) | 1) + ((b0 as bv26) << 1)) >> 1 == ((d0 as bv26) << 24) | (s0 as bv26)
    requires ((((a1 as bv10) << 1) | 1) + (((b1 as bv10) << 1) | (d0 as bv10))) >> 1 == ((d1 as bv10) << 8) | (s1 as bv10)
    ensures (((a1 as Word) << 24) | (a0 as Word)) + (((b1 as Word) << 24) | (b0 as Word)) == ((s1 as Word) << 24) | (s0 as Word)
  {
  }

  lemma NoCarry(b: bv24, c: bv1)
    requires c == 0
    ensures ((b as bv26) << 1) | (c as bv26) == (b as bv26) << 1
  {
  }

  lemma Carry32(c: bv1, a1: bv8, a0: bv24, b1: bv8, b0: bv24, s1: bv8, s0: bv24, d1: bv1, d0: bv1)
    requires Adds24(a0, b0, c, s0, d0) && Adds8(a1, b1, d0, s1, d1) && c == 0
    ensures Plus(((a1 as Word) << 24) | (a0 as Word), ((b1 as Word) << 24) | (b0 as Word)) == ((s1 as Word) << 24) | (s0 as Word)
  {
    NoCarry(b0, c);
    assert WithoutLast(((a0 as bv26) << 1) | 1, (b0 as bv26) << 1) == ((d0 as bv26) << 24) | (s0 as bv26);
    Ripple32(a1, a0, b1, b0, s1, s0, d1, d0);
  }

  lemma AddUp32(a: int, a1: int, a0: int, b: int, b1: int, b0: int, s: int, s1: int, s0: int, d: int, d0: int)
    requires a == 0x100_0000 * a1 + a0 && b == 0x100_0000 * b1 + b0 && s == 0x100_0000 * s1 + s0
    requires a0 + b0 == 0x100_0000 * d0 + s0 && a1 + b1 + d0 == 0x100 * d + s1
    ensures a + b == WORD_SPAN * d + s
  {
  }

  lemma Sum32(a: Word, b: Word) returns (s: Word, d: bv1)
    ensures s == Plus(a, b) && a as int + b as int == WORD_SPAN * (d as int) + s as int
  {
    var a1, a0 := Split32(a);
    var b1, b0 := Split32(b);
    var c: bv1 := 0;
    var s0, d0 := Sum24(a0, b0, c);
    var s1, d1 := Sum8(a1, b1, d0);
    s, d := ((s1 as Word) << 24) | (s0 as Word), d1;
    Carry32(c, a1, a0, b1, b0, s1, s0, d1, d0);
    WholeWord(a1, a0);
    WholeWord(b1, b0);
    WholeWord(s1, s0);
    AddUp32(a as int, a1 as int, a0 as int, b as int, b1 as int, b0 as int, s as int, s1 as int, s0 as int, d as int, d0 as int);
  }

  lemma Remainder(n: int, q: int, r: int)
    requires n == WORD_SPAN * q + r && 0 <= r < WORD_SPAN
    ensures n % WORD_SPAN == r
  {
  }

  /** Words add modulo 2^32. */
  lemma PlusIsSum(a: Word, b: Word)
    ensures Plus(a, b) as int == (a as int + b as int) % WORD_SPAN
  {
    var s, d := Sum32(a, b);
    Remainder(a as int + b as int, d as int, s as int);
  }

  // ---------------------------------------------------------------------------------------
  // Rotations: bit `i` goes to place `i + n` modulo 32
  // ---------------------------------------------------------------------------------------

  predicate Bit(x: Word, i: Word)
    requires i < 32
  {
    (x >> i) & 1 == 1
  }

  /** The circular left shifts by 1, 5 and 30. */
  function Rol1(x: Word): Word { (x << 1) | (x >> 31) }

  function Rol5(x: Word): Word { (x << 5) | (x >> 27) }

  function Rol30(x: Word): Word { (x << 30) | (x >> 2) }

  lemma Parts1(x: Word) returns (h: bv1, l: bv31)
    ensures x == ((h as Word) << 31) | (l as Word) && (x << 1) | (x >> 31) == ((l as Word) << 1) | (h as Word)
  {
    h, l := (x >> 31) as bv1, (x & 0x7FFF_FFFF) as bv31;
  }

  lemma Turned1(x: Word) returns (h: bv1, l: bv31)
    ensures x == ((h as Word) << 31) | (l as Word) && Rol1(x) == ((l as Word) << 1) | (h as Word)
  {
    h, l := Parts1(x);
  }

  lemma Numbers1(h: bv1, l: bv31)
    ensures (((h as Word) << 31) | (l as Word)) as int == 0x8000_0000 * (h as int) + l as int
    ensures (((l as Word) << 1) | (h as Word)) as int == 2 * (l as int) + h as int
  {
  }

  lemma Exchanged1(x: int, h: int, l: int)
    requires x == 0x8000_0000 * h + l && 0 <= h < 2 && 0 <= l < 0x8000_0000
    ensures x * 2 % WORD_SPAN + x / 0x8000_0000 == 2 * l + h
  {
  }

  lemma Rol1Number(x: Word)
    ensures Rol1(x) as int == x as int * 2 % WORD_SPAN + x as int / 0x8000_0000
  {
    var h, l := Turned1(x);
    Numbers1(h, l);
    Exchanged1(x as int, h as int, l as int);
  }

  lemma Rol1Bits(x: Word, i: Word)
    requires i < 32
    ensures Bit(Rol1(x), (i + 1) % 32) == Bit(x, i)
  {
  }

  lemma Parts5(x: Word) returns (h: bv5, l: bv27)
    ensures x == ((h as Word) << 27) | (l as Word) && (x << 5) | (x >> 27) == ((l as Word) << 5) | (h as Word)
  {
    h, l := (x >> 27) as bv5, (x & 0x7FF_FFFF) as bv27;
  }

  lemma Turned5(x: Word) returns (h: bv5, l: bv27)
    ensures x == ((h as Word) << 27) | (l as Word) && Rol5(x) == ((l as Word) << 5) | (h as Word)
  {
    h, l := Parts5(x);
  }

  lemma Numbers5(h: bv5, l: bv27)
    ensures (((h as Word) << 27) | (l as Word)) as int == 0x800_0000 * (h as int) + l as int
    ensures (((l as Word) << 5) | (h as Word)) as int == 32 * (l as int) + h as int
  {
  }

  lemma Exchanged5(x: int, h: int, l: int)
    requires x == 0x800_0000 * h + l && 0 <= h < 32 && 0 <= l < 0x800_0000
    ensures x * 32 % WORD_SPAN + x / 0x800_0000 == 32 * l + h
  {
  }

  lemma Rol5Number(x: Word)
    ensures Rol5(x) as int == x as int * 32 % WORD_SPAN + x as int / 0x800_0000
  {
    var h, l := Turned5(x);
    Numbers5(h, l);
    Exchanged5(x as int, h as int, l as int);
  }

  lemma Rol5Bits(x: Word, i: Word)
    requires i < 32
    ensures Bit(Rol5(x), (i + 5) % 32) == Bit(x, i)
  {
  }

  lemma Parts30(x: Word) returns (h: bv30, l: bv2)
    ensures x == ((h as Word) << 2) | (l as Word) && (x << 30) | (x >> 2) == ((l as Word) << 30) | (h as Word)
  {
    h, l := (x >> 2) as bv30, (x & 3) as bv2;
  }

  lemma Turned30(x: Word) returns (h: bv30, l: bv2)
    ensures x == ((h as Word) << 2) | (l as Word) && Rol30(x) == ((l as Word) << 30) | (h as Word)
  {
    h, l := Parts30(x);
  }

  lemma Numbers30(h: bv30, l: bv2)
    ensures (((h as Word) << 2) | (l as Word)) as int == 4 * (h as int) + l as int
    ensures (((l as Word) << 30) | (h as Word)) as int == 0x4000_0000 * (l as int) + h as int
  {
  }

  lemma Exchanged30(x: int, h: int, l: int)
    requires x == 4 * h + l && 0 <= h < 0x4000_0000 && 0 <= l < 4
    ensures x * 0x4000_0000 % WORD_SPAN + x / 4 == 0x4000_0000 * l + h
  {
  }

  lemma Rol30Number(x: Word)
    ensures Rol30(x) as int == x as int * 0x4000_0000 % WORD_SPAN + x as int / 4
  {
    var h, l := Turned30(x);
    Numbers30(h, l);
    Exchanged30(x as int, h as int, l as int);
  }

  lemma Rol30Bits(x: Word, i: Word)
    requires i < 32
    ensures Bit(Rol30(x), (i + 30) % 32) == Bit(x, i)
  {
  }

  // ---------------------------------------------------------------------------------------
  // Numbers as bytes
  // ---------------------------------------------------------------------------------------

  lemma HalfByte(n: nat)
    requires n < 16
    ensures (n as bv4) as int == n
  {
  }

  lemma ByteOf(n: nat) returns (b: bv8)
    requires n < 0x100
    ensures b as int == n
  {
    var h, l := (n / 16) as bv4, (n % 16) as bv4;
    HalfByte(n / 16);
    HalfByte(n % 16);
    TwoDigits(h, l);
    b := ((h as bv8) << 4) | (l as bv8);
  }

  lemma ThereAndBack(b: bv8)
    ensures (b as int) as bv8 == b
  {
  }

  function Octet(n: nat): (b: bv8)
    requires n < 0x100
    ensures b as int == n
  {
    OctetIsNumber(n);
    n as bv8
  }

  lemma OctetIsNumber(n: nat)
    requires n < 0x100
    ensures (n as bv8) as int == n
  {
    var b := ByteOf(n);
    ThereAndBack(b);
  }
}
