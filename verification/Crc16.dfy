/** The CRC-16 of the IRD image format: a byte-wise table computation, what it computes bit by bit,
    and which changes of a block it never misses. */
module Crc16 {

  type Byte = bv8

  /** The table of the source, in sixteen rows. */
  const TABLE: seq<seq<bv16>> := [
    [0x0000, 0xC0C1, 0xC181, 0x0140, 0xC301, 0x03C0, 0x0280, 0xC241, 0xC601, 0x06C0, 0x0780, 0xC741, 0x0500, 0xC5C1, 0xC481, 0x0440],
    [0xCC01, 0x0CC0, 0x0D80, 0xCD41, 0x0F00, 0xCFC1, 0xCE81, 0x0E40, 0x0A00, 0xCAC1, 0xCB81, 0x0B40, 0xC901, 0x09C0, 0x0880, 0xC841],
    [0xD801, 0x18C0, 0x1980, 0xD941, 0x1B00, 0xDBC1, 0xDA81, 0x1A40, 0x1E00, 0xDEC1, 0xDF81, 0x1F40, 0xDD01, 0x1DC0, 0x1C80, 0xDC41],
    [0x1400, 0xD4C1, 0xD581, 0x1540, 0xD701, 0x17C0, 0x1680, 0xD641, 0xD201, 0x12C0, 0x1380, 0xD341, 0x1100, 0xD1C1, 0xD081, 0x1040],
    [0xF001, 0x30C0, 0x3180, 0xF141, 0x3300, 0xF3C1, 0xF281, 0x3240, 0x3600, 0xF6C1, 0xF781, 0x3740, 0xF501, 0x35C0, 0x3480, 0xF441],
    [0x3C00, 0xFCC1, 0xFD81, 0x3D40, 0xFF01, 0x3FC0, 0x3E80, 0xFE41, 0xFA01, 0x3AC0, 0x3B80, 0xFB41, 0x3900, 0xF9C1, 0xF881, 0x3840],
    [0x2800, 0xE8C1, 0xE981, 0x2940, 0xEB01, 0x2BC0, 0x2A80, 0xEA41, 0xEE01, 0x2EC0, 0x2F80, 0xEF41, 0x2D00, 0xEDC1, 0xEC81, 0x2C40],
    [0xE401, 0x24C0, 0x2580, 0xE541, 0x2700, 0xE7C1, 0xE681, 0x2640, 0x2200, 0xE2C1, 0xE381, 0x2340, 0xE101, 0x21C0, 0x2080, 0xE041],
    [0xA001, 0x60C0, 0x6180, 0xA141, 0x6300, 0xA3C1, 0xA281, 0x6240, 0x6600, 0xA6C1, 0xA781, 0x6740, 0xA501, 0x65C0, 0x6480, 0xA441],
    [0x6C00, 0xACC1, 0xAD81, 0x6D40, 0xAF01, 0x6FC0, 0x6E80, 0xAE41, 0xAA01, 0x6AC0, 0x6B80, 0xAB41, 0x6900, 0xA9C1, 0xA881, 0x6840],
    [0x7800, 0xB8C1, 0xB981, 0x7940, 0xBB01, 0x7BC0, 0x7A80, 0xBA41, 0xBE01, 0x7EC0, 0x7F80, 0xBF41, 0x7D00, 0xBDC1, 0xBC81, 0x7C40],
    [0xB401, 0x74C0, 0x7580, 0xB541, 0x7700, 0xB7C1, 0xB681, 0x7640, 0x7200, 0xB2C1, 0xB381, 0x7340, 0xB101, 0x71C0, 0x7080, 0xB041],
    [0x5000, 0x90C1, 0x9181, 0x5140, 0x9301, 0x53C0, 0x5280, 0x9241, 0x9601, 0x56C0, 0x5780, 0x9741, 0x5500, 0x95C1, 0x9481, 0x5440],
    [0x9C01, 0x5CC0, 0x5D80, 0x9D41, 0x5F00, 0x9FC1, 0x9E81, 0x5E40, 0x5A00, 0x9AC1, 0x9B81, 0x5B40, 0x9901, 0x59C0, 0x5880, 0x9841],
    [0x8801, 0x48C0, 0x4980, 0x8941, 0x4B00, 0x8BC1, 0x8A81, 0x4A40, 0x4E00, 0x8EC1, 0x8F81, 0x4F40, 0x8D01, 0x4DC0, 0x4C80, 0x8C41],
    [0x4400, 0x84C1, 0x8581, 0x4540, 0x8701, 0x47C0, 0x4680, 0x8641, 0x8201, 0x42C0, 0x4380, 0x8341, 0x4100, 0x81C1, 0x8081, 0x4040]
  ]

  function TableAt(i: bv16): bv16
    requires i < 256
  {
    var h, l := (i >> 4) as int, (i & 0xf) as int;
    TABLE[h][l]
  }

  /** One byte, as crc16_byte computes it. */
  function CrcByte(crc: bv16, data: Byte): bv16 {
    (crc >> 8) ^ TableAt((crc ^ (data as bv16)) & 0xff)
  }

  function Crc(crc: bv16, bytes: seq<Byte>): bv16 {
    if bytes == [] then crc else CrcByte(Crc(crc, bytes[..|bytes| - 1]), bytes[|bytes| - 1])
  }

  lemma CrcOnward(crc: bv16, bytes: seq<Byte>, i: nat)
    requires i < |bytes|
    ensures Crc(crc, bytes[..i + 1]) == CrcByte(Crc(crc, bytes[..i]), bytes[i])
  {
    assert bytes[..i + 1][..i] == bytes[..i];
  }

  method Crc16(crc0: bv16, buffer: seq<Byte>) returns (crc: bv16)
    ensures crc == Crc(crc0, buffer)
  {
    crc := crc0;
    var i := 0;
    while i < |buffer|
      invariant 0 <= i <= |buffer| && crc == Crc(crc0, buffer[..i])
    {
      CrcOnward(crc0, buffer, i);
      crc := CrcByte(crc, buffer[i]);
      i := i + 1;
    }
    assert buffer[..i] == buffer;
  }

  /** The CRC of a block may be computed in pieces. */
  lemma {:induction false} CrcConcat(crc: bv16, a: seq<Byte>, b: seq<Byte>)
    ensures Crc(crc, a + b) == Crc(Crc(crc, a), b)
  {
    if b == [] {
      assert a + b == a;
    } else {
      assert (a + b)[..|a + b| - 1] == a + b[..|b| - 1];
      CrcConcat(crc, a, b[..|b| - 1]);
    }
  }

  // ---------------------------------------------------------------------------------------
  // Bit by bit: division by x^16 + x^15 + x^2 + 1, least significant bit first
  // ---------------------------------------------------------------------------------------

  /** One step of the division: the bit that falls out decides whether the divisor is subtracted.
      0xA001 is the divisor 0x8005 with its bits in reverse order. */
  function Shift(c: bv16): bv16 {
    if c & 1 == 1 then (c >> 1) ^ 0xA001 else c >> 1
  }

  function Shift8(c: bv16): bv16 {
    Shift(Shift(Shift(Shift(Shift(Shift(Shift(Shift(c))))))))
  }

  // The table against the division: one, two, four, six and eight steps at a time, each moving the
  // register down and combining the divisions of the bits that fall out.

  /** `v` if bit `k` of `x` is set. */
  function Bit(x: bv16, k: nat, v: bv16): bv16
    requires k < 16
  {
    (0 - ((x >> k) & 1)) & v
  }

  function One(x: bv16): bv16 { (x >> 1) ^ Bit(x, 0, 0xA001) }

  function Two(x: bv16): bv16 { (x >> 2) ^ Bit(x, 0, 0xF001) ^ Bit(x, 1, 0xA001) }

  function Four(x: bv16): bv16 {
    (x >> 4) ^ Bit(x, 0, 0xCC01) ^ Bit(x, 1, 0xD801) ^ Bit(x, 2, 0xF001) ^ Bit(x, 3, 0xA001)
  }

  function Six(x: bv16): bv16 {
    (x >> 6) ^ Bit(x, 0, 0xC301) ^ Bit(x, 1, 0xC601) ^ Bit(x, 2, 0xCC01) ^ Bit(x, 3, 0xD801) ^ Bit(x, 4, 0xF001) ^ Bit(x, 5, 0xA001)
  }

  function Seven(x: bv16): bv16 {
    (x >> 7) ^ Bit(x, 0, 0xC181) ^ Bit(x, 1, 0xC301) ^ Bit(x, 2, 0xC601) ^ Bit(x, 3, 0xCC01) ^ Bit(x, 4, 0xD801) ^ Bit(x, 5, 0xF001)
    ^ Bit(x, 6, 0xA001)
  }

  function Eight(x: bv16): bv16 {
    (x >> 8) ^ Bit(x, 0, 0xC0C1) ^ Bit(x, 1, 0xC181) ^ Bit(x, 2, 0xC301) ^ Bit(x, 3, 0xC601) ^ Bit(x, 4, 0xCC01) ^ Bit(x, 5, 0xD801)
    ^ Bit(x, 6, 0xF001) ^ Bit(x, 7, 0xA001)
  }

  function LowBits(x: bv16): bv16 { Bit(x, 0, 0xC0C1) ^ Bit(x, 1, 0xC181) ^ Bit(x, 2, 0xC301) ^ Bit(x, 3, 0xC601) }

  function HighBits(x: bv16): bv16 { Bit(x, 4, 0xCC01) ^ Bit(x, 5, 0xD801) ^ Bit(x, 6, 0xF001) ^ Bit(x, 7, 0xA001) }

  // The divisions of the bits of a byte, combined.

  function Low(l: bv16): bv16 {
    (if l & 1 != 0 then 0xC0C1 else 0) ^ (if l & 2 != 0 then 0xC181 else 0)
    ^ (if l & 4 != 0 then 0xC301 else 0) ^ (if l & 8 != 0 then 0xC601 else 0)
  }

  function High(h: bv16): bv16 {
    (if h & 1 != 0 then 0xCC01 else 0) ^ (if h & 2 != 0 then 0xD801 else 0)
    ^ (if h & 4 != 0 then 0xF001 else 0) ^ (if h & 8 != 0 then 0xA001 else 0)
  }

  function Combined(i: bv16): bv16 { High(i >> 4) ^ Low(i & 0xf) }


  lemma LastBit(x: bv16)
    ensures x & 1 == 0 || x & 1 == 1
    ensures x >> 0 == x
  {
  }

  lemma Masks(m: bv16, v: bv16)
    ensures m == 0 ==> (0 - m) & v == 0
    ensures m == 1 ==> (0 - m) & v == v
  {
  }

  lemma XorNothing(x: bv16, z: bv16)
    requires z == 0
    ensures x ^ z == x
  {
  }

  lemma OneStep(x: bv16)
    ensures Shift(x) == One(x)
  {
    var v: bv16 := 0xA001;
    LastBit(x);
    Masks(x & 1, v);
    if x & 1 != 1 { XorNothing(x >> 1, Bit(x, 0, v)); }
  }

  lemma TwoSteps(x: bv16)
    ensures One(One(x)) == Two(x)
  {
  }

  lemma FourSteps(x: bv16)
    ensures Two(Two(x)) == Four(x)
  {
  }

  lemma SixSteps(x: bv16)
    ensures Two(Four(x)) == Six(x)
  {
  }

  lemma SevenSteps(x: bv16)
    ensures One(Six(x)) == Seven(x)
  {
  }

  lemma LastStep(x: bv16)
    ensures One(Seven(x)) == Eight(x)
  {
  }

  lemma Halved(x: bv16, a: bv16, b: bv16, c: bv16, d: bv16, e: bv16, f: bv16, g: bv16, h: bv16)
    ensures x ^ a ^ b ^ c ^ d ^ e ^ f ^ g ^ h == x ^ ((e ^ f ^ g ^ h) ^ (a ^ b ^ c ^ d))
  {
  }

  lemma EightIsHalves(x: bv16)
    ensures Eight(x) == (x >> 8) ^ (HighBits(x) ^ LowBits(x))
  {
    var a: bv16, b: bv16, c: bv16, d: bv16 := Bit(x, 0, 0xC0C1), Bit(x, 1, 0xC181), Bit(x, 2, 0xC301), Bit(x, 3, 0xC601);
    var e: bv16, f: bv16, g: bv16, h: bv16 := Bit(x, 4, 0xCC01), Bit(x, 5, 0xD801), Bit(x, 6, 0xF001), Bit(x, 7, 0xA001);
    Halved(x >> 8, a, b, c, d, e, f, g, h);
  }

  lemma LowDivisions(x: bv16)
    ensures LowBits(x) == Low(x & 0xf)
  {
  }

  lemma HighDivisions(x: bv16)
    ensures HighBits(x) == High((x & 0xff) >> 4)
  {
  }

  lemma LowByte(x: bv16)
    ensures (x & 0xff) & 0xf == x & 0xf
  {
  }

  lemma ShiftTwice(x: bv16)
    ensures Shift(Shift(x)) == Two(x)
  {
    OneStep(x);
    OneStep(One(x));
    TwoSteps(x);
  }

  /** Eight steps move the high byte down and combine the divisions of the bits of the low byte. */
  lemma EightSteps(x: bv16)
    ensures Shift8(x) == (x >> 8) ^ Combined(x & 0xff)
  {
    ShiftTwice(x);
    ShiftTwice(Two(x));
    FourSteps(x);
    ShiftTwice(Four(x));
    SixSteps(x);
    OneStep(Six(x));
    SevenSteps(x);
    OneStep(Seven(x));
    LastStep(x);
    EightIsHalves(x);
    LowDivisions(x);
    HighDivisions(x);
    LowByte(x);
  }

  lemma TableQuarter(i: bv16, q: bv16)
    requires i < 256 && i >> 6 == q && (q == 0 || q == 1)
    ensures TableAt(i) == Combined(i)
  {
  }

  lemma TableUpperQuarter(i: bv16, q: bv16)
    requires i < 256 && i >> 6 == q && (q == 2 || q == 3)
    ensures TableAt(i) == Combined(i)
  {
  }

  lemma TableCombines(i: bv16)
    requires i < 256
    ensures TableAt(i) == Combined(i)
  {
    if i < 128 { TableQuarter(i, i >> 6); } else { TableUpperQuarter(i, i >> 6); }
  }

  lemma KeepsHighByte(crc: bv16, data: Byte)
    ensures (crc ^ (data as bv16)) >> 8 == crc >> 8
  {
  }

  /** Reading a byte through the table is dividing its eight bits. */
  lemma ByteIsDivision(crc: bv16, data: Byte)
    ensures CrcByte(crc, data) == Shift8(crc ^ (data as bv16))
  {
    var x := crc ^ (data as bv16);
    KeepsHighByte(crc, data);
    TableCombines(x & 0xff);
    EightSteps(x);
  }

  /** Every entry of the table is the division of its index. */
  lemma TableIsDivision(i: bv16)
    requires i < 256
    ensures TableAt(i) == Shift8(i)
  {
  }

  /** The bit-serial division of a block. */
  function BitSerial(c: bv16, bytes: seq<Byte>): bv16 {
    if bytes == [] then c else Shift8(BitSerial(c, bytes[..|bytes| - 1]) ^ (bytes[|bytes| - 1] as bv16))
  }

  /** The table computation is the bit-serial division, for every start value and every block. */
  lemma {:induction false} CrcIsBitSerial(c: bv16, bytes: seq<Byte>)
    ensures Crc(c, bytes) == BitSerial(c, bytes)
  {
    if bytes != [] {
      CrcIsBitSerial(c, bytes[..|bytes| - 1]);
      ByteIsDivision(Crc(c, bytes[..|bytes| - 1]), bytes[|bytes| - 1]);
    }
  }

  // ---------------------------------------------------------------------------------------
  // What the CRC detects
  // ---------------------------------------------------------------------------------------

  lemma Shift8IsInjective(a: bv16, b: bv16)
    requires Shift8(a) == Shift8(b)
    ensures a == b
  {
  }

  /** Different remainders stay different whatever byte follows. */
  lemma ByteKeepsApart(a: bv16, b: bv16, d: Byte)
    requires CrcByte(a, d) == CrcByte(b, d)
    ensures a == b
  {
    ByteIsDivision(a, d);
    ByteIsDivision(b, d);
    Shift8IsInjective(a ^ (d as bv16), b ^ (d as bv16));
    assert (a ^ (d as bv16)) ^ (d as bv16) == a && (b ^ (d as bv16)) ^ (d as bv16) == b;
  }

  /** The byte whose division has the high byte `b`: there is exactly one. */
  function FromHighByte(b: bv16): bv16 {
    (if b & 1 != 0 then 0x03 else 0) ^ (if b & 2 != 0 then 0x06 else 0)
    ^ (if b & 4 != 0 then 0x0F else 0) ^ (if b & 8 != 0 then 0x1E else 0)
    ^ (if b & 16 != 0 then 0x3F else 0) ^ (if b & 32 != 0 then 0x7E else 0)
    ^ (if b & 64 != 0 then 0xFF else 0) ^ (if b & 128 != 0 then 0xFE else 0)
  }

  /** The byte read from state `c`, recovered from the state after it, even if the low byte of that
      state was changed. */
  function Recover(c: bv16, after: bv16): Byte {
    ((FromHighByte((after ^ (c >> 8)) >> 8) ^ c) & 0xff) as Byte
  }

  lemma HighByteSurvives(h: bv16, t: bv16, p: Byte)
    ensures (((h ^ t) ^ (p as bv16)) ^ h) >> 8 == t >> 8
  {
  }

  lemma FromHighByteOfDivision(i: bv16)
    requires i < 256
    ensures FromHighByte(Combined(i) >> 8) == i
  {
  }

  lemma ByteOfIndex(c: bv16, d: Byte)
    ensures ((((c ^ (d as bv16)) & 0xff) ^ c) & 0xff) as Byte == d
  {
  }

  lemma RecoverByte(c: bv16, d: Byte, p: Byte)
    ensures Recover(c, CrcByte(c, d) ^ (p as bv16)) == d
  {
    var i := (c ^ (d as bv16)) & 0xff;
    TableCombines(i);
    HighByteSurvives(c >> 8, TableAt(i), p);
    FromHighByteOfDivision(i);
    ByteOfIndex(c, d);
  }

  lemma StepBack(u: bv16, v: bv16, d: Byte, e: Byte)
    requires CrcByte(u, d) == CrcByte(v, e)
    ensures u ^ (d as bv16) == v ^ (e as bv16)
  {
    ByteIsDivision(u, d);
    ByteIsDivision(v, e);
    Shift8IsInjective(u ^ (d as bv16), v ^ (e as bv16));
  }

  lemma CancelXor(u: bv16, v: bv16, d: Byte, e: Byte)
    requires u == v && u ^ (d as bv16) == v ^ (e as bv16)
    ensures d == e
  {
  }

  lemma FirstBytesAgree(c: bv16, d1: Byte, d2: Byte, e1: Byte, e2: Byte)
    requires CrcByte(c, d1) ^ (d2 as bv16) == CrcByte(c, e1) ^ (e2 as bv16)
    ensures d1 == e1
  {
    RecoverByte(c, d1, d2);
    RecoverByte(c, e1, e2);
  }

  lemma BothBytesAgree(c: bv16, d1: Byte, d2: Byte, e1: Byte, e2: Byte, u: bv16, v: bv16)
    requires u == CrcByte(c, d1) && v == CrcByte(c, e1) && u ^ (d2 as bv16) == v ^ (e2 as bv16)
    ensures d1 == e1 && d2 == e2
  {
    FirstBytesAgree(c, d1, d2, e1, e2);
    CancelXor(u, v, d2, e2);
  }

  lemma TwoBytesApart(c: bv16, d1: Byte, d2: Byte, e1: Byte, e2: Byte, u: bv16, v: bv16)
    requires u == CrcByte(c, d1) && v == CrcByte(c, e1) && CrcByte(u, d2) == CrcByte(v, e2)
    ensures d1 == e1 && d2 == e2
  {
    StepBack(u, v, d2, e2);
    BothBytesAgree(c, d1, d2, e1, e2, u, v);
  }

  lemma {:induction false} TailKeepsApart(a: bv16, b: bv16, bytes: seq<Byte>)
    requires Crc(a, bytes) == Crc(b, bytes)
    ensures a == b
  {
    if bytes != [] {
      var front, last := bytes[..|bytes| - 1], bytes[|bytes| - 1];
      ByteKeepsApart(Crc(a, front), Crc(b, front), last);
      TailKeepsApart(a, b, front);
    }
  }

  lemma CrcOfTwo(c: bv16, d1: Byte, d2: Byte)
    ensures Crc(c, [d1, d2]) == CrcByte(CrcByte(c, d1), d2)
  {
    assert [d1, d2][..1] == [d1] && [d1][..0] == [];
    assert Crc(c, [d1]) == CrcByte(Crc(c, []), d1);
  }

  /** Two blocks that agree except in two adjacent bytes, and do not agree there, have different
      CRCs, whatever surrounds the two bytes. */
  lemma AdjacentChangeDetected(c: bv16, before: seq<Byte>, d1: Byte, d2: Byte, e1: Byte, e2: Byte, after: seq<Byte>)
    requires d1 != e1 || d2 != e2
    ensures Crc(c, before + [d1, d2] + after) != Crc(c, before + [e1, e2] + after)
  {
    var s := Crc(c, before);
    CrcConcat(c, before + [d1, d2], after);
    CrcConcat(c, before + [e1, e2], after);
    CrcConcat(c, before, [d1, d2]);
    CrcConcat(c, before, [e1, e2]);
    CrcOfTwo(s, d1, d2);
    CrcOfTwo(s, e1, e2);
    if Crc(c, before + [d1, d2] + after) == Crc(c, before + [e1, e2] + after) {
      TailKeepsApart(Crc(s, [d1, d2]), Crc(s, [e1, e2]), after);
      TwoBytesApart(s, d1, d2, e1, e2, CrcByte(s, d1), CrcByte(s, e1));
    }
  }
}
