/** A smart card's answer to reset: what the parser accepts, what the printer gives back, and the
    two conventions in which the bytes may arrive. Clause 8 of ISO/IEC 7816-3:2006. */
module Atr {
  type Byte = bv8

  datatype Option<T> = None | Some(value: T)

  const MAX_SIZE := 33
  const MAX_PROTOCOLS := 7

  // ---------------------------------------------------------------------------------------
  // Conventions
  // ---------------------------------------------------------------------------------------

  /** The bits in reverse order. */
  function InvertByte(a: Byte): Byte {
    ((a << 7) & 0x80) | ((a << 5) & 0x40) | ((a << 3) & 0x20) | ((a << 1) & 0x10)
    | ((a >> 1) & 0x08) | ((a >> 3) & 0x04) | ((a >> 5) & 0x02) | ((a >> 7) & 0x01)
  }

  /** What the parser makes of a byte from a card of the inverse convention. */
  function Inverse(a: Byte): Byte { !InvertByte(a) }

  lemma InverseTwice(a: Byte)
    ensures Inverse(Inverse(a)) == a
  {
  }

  /** The table of the interrupt handler, in sixteen rows. */
  const INVERSION: seq<seq<Byte>> := [
    [0xFF, 0x7F, 0xBF, 0x3F, 0xDF, 0x5F, 0x9F, 0x1F, 0xEF, 0x6F, 0xAF, 0x2F, 0xCF, 0x4F, 0x8F, 0x0F],
    [0xF7, 0x77, 0xB7, 0x37, 0xD7, 0x57, 0x97, 0x17, 0xE7, 0x67, 0xA7, 0x27, 0xC7, 0x47, 0x87, 0x07],
    [0xFB, 0x7B, 0xBB, 0x3B, 0xDB, 0x5B, 0x9B, 0x1B, 0xEB, 0x6B, 0xAB, 0x2B, 0xCB, 0x4B, 0x8B, 0x0B],
    [0xF3, 0x73, 0xB3, 0x33, 0xD3, 0x53, 0x93, 0x13, 0xE3, 0x63, 0xA3, 0x23, 0xC3, 0x43, 0x83, 0x03],
    [0xFD, 0x7D, 0xBD, 0x3D, 0xDD, 0x5D, 0x9D, 0x1D, 0xED, 0x6D, 0xAD, 0x2D, 0xCD, 0x4D, 0x8D, 0x0D],
    [0xF5, 0x75, 0xB5, 0x35, 0xD5, 0x55, 0x95, 0x15, 0xE5, 0x65, 0xA5, 0x25, 0xC5, 0x45, 0x85, 0x05],
    [0xF9, 0x79, 0xB9, 0x39, 0xD9, 0x59, 0x99, 0x19, 0xE9, 0x69, 0xA9, 0x29, 0xC9, 0x49, 0x89, 0x09],
    [0xF1, 0x71, 0xB1, 0x31, 0xD1, 0x51, 0x91, 0x11, 0xE1, 0x61, 0xA1, 0x21, 0xC1, 0x41, 0x81, 0x01],
    [0xFE, 0x7E, 0xBE, 0x3E, 0xDE, 0x5E, 0x9E, 0x1E, 0xEE, 0x6E, 0xAE, 0x2E, 0xCE, 0x4E, 0x8E, 0x0E],
    [0xF6, 0x76, 0xB6, 0x36, 0xD6, 0x56, 0x96, 0x16, 0xE6, 0x66, 0xA6, 0x26, 0xC6, 0x46, 0x86, 0x06],
    [0xFA, 0x7A, 0xBA, 0x3A, 0xDA, 0x5A, 0x9A, 0x1A, 0xEA, 0x6A, 0xAA, 0x2A, 0xCA, 0x4A, 0x8A, 0x0A],
    [0xF2, 0x72, 0xB2, 0x32, 0xD2, 0x52, 0x92, 0x12, 0xE2, 0x62, 0xA2, 0x22, 0xC2, 0x42, 0x82, 0x02],
    [0xFC, 0x7C, 0xBC, 0x3C, 0xDC, 0x5C, 0x9C, 0x1C, 0xEC, 0x6C, 0xAC, 0x2C, 0xCC, 0x4C, 0x8C, 0x0C],
    [0xF4, 0x74, 0xB4, 0x34, 0xD4, 0x54, 0x94, 0x14, 0xE4, 0x64, 0xA4, 0x24, 0xC4, 0x44, 0x84, 0x04],
    [0xF8, 0x78, 0xB8, 0x38, 0xD8, 0x58, 0x98, 0x18, 0xE8, 0x68, 0xA8, 0x28, 0xC8, 0x48, 0x88, 0x08],
    [0xF0, 0x70, 0xB0, 0x30, 0xD0, 0x50, 0x90, 0x10, 0xE0, 0x60, 0xA0, 0x20, 0xC0, 0x40, 0x80, 0x00]
  ]

  function InversionAt(a: Byte): Byte {
    var h, l := (a >> 4) as int, (a & 0xf) as int;
    INVERSION[h][l]
  }

  lemma LowerHalf(a: Byte)
    requires a < 0x80
    ensures InversionAt(a) == Inverse(a)
  {
  }

  lemma UpperHalf(a: Byte)
    requires a >= 0x80
    ensures InversionAt(a) == Inverse(a)
  {
  }

  /** The table is the complement of the reversed bits, and undoes itself. */
  lemma TableIsInverse(a: Byte)
    ensures InversionAt(a) == Inverse(a)
  {
    if a < 0x80 { LowerHalf(a); } else { UpperHalf(a); }
  }

  lemma TableTwice(a: Byte)
    ensures InversionAt(InversionAt(a)) == a
  {
    TableIsInverse(a);
    TableIsInverse(Inverse(a));
    InverseTwice(a);
  }

  // ---------------------------------------------------------------------------------------
  // The record
  // ---------------------------------------------------------------------------------------

  /** The interface bytes TA, TB, TC and TD of one protocol, each there or not. */
  type Group = g: seq<Option<Byte>> | |g| == 4 witness [None, None, None, None]

  datatype Record = Record(ts: Byte, t0: Byte, groups: seq<Group>, hist: seq<Byte>, tck: Option<Byte>)

  /** Bit `i` of a byte. */
  predicate Bit(t: Byte, i: Byte)
    requires i < 8
  {
    (t >> i) & 1 == 1
  }

  /** A check byte follows a TD that names a protocol other than T=0. */
  predicate NeedsCheck(t: Byte) { t as int % 16 != 0 }

  function One(b: bool): nat { if b then 1 else 0 }

  /** How many historical bytes the low half of T0 announces. */
  function History(t: Byte): nat {
    One(t & 1 != 0) + 2 * One(t & 2 != 0) + 4 * One(t & 4 != 0) + 8 * One(t & 8 != 0)
  }

  /** Which interface bytes a T0 or TD announces, and how many. */
  function Announcement(t: Byte): (hs: seq<bool>)
    ensures |hs| == 4
  {
    [Bit(t, 4), Bit(t, 5), Bit(t, 6), Bit(t, 7)]
  }

  /** The parser's own tests for the four bits. */
  lemma MasksTest(t: Byte)
    ensures Announcement(t) == [t | 0xEF == 0xFF, t | 0xDF == 0xFF, t | 0xBF == 0xFF, t | 0x7F == 0xFF]
  {
  }

  function Count(hs: seq<bool>): nat { if hs == [] then 0 else One(hs[0]) + Count(hs[1..]) }

  function Announced(t: Byte): nat { Count(Announcement(t)) }

  lemma CountFour(hs: seq<bool>)
    requires |hs| == 4
    ensures Count(hs) == One(hs[0]) + One(hs[1]) + One(hs[2]) + One(hs[3])
  {
    assert hs[1..][1..] == hs[2..] && hs[2..][1..] == hs[3..] && hs[3..][1..] == [];
    assert Count(hs[3..]) == One(hs[3]);
    assert Count(hs[2..]) == One(hs[2]) + One(hs[3]);
  }

  const NUM_IB_TABLE: seq<nat> := [0, 1, 1, 2, 1, 2, 2, 3, 1, 2, 2, 3, 2, 3, 3, 4]

  function NumInterfaceBytes(t: Byte): nat {
    var i := ((0xF0 & t) >> 4) as int;
    NUM_IB_TABLE[i]
  }

  /** The table counts the bytes announced. */
  lemma TableCounts(t: Byte)
    ensures NumInterfaceBytes(t) == Announced(t)
  {
    CountFour(Announcement(t));
    var i := (0xF0 & t) >> 4;
    if
    case i == 0 => assert !Bit(t, 4) && !Bit(t, 5) && !Bit(t, 6) && !Bit(t, 7);
    case i == 1 => assert Bit(t, 4) && !Bit(t, 5) && !Bit(t, 6) && !Bit(t, 7);
    case i == 2 => assert !Bit(t, 4) && Bit(t, 5) && !Bit(t, 6) && !Bit(t, 7);
    case i == 3 => assert Bit(t, 4) && Bit(t, 5) && !Bit(t, 6) && !Bit(t, 7);
    case i == 4 => assert !Bit(t, 4) && !Bit(t, 5) && Bit(t, 6) && !Bit(t, 7);
    case i == 5 => assert Bit(t, 4) && !Bit(t, 5) && Bit(t, 6) && !Bit(t, 7);
    case i == 6 => assert !Bit(t, 4) && Bit(t, 5) && Bit(t, 6) && !Bit(t, 7);
    case i == 7 => assert Bit(t, 4) && Bit(t, 5) && Bit(t, 6) && !Bit(t, 7);
    case i == 8 => assert !Bit(t, 4) && !Bit(t, 5) && !Bit(t, 6) && Bit(t, 7);
    case i == 9 => assert Bit(t, 4) && !Bit(t, 5) && !Bit(t, 6) && Bit(t, 7);
    case i == 10 => assert !Bit(t, 4) && Bit(t, 5) && !Bit(t, 6) && Bit(t, 7);
    case i == 11 => assert Bit(t, 4) && Bit(t, 5) && !Bit(t, 6) && Bit(t, 7);
    case i == 12 => assert !Bit(t, 4) && !Bit(t, 5) && Bit(t, 6) && Bit(t, 7);
    case i == 13 => assert Bit(t, 4) && !Bit(t, 5) && Bit(t, 6) && Bit(t, 7);
    case i == 14 => assert !Bit(t, 4) && Bit(t, 5) && Bit(t, 6) && Bit(t, 7);
    case i == 15 => assert Bit(t, 4) && Bit(t, 5) && Bit(t, 6) && Bit(t, 7);
  }

  lemma NibbleCounts(t: Byte)
    ensures (t & 0xf) as int == History(t)
  {
  }

  lemma Nibbles(t: Byte) returns (h: bv4, l: bv4)
    ensures t == ((h as Byte) << 4) | (l as Byte) && t & 0xf == l as Byte
  {
    h, l := (t >> 4) as bv4, (t & 0xf) as bv4;
  }

  lemma NibblesNumber(h: bv4, l: bv4)
    ensures (((h as Byte) << 4) | (l as Byte)) as int == 16 * (h as int) + l as int
    ensures (l as Byte) as int == l as int
  {
  }

  /** The low half of a byte as a number. */
  lemma LowHalf(t: Byte)
    ensures (t & 0xf) as int == t as int % 16 && (t & 0xf != 0 <==> NeedsCheck(t))
  {
    var h, l := Nibbles(t);
    NibblesNumber(h, l);
    assert l as Byte != 0 <==> l as int != 0;
  }

  // ---------------------------------------------------------------------------------------
  // Printing
  // ---------------------------------------------------------------------------------------

  function Bytes(o: Option<Byte>): seq<Byte> { if o.Some? then [o.value] else [] }

  function Flat(os: seq<Option<Byte>>): seq<Byte> {
    if os == [] then [] else Bytes(os[0]) + Flat(os[1..])
  }

  function AllBytes(gs: seq<Group>): seq<Byte> {
    if gs == [] then [] else Flat(gs[0]) + AllBytes(gs[1..])
  }

  function Raw(a: Record): seq<Byte> {
    [a.ts, a.t0] + AllBytes(a.groups) + (a.hist + Bytes(a.tck))
  }

  // ---------------------------------------------------------------------------------------
  // Which records are well formed
  // ---------------------------------------------------------------------------------------

  function Presence(os: seq<Option<Byte>>): (hs: seq<bool>)
    ensures |hs| == |os|
  {
    seq(|os|, i requires 0 <= i < |os| => os[i].Some?)
  }

  /** The group holds the bytes that `t` announces. */
  predicate Shaped(t: Byte, g: Group) { Presence(g) == Announcement(t) }

  /** Each group is announced by the TD before it, the first by `t`; the last has no TD. */
  predicate Chained(t: Byte, gs: seq<Group>)
    decreases |gs|
  {
    gs != [] && Shaped(t, gs[0]) && if gs[0][3].Some? then Chained(gs[0][3].value, gs[1..]) else |gs| == 1
  }

  /** A check byte follows exactly when the last TD names a protocol other than T=0. */
  function LastTd(gs: seq<Group>, present: bool): bool
    decreases |gs|
  {
    if gs == [] then present else LastTd(gs[1..], if gs[0][3].Some? then NeedsCheck(gs[0][3].value) else present)
  }

  const CLOCK_TABLE: seq<nat> :=
    [3570000, 5000000, 6000000, 8000000, 12000000, 16000000, 20000000, 0,
     0, 5000000, 7500000, 10000000, 15000000, 20000000, 0, 0]

  function ClockRate(ta: Byte): nat {
    var i := ((ta & 0xF0) >> 4) as int;
    CLOCK_TABLE[i]
  }

  predicate ClockKnown(ta: Byte) { ta & 0xF0 !in {0x70, 0x80, 0xE0, 0xF0} }

  lemma ClockFromTable(ta: Byte)
    ensures ClockRate(ta) != 0 <==> ClockKnown(ta)
  {
  }

  /** With a single protocol, TA1 must name a clock rate and TB1 must not exceed 0x80. */
  predicate SingleOk(gs: seq<Group>) {
    |gs| == 1 ==>
      && (gs[0][0].Some? ==> ClockKnown(gs[0][0].value))
      && (gs[0][1].Some? ==> gs[0][1].value <= 0x80)
  }

  /** The record hangs together: groups, history and check byte are those that T0 and the TDs announce. */
  predicate Consistent(a: Record) {
    && Chained(a.t0, a.groups) && |a.groups| <= 7 && |a.hist| == History(a.t0)
    && a.tck.Some? == LastTd(a.groups, false) && SingleOk(a.groups)
  }

  predicate WellFormed(a: Record) { a.ts != 0x03 && Consistent(a) }

  // ---------------------------------------------------------------------------------------
  // Parsing
  // ---------------------------------------------------------------------------------------

  /** The parser stores the bytes of at most seven protocols but looks for more: it then writes
      behind its array. */
  datatype Parsed<T> = Ok(value: T) | Malformed | Overrun

  function Take(hs: seq<bool>, rest: seq<Byte>): (os: seq<Option<Byte>>)
    requires Count(hs) <= |rest|
    ensures |os| == |hs| && Presence(os) == hs
  {
    if hs == [] then []
    else if hs[0] then [Some(rest[0])] + Take(hs[1..], rest[1..])
    else [None] + Take(hs[1..], rest)
  }

  lemma {:induction false} CountSome(hs: seq<bool>, k: nat)
    requires k < |hs| && hs[k]
    ensures Count(hs) > 0
  {
    if k > 0 { CountSome(hs[1..], k - 1); }
  }

  function Onto(gs: seq<Group>, r: Parsed<seq<Group>>): Parsed<seq<Group>> {
    match r
    case Ok(more) => Ok(gs + more)
    case Malformed => Malformed
    case Overrun => Overrun
  }

  /** The groups from the one announced by `t` on, `pn` of them being read already. */
  function TakeGroups(t: Byte, rest: seq<Byte>, pn: nat): Parsed<seq<Group>>
    decreases |rest|
  {
    if Announced(t) > |rest| then Malformed
    else if pn >= MAX_PROTOCOLS then Overrun
    else
      var g: Group := Take(Announcement(t), rest);
      if g[3].None? then Ok([g])
      else
        CountSome(Announcement(t), 3);
        Onto([g], TakeGroups(g[3].value, rest[Announced(t)..], pn + 1))
  }

  /** History and check byte. */
  function TakeTail(ts: Byte, t0: Byte, gs: seq<Group>, rest: seq<Byte>): Parsed<Record> {
    var n := History(t0);
    if n > |rest| then Malformed
    else if LastTd(gs, false) && n >= |rest| then Malformed
    else if !SingleOk(gs) then Malformed
    else Ok(Record(ts, t0, gs, rest[..n], if LastTd(gs, false) then Some(rest[n]) else None))
  }

  function ParseDecoded(buf: seq<Byte>): Parsed<Record> {
    if |buf| < 2 then Malformed
    else
      match TakeGroups(buf[1], buf[2..], 0)
      case Malformed => Malformed
      case Overrun => Overrun
      case Ok(gs) =>
        GroupsSound(buf[1], buf[2..], 0);
        TakeTail(buf[0], buf[1], gs, buf[2 + |AllBytes(gs)|..])
  }

  function Inverted(raw: seq<Byte>): (r: seq<Byte>)
    ensures |r| == |raw|
  {
    seq(|raw|, i requires 0 <= i < |raw| => Inverse(raw[i]))
  }

  /** The bytes as the parser reads them. */
  function Decoded(raw: seq<Byte>): (r: seq<Byte>)
    ensures |r| == |raw|
  {
    if raw != [] && raw[0] == 0x03 then Inverted(raw) else raw
  }

  function Parse(raw: seq<Byte>): Parsed<Record> { ParseDecoded(Decoded(raw)) }

  // ---------------------------------------------------------------------------------------
  // The parser and the printer undo each other
  // ---------------------------------------------------------------------------------------

  lemma {:induction false} TakeReads(hs: seq<bool>, rest: seq<Byte>)
    requires Count(hs) <= |rest|
    ensures Flat(Take(hs, rest)) == rest[..Count(hs)]
    decreases |hs|
  {
    if hs != [] {
      var more := if hs[0] then rest[1..] else rest;
      TakeReads(hs[1..], more);
      assert Take(hs, rest)[1..] == Take(hs[1..], more);
    }
  }

  lemma TakeSome(v: Byte, hs: seq<bool>, rest: seq<Byte>)
    requires hs != [] && hs[0] && Count(hs[1..]) <= |rest|
    ensures Take(hs, [v] + rest) == [Some(v)] + Take(hs[1..], rest)
  {
  }

  lemma {:induction false} TakeBack(os: seq<Option<Byte>>, rest: seq<Byte>)
    ensures |Flat(os)| == Count(Presence(os)) && Take(Presence(os), Flat(os) + rest) == os
    decreases |os|
  {
    if os != [] {
      var more := Flat(os[1..]) + rest;
      TakeBack(os[1..], rest);
      assert Presence(os)[1..] == Presence(os[1..]);
      assert os == [os[0]] + os[1..];
      if os[0].Some? {
        assert Flat(os) + rest == [os[0].value] + more;
        TakeSome(os[0].value, Presence(os), more);
      } else {
        assert Flat(os) + rest == more;
      }
    }
  }

  /** The next group of the input, if there is room for it. */
  lemma SplitGroup(t: Byte, rest: seq<Byte>) returns (g: Group, more: seq<Byte>)
    requires Announced(t) <= |rest|
    ensures rest == Flat(g) + more && Shaped(t, g) && (g[3].Some? ==> |more| < |rest|)
  {
    g, more := Take(Announcement(t), rest), rest[Announced(t)..];
    TakeReads(Announcement(t), rest);
    if g[3].Some? {
      CountSome(Announcement(t), 3);
    }
  }

  lemma TakeStep(t: Byte, g: Group, more: seq<Byte>, pn: nat)
    requires Shaped(t, g) && pn < MAX_PROTOCOLS
    ensures TakeGroups(t, Flat(g) + more, pn) ==
            if g[3].None? then Ok([g]) else Onto([g], TakeGroups(g[3].value, more, pn + 1))
  {
    TakeBack(g, more);
    assert (Flat(g) + more)[Announced(t)..] == more;
  }

  lemma FlatThen(g: Group, gs: seq<Group>, rest: seq<Byte>)
    ensures AllBytes([g] + gs) == Flat(g) + AllBytes(gs)
    ensures AllBytes(gs) <= rest ==> AllBytes([g] + gs) <= Flat(g) + rest
  {
  }

  lemma ChainStep(t: Byte, g: Group, gs: seq<Group>)
    requires Shaped(t, g)
    ensures Chained(t, [g] + gs) <==> if g[3].Some? then Chained(g[3].value, gs) else gs == []
  {
  }

  /** What is taken are chained groups, at most seven, and exactly the bytes read. */
  lemma {:induction false} GroupsSound(t: Byte, rest: seq<Byte>, pn: nat)
    ensures TakeGroups(t, rest, pn).Ok? ==> var gs := TakeGroups(t, rest, pn).value;
            Chained(t, gs) && |gs| + pn <= MAX_PROTOCOLS && AllBytes(gs) <= rest
    decreases |rest|
  {
    if TakeGroups(t, rest, pn).Ok? {
      var g, more := SplitGroup(t, rest);
      TakeStep(t, g, more, pn);
      var gs: seq<Group> := [];
      if g[3].Some? {
        GroupsSound(g[3].value, more, pn + 1);
        gs := TakeGroups(g[3].value, more, pn + 1).value;
      }
      FlatThen(g, gs, more);
      ChainStep(t, g, gs);
      assert [g] + [] == [g];
    }
  }

  /** Chained groups are taken whole, whatever follows them. */
  lemma {:induction false} GroupsComplete(t: Byte, gs: seq<Group>, rest: seq<Byte>, pn: nat)
    requires Chained(t, gs) && |gs| + pn <= MAX_PROTOCOLS
    ensures TakeGroups(t, AllBytes(gs) + rest, pn) == Ok(gs)
    decreases |gs|
  {
    var g, more := gs[0], AllBytes(gs[1..]) + rest;
    assert gs == [g] + gs[1..];
    assert AllBytes(gs) + rest == Flat(g) + more;
    TakeStep(t, g, more, pn);
    if g[3].Some? {
      GroupsComplete(g[3].value, gs[1..], rest, pn + 1);
    } else {
      assert gs == [g];
    }
  }

  lemma TailSound(ts: Byte, t0: Byte, gs: seq<Group>, rest: seq<Byte>)
    requires TakeTail(ts, t0, gs, rest).Ok?
    ensures var a := TakeTail(ts, t0, gs, rest).value;
            && a.ts == ts && a.t0 == t0 && a.groups == gs && |a.hist| == History(t0)
            && a.tck.Some? == LastTd(gs, false) && SingleOk(gs) && a.hist + Bytes(a.tck) <= rest
  {
  }

  lemma PrefixesJoin(buf: seq<Byte>, x: seq<Byte>, y: seq<Byte>)
    requires |buf| >= 2 && x <= buf[2..] && y <= buf[2 + |x|..]
    ensures [buf[0], buf[1]] + x + y <= buf
  {
  }

  lemma PrefixesSplit(s: seq<Byte>, x: seq<Byte>, y: seq<Byte>, rest: seq<Byte>)
    requires |s| == 2
    ensures var buf := s + x + y + rest; buf[..2] == s && buf[2..] == x + (y + rest) && buf[2 + |x|..] == y + rest
  {
  }

  lemma AcceptedIsWellFormed(buf: seq<Byte>)
    requires ParseDecoded(buf).Ok?
    ensures var a := ParseDecoded(buf).value; Consistent(a) && Raw(a) <= buf
  {
    GroupsSound(buf[1], buf[2..], 0);
    var gs := TakeGroups(buf[1], buf[2..], 0).value;
    var n := |AllBytes(gs)|;
    TailSound(buf[0], buf[1], gs, buf[2 + n..]);
    var a := ParseDecoded(buf).value;
    PrefixesJoin(buf, AllBytes(gs), a.hist + Bytes(a.tck));
  }

  lemma TailComplete(a: Record, rest: seq<Byte>)
    requires Consistent(a)
    ensures TakeTail(a.ts, a.t0, a.groups, (a.hist + Bytes(a.tck)) + rest) == Ok(a)
  {
    var tail := (a.hist + Bytes(a.tck)) + rest;
    assert tail[..|a.hist|] == a.hist;
  }

  lemma WellFormedIsAccepted(a: Record, rest: seq<Byte>)
    requires Consistent(a)
    ensures ParseDecoded(Raw(a) + rest) == Ok(a)
  {
    var x, y := AllBytes(a.groups), a.hist + Bytes(a.tck);
    var buf := Raw(a) + rest;
    PrefixesSplit([a.ts, a.t0], x, y, rest);
    assert buf[0] == buf[..2][0] && buf[1] == buf[..2][1];
    GroupsComplete(a.t0, a.groups, y + rest, 0);
    TailComplete(a, rest);
  }

  lemma FirstIsNotThree(raw: seq<Byte>)
    requires raw != []
    ensures Decoded(raw)[0] != 0x03
  {
  }

  /** The parser accepts a buffer as record `a` exactly when `a` is well formed and the decoded
      buffer starts with what the printer makes of `a`. */
  lemma ParseExactly(raw: seq<Byte>, a: Record)
    ensures Parse(raw) == Ok(a) <==> WellFormed(a) && Raw(a) <= Decoded(raw)
  {
    var buf := Decoded(raw);
    if Parse(raw) == Ok(a) {
      AcceptedIsWellFormed(buf);
      FirstIsNotThree(raw);
    }
    if WellFormed(a) && Raw(a) <= buf {
      WellFormedIsAccepted(a, buf[|Raw(a)|..]);
      assert buf == Raw(a) + buf[|Raw(a)|..];
    }
  }

  /** Printed and parsed again, a well-formed record is unchanged. */
  lemma PrintThenParse(a: Record)
    requires WellFormed(a)
    ensures Parse(Raw(a)) == Ok(a)
  {
    ParseExactly(Raw(a), a);
  }

  // ---------------------------------------------------------------------------------------
  // What an accepted answer holds, bit by bit
  // ---------------------------------------------------------------------------------------

  /** T0 for the first group, and for every other the TD of the group before it. */
  function Announcer(t: Byte, gs: seq<Group>, k: nat): Byte
    requires k <= |gs| && forall j :: 0 <= j < k ==> gs[j][3].Some?
  {
    if k == 0 then t else gs[k - 1][3].value
  }

  ghost predicate AnnouncedAt(t: Byte, gs: seq<Group>, k: nat)
    requires k < |gs|
  {
    && (forall j :: 0 <= j < k ==> gs[j][3].Some?)
    && var d, g := Announcer(t, gs, k), gs[k];
       g[0].Some? == Bit(d, 4) && g[1].Some? == Bit(d, 5) && g[2].Some? == Bit(d, 6) && g[3].Some? == Bit(d, 7)
  }

  lemma ShapedBits(t: Byte, g: Group)
    requires Shaped(t, g)
    ensures g[0].Some? == Bit(t, 4) && g[1].Some? == Bit(t, 5) && g[2].Some? == Bit(t, 6) && g[3].Some? == Bit(t, 7)
  {
    assert Presence(g)[0] == Announcement(t)[0] && Presence(g)[1] == Announcement(t)[1];
    assert Presence(g)[2] == Announcement(t)[2] && Presence(g)[3] == Announcement(t)[3];
  }

  lemma {:induction false} ChainedBits(t: Byte, gs: seq<Group>, k: nat)
    requires Chained(t, gs) && k < |gs|
    ensures AnnouncedAt(t, gs, k)
    decreases k
  {
    if k == 0 {
      ShapedBits(t, gs[0]);
    } else {
      var rest := gs[1..];
      ChainedBits(gs[0][3].value, rest, k - 1);
      forall j | 0 <= j < k ensures gs[j][3].Some? {
        assert j > 0 ==> rest[j - 1][3].Some?;
      }
    }
  }

  lemma {:induction false} ChainedEnds(t: Byte, gs: seq<Group>, present: bool)
    requires Chained(t, gs)
    ensures gs[|gs| - 1][3].None? && (|gs| >= 2 ==> gs[|gs| - 2][3].Some?)
    ensures LastTd(gs, present) == if |gs| >= 2 then gs[|gs| - 2][3].value as int % 16 != 0 else present
    decreases |gs|
  {
    if |gs| >= 2 {
      ChainedEnds(gs[0][3].value, gs[1..], NeedsCheck(gs[0][3].value));
    } else {
      assert gs[1..] == [];
    }
  }

  /** In a record the parser accepts, TA, TB, TC and TD of every group are there exactly if bits 4
      to 7 of its announcer are set, the historical bytes are as many as the low half of T0 says,
      and the check byte is there exactly if there is a TD and the low half of the last is not zero. */
  lemma AcceptedBits(raw: seq<Byte>, a: Record)
    requires Parse(raw) == Ok(a)
    ensures 1 <= |a.groups| <= 7 && forall k :: 0 <= k < |a.groups| ==> AnnouncedAt(a.t0, a.groups, k)
    ensures a.groups[|a.groups| - 1][3].None? && (|a.groups| >= 2 ==> a.groups[|a.groups| - 2][3].Some?)
    ensures |a.hist| == a.t0 as int % 16
    ensures a.tck.Some? <==> |a.groups| >= 2 && a.groups[|a.groups| - 2][3].value as int % 16 != 0
  {
    ParseExactly(raw, a);
    forall k | 0 <= k < |a.groups| ensures AnnouncedAt(a.t0, a.groups, k) { ChainedBits(a.t0, a.groups, k); }
    ChainedEnds(a.t0, a.groups, false);
    NibbleCounts(a.t0);
    LowHalf(a.t0);
  }

  // ---------------------------------------------------------------------------------------
  // When the parser leaves its array
  // ---------------------------------------------------------------------------------------

  /** Every group announced, and every one with a TD. */
  predicate Open(t: Byte, gs: seq<Group>)
    decreases |gs|
  {
    gs == [] || (Shaped(t, gs[0]) && gs[0][3].Some? && Open(gs[0][3].value, gs[1..]))
  }

  function LastOf(t: Byte, gs: seq<Group>): Byte
    requires Open(t, gs)
    decreases |gs|
  {
    if gs == [] then t else LastOf(gs[0][3].value, gs[1..])
  }

  /** `gs` starts the input, and the bytes that its last TD announces are there as well. */
  predicate Leads(t: Byte, gs: seq<Group>, rest: seq<Byte>) {
    Open(t, gs) && AllBytes(gs) <= rest && |AllBytes(gs)| + Announced(LastOf(t, gs)) <= |rest|
  }

  lemma LeadsStep(t: Byte, g: Group, gs: seq<Group>, more: seq<Byte>)
    requires Shaped(t, g) && g[3].Some?
    ensures Leads(t, [g] + gs, Flat(g) + more) <==> Leads(g[3].value, gs, more)
  {
    assert ([g] + gs)[1..] == gs;
    var all, rest := Flat(g) + AllBytes(gs), Flat(g) + more;
    assert AllBytes([g] + gs) == all;
    if all <= rest {
      assert AllBytes(gs) == all[|Flat(g)|..] && more == rest[|Flat(g)|..];
    }
  }

  lemma {:induction false} OverrunLeads(t: Byte, rest: seq<Byte>, pn: nat) returns (gs: seq<Group>)
    requires TakeGroups(t, rest, pn) == Overrun && pn <= MAX_PROTOCOLS
    ensures |gs| + pn == MAX_PROTOCOLS && Leads(t, gs, rest)
    decreases |rest|
  {
    if pn == MAX_PROTOCOLS {
      gs := [];
    } else {
      var g, more := SplitGroup(t, rest);
      TakeStep(t, g, more, pn);
      gs := OverrunLeads(g[3].value, more, pn + 1);
      LeadsStep(t, g, gs, more);
      gs := [g] + gs;
    }
  }

  lemma {:induction false} LeadsOverruns(t: Byte, gs: seq<Group>, rest: seq<Byte>, pn: nat)
    requires |gs| + pn == MAX_PROTOCOLS && Leads(t, gs, rest)
    ensures TakeGroups(t, rest, pn) == Overrun
    decreases |gs|
  {
    if gs != [] {
      var g, more := gs[0], rest[|Flat(gs[0])|..];
      assert rest == Flat(g) + more;
      assert gs == [g] + gs[1..];
      LeadsStep(t, g, gs[1..], more);
      TakeStep(t, g, more, pn);
      LeadsOverruns(g[3].value, gs[1..], more, pn + 1);
    }
  }

  /** The parser writes behind its array exactly when seven TD bytes follow one another and the
      bytes announced by the seventh are there. */
  lemma OverrunExactly(raw: seq<Byte>)
    requires |raw| >= 2
    ensures var buf := Decoded(raw);
            Parse(raw) == Overrun <==> exists gs :: |gs| == 7 && Leads(buf[1], gs, buf[2..])
  {
    var buf := Decoded(raw);
    if Parse(raw) == Overrun {
      var gs := OverrunLeads(buf[1], buf[2..], 0);
    }
    forall gs | |gs| == MAX_PROTOCOLS && Leads(buf[1], gs, buf[2..]) ensures Parse(raw) == Overrun {
      LeadsOverruns(buf[1], gs, buf[2..], 0);
    }
  }

  lemma OnlyTd(t: Byte)
    requires t == 0x80
    ensures Announcement(t) == [false, false, false, true] && Announced(t) == 1
  {
  }

  lemma FlatFour(g: Group)
    ensures Flat(g) == Bytes(g[0]) + Bytes(g[1]) + Bytes(g[2]) + Bytes(g[3])
  {
    var h: seq<Option<Byte>> := g;
    assert h[1..][1..] == h[2..] && h[2..][1..] == h[3..] && h[3..][1..] == [];
    assert Flat(h[3..]) == Bytes(h[3]);
    assert Flat(h[2..]) == Bytes(h[2]) + Bytes(h[3]);
  }

  lemma TdGroup(t: Byte, d: Byte) returns (g: Group)
    requires t == 0x80
    ensures Shaped(t, g) && Flat(g) == [d] && g[3] == Some(d)
  {
    OnlyTd(t);
    g := [None, None, None, Some(d)];
    assert Presence(g) == Announcement(t);
    FlatFour(g);
    assert Bytes(g[0]) + Bytes(g[1]) + Bytes(g[2]) + Bytes(g[3]) == [d];
  }

  lemma {:induction false} OnlyTdsOverrun(t: Byte, rest: seq<Byte>, pn: nat)
    requires t == 0x80 && pn <= MAX_PROTOCOLS && |rest| >= 8 - pn && forall b :: b in rest ==> b == t
    ensures TakeGroups(t, rest, pn) == Overrun
    decreases |rest|
  {
    OnlyTd(t);
    if pn < MAX_PROTOCOLS {
      assert rest[0] in rest && forall b :: b in rest[1..] ==> b in rest;
      var g := TdGroup(t, rest[0]);
      assert Flat(g) + rest[1..] == rest;
      TakeStep(t, g, rest[1..], pn);
      OnlyTdsOverrun(t, rest[1..], pn + 1);
    }
  }

  /** Such an answer: 0x3B and nine bytes 0x80. */
  lemma TenBytesOverrun(t: Byte)
    requires t == 0x80
    ensures Parse([0x3B, t, t, t, t, t, t, t, t, t]) == Overrun
  {
    var raw := [0x3B, t, t, t, t, t, t, t, t, t];
    OnlyTdsOverrun(t, raw[2..], 0);
  }

  // ---------------------------------------------------------------------------------------
  // The interrupt handler's decoding
  // ---------------------------------------------------------------------------------------

  datatype Convention = NotDefined | Invert | Uninvert

  /** The first byte of an answer that names a convention fixes it. */
  function Learn(c: Convention, b: Byte): Convention {
    if c.NotDefined? then (if b == 0x03 then Invert else if b == 0x3B then Uninvert else c) else c
  }

  function Heard(c: Convention, b: Byte): Byte { if c.Invert? then InversionAt(b) else b }

  /** The bytes of an answer to reset as the handler stores them. */
  function Receive(c: Convention, raw: seq<Byte>): (r: seq<Byte>)
    ensures |r| == |raw|
    decreases |raw|
  {
    if raw == [] then [] else var c' := Learn(c, raw[0]); [Heard(c', raw[0])] + Receive(c', raw[1..])
  }

  lemma HeardInverted(b: Byte)
    ensures Heard(Invert, b) == Inverse(b)
  {
    TableIsInverse(b);
  }

  lemma {:induction false} ReceiveInverted(raw: seq<Byte>)
    ensures Receive(Invert, raw) == Inverted(raw)
  {
    if raw != [] {
      HeardInverted(raw[0]);
      ReceiveInverted(raw[1..]);
      assert Inverted(raw) == [Inverse(raw[0])] + Inverted(raw[1..]);
    }
  }

  lemma {:induction false} ReceivePlain(raw: seq<Byte>)
    ensures Receive(Uninvert, raw) == raw
  {
    if raw != [] {
      ReceivePlain(raw[1..]);
    }
  }

  /** An answer that starts with either convention's first byte is parsed to the same record
      whether the handler decoded it before or the parser decodes it. */
  lemma HandlerAndParserAgree(raw: seq<Byte>)
    requires raw != [] && (raw[0] == 0x03 || raw[0] == 0x3B)
    ensures Parse(Receive(NotDefined, raw)) == Parse(raw)
  {
    var got := Receive(NotDefined, raw);
    if raw[0] == 0x03 {
      assert got == Receive(Invert, raw);
      ReceiveInverted(raw);
      FirstIsNotThree(raw);
    } else {
      assert got == Receive(Uninvert, raw);
      ReceivePlain(raw);
    }
  }
}
