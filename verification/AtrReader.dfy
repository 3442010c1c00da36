/** The answer to reset, read and printed step by step. */
module AtrReader {
  import opened Atr

  /** One interface byte, if it is announced; `pointer` is the last byte read. */
  method ReadByte(hs: seq<bool>, buf: seq<Byte>, pointer: nat) returns (o: Option<Byte>, pointer': nat)
    requires hs != [] && pointer < |buf| && Count(hs) <= |buf| - pointer - 1
    ensures pointer <= pointer' < |buf| && pointer' + Count(hs[1..]) == pointer + Count(hs)
    ensures Take(hs, buf[pointer + 1..]) == [o] + Take(hs[1..], buf[pointer' + 1..])
  {
    pointer' := pointer;
    if hs[0] {
      pointer' := pointer' + 1;
      o := Some(buf[pointer']);
      assert buf[pointer + 1..][1..] == buf[pointer' + 1..];
    } else {
      o := None;
    }
  }

  /** The four bytes of a protocol. */
  method ReadGroup(t: Byte, buf: seq<Byte>, pointer: nat) returns (g: Group, pointer': nat)
    requires pointer < |buf| && Announced(t) <= |buf| - pointer - 1
    ensures pointer' < |buf| && pointer' == pointer + Announced(t) && g == Take(Announcement(t), buf[pointer + 1..])
  {
    var hs := [t | 0xEF == 0xFF, t | 0xDF == 0xFF, t | 0xBF == 0xFF, t | 0x7F == 0xFF];
    MasksTest(t);
    assert hs[1..][1..] == hs[2..] && hs[2..][1..] == hs[3..] && hs[3..][1..] == [];
    var a, b, c, d;
    a, pointer' := ReadByte(hs, buf, pointer);
    b, pointer' := ReadByte(hs[1..], buf, pointer');
    c, pointer' := ReadByte(hs[2..], buf, pointer');
    d, pointer' := ReadByte(hs[3..], buf, pointer');
    g := [a, b, c, d];
  }

  lemma OntoTwice(gs: seq<Group>, g: Group, r: Parsed<seq<Group>>)
    ensures Onto(gs, Onto([g], r)) == Onto(gs + [g], r)
  {
    if r.Ok? {
      assert gs + ([g] + r.value) == (gs + [g]) + r.value;
    }
  }

  /** The group just read, and what the parser makes of the rest. */
  lemma GroupTaken(t: Byte, rest: seq<Byte>, pn: nat, g: Group)
    requires Announced(t) <= |rest| && pn < MAX_PROTOCOLS && g == Take(Announcement(t), rest)
    ensures TakeGroups(t, rest, pn) == if g[3].None? then Ok([g]) else Onto([g], TakeGroups(g[3].value, rest[Announced(t)..], pn + 1))
    ensures |Flat(g)| == Announced(t) && (g[3].Some? ==> Announced(t) > 0)
  {
    TakeReads(Announcement(t), rest);
    if g[3].Some? {
      CountSome(Announcement(t), 3);
    }
  }

  lemma {:induction false} AllBytesOnward(gs: seq<Group>, g: Group)
    ensures AllBytes(gs + [g]) == AllBytes(gs) + Flat(g)
  {
    if gs == [] {
      assert gs + [g] == [g] && [g][1..] == [];
    } else {
      assert (gs + [g])[1..] == gs[1..] + [g];
      AllBytesOnward(gs[1..], g);
    }
  }

  lemma {:induction false} LastTdOnward(gs: seq<Group>, g: Group, present: bool)
    ensures LastTd(gs + [g], present) == if g[3].Some? then NeedsCheck(g[3].value) else LastTd(gs, present)
    decreases |gs|
  {
    if gs == [] {
      assert gs + [g] == [g] && [g][1..] == [];
    } else {
      assert (gs + [g])[1..] == gs[1..] + [g];
      LastTdOnward(gs[1..], g, if gs[0][3].Some? then NeedsCheck(gs[0][3].value) else present);
    }
  }

  lemma NothingYet(r: Parsed<seq<Group>>)
    ensures Onto([], r) == r
  {
    if r.Ok? {
      assert [] + r.value == r.value;
    }
  }

  /** The loop over the protocols. `check` is whether the last TD asks for a check byte. */
  method ReadGroups(buf: seq<Byte>) returns (r: Parsed<seq<Group>>, pointer: nat, check: bool)
    requires |buf| >= 2
    ensures r == TakeGroups(buf[1], buf[2..], 0)
    ensures r.Ok? ==> pointer == 1 + |AllBytes(r.value)| < |buf| && check == LastTd(r.value, false)
  {
    var t, pn, gs: seq<Group> := buf[1], 0, [];
    pointer, check := 1, false;
    ghost var goal := TakeGroups(buf[1], buf[2..], 0);
    NothingYet(goal);
    while true
      invariant pointer < |buf| && |gs| == pn && check == LastTd(gs, false) && pointer == 1 + |AllBytes(gs)|
      invariant goal == Onto(gs, TakeGroups(t, buf[pointer + 1..], pn))
      decreases |buf| - pointer
    {
      ghost var rest := buf[pointer + 1..];
      TableCounts(t);
      if pointer + NumInterfaceBytes(t) >= |buf| { return Malformed, pointer, check; }
      if pn >= MAX_PROTOCOLS { return Overrun, pointer, check; }
      var g;
      g, pointer := ReadGroup(t, buf, pointer);
      assert rest[Announced(t)..] == buf[pointer + 1..];
      GroupTaken(t, rest, pn, g);
      LastTdOnward(gs, g, false);
      AllBytesOnward(gs, g);
      if g[3].None? { return Ok(gs + [g]), pointer, check; }
      OntoTwice(gs, g, TakeGroups(g[3].value, buf[pointer + 1..], pn + 1));
      gs := gs + [g];
      LowHalf(g[3].value);
      t, check, pn := g[3].value, g[3].value & 0xf != 0, pn + 1;
    }
  }

  /** The buffer decoded if its first byte says so. */
  method Decode(raw: seq<Byte>) returns (buf: seq<Byte>)
    ensures buf == Decoded(raw)
  {
    if raw == [] || raw[0] != 0x03 { return raw; }
    buf := [];
    for i := 0 to |raw|
      invariant |buf| == i && forall k :: 0 <= k < i ==> buf[k] == Inverse(raw[k])
    {
      buf := buf + [Inverse(raw[i])];
    }
  }

  /** The clock and TB1 checks of a card with a single protocol. */
  method CheckSingle(gs: seq<Group>) returns (ok: bool)
    ensures ok == SingleOk(gs)
  {
    if |gs| == 1 && gs[0][0].Some? {
      ClockFromTable(gs[0][0].value);
      if ClockRate(gs[0][0].value) == 0 { return false; }
    }
    if |gs| == 1 && gs[0][1].Some? {
      if gs[0][1].value > 0x80 { return false; }
    }
    return true;
  }

  method HistoryLength(t0: Byte) returns (n: nat)
    ensures n == History(t0)
  {
    NibbleCounts(t0);
    n := (t0 & 0xf) as int;
  }

  /** History, check byte and the last checks. */
  method ReadTail(buf: seq<Byte>, at: nat, check: bool, gs: seq<Group>) returns (r: Parsed<Record>, length: nat)
    requires at == 1 + |AllBytes(gs)| < |buf| && check == LastTd(gs, false)
    ensures r == TakeTail(buf[0], buf[1], gs, buf[at + 1..])
    ensures r.Ok? ==> length == |Raw(r.value)|
  {
    ghost var rest := buf[at + 1..];
    var hbn := HistoryLength(buf[1]);
    var pointer := at;
    if pointer + hbn >= |buf| { return Malformed, 0; }
    var hist := buf[pointer + 1..pointer + 1 + hbn];
    assert hist == rest[..hbn];
    pointer := pointer + hbn;
    var tck := None;
    if check {
      if pointer + 1 >= |buf| { return Malformed, 0; }
      pointer := pointer + 1;
      tck := Some(buf[pointer]);
    }
    var ok := CheckSingle(gs);
    if !ok { return Malformed, 0; }
    return Ok(Record(buf[0], buf[1], gs, hist, tck)), pointer + 1;
  }

  /** Reads an answer to reset, and says how many of its bytes belong to the record. */
  method InitFromArray(raw: seq<Byte>) returns (r: Parsed<Record>, length: nat)
    requires |raw| <= MAX_SIZE
    ensures r == Parse(raw)
    ensures r.Ok? ==> length <= |raw| && Raw(r.value) == Decoded(raw)[..length]
  {
    if |raw| < 2 { return Malformed, 0; }
    var buf := Decode(raw);
    var groups, pointer, check := ReadGroups(buf);
    if groups.Malformed? { return Malformed, 0; }
    if groups.Overrun? { return Overrun, 0; }
    r, length := ReadTail(buf, pointer, check, groups.value);
    if r.Ok? { ParseExactly(raw, r.value); }
  }

  /** One byte into the buffer, if it is there. */
  method PutByte(buffer: array<Byte>, j: nat, o: Option<Byte>) returns (j': nat)
    requires j + One(o.Some?) <= buffer.Length
    modifies buffer
    ensures j' == j + |Bytes(o)| && buffer[..j'] == old(buffer[..j]) + Bytes(o)
  {
    j' := j;
    if o.Some? {
      buffer[j] := o.value;
      j' := j + 1;
    }
  }

  method PutGroup(buffer: array<Byte>, j: nat, g: Group) returns (j': nat)
    requires j + |Flat(g)| <= buffer.Length
    modifies buffer
    ensures j' == j + |Flat(g)| && buffer[..j'] == old(buffer[..j]) + Flat(g)
  {
    FlatFour(g);
    j' := PutByte(buffer, j, g[0]);
    j' := PutByte(buffer, j', g[1]);
    j' := PutByte(buffer, j', g[2]);
    j' := PutByte(buffer, j', g[3]);
  }

  lemma GroupsBefore(gs: seq<Group>, i: nat)
    requires i < |gs|
    ensures AllBytes(gs[..i + 1]) == AllBytes(gs[..i]) + Flat(gs[i])
  {
    assert gs[..i + 1] == gs[..i] + [gs[i]];
    AllBytesOnward(gs[..i], gs[i]);
  }

  lemma {:induction false} GroupsWithin(gs: seq<Group>, i: nat)
    requires i <= |gs|
    ensures |AllBytes(gs[..i])| <= |AllBytes(gs)|
    decreases |gs| - i
  {
    if i < |gs| {
      GroupsBefore(gs, i);
      GroupsWithin(gs, i + 1);
    } else {
      assert gs[..i] == gs;
    }
  }

  method PutGroups(buffer: array<Byte>, j: nat, gs: seq<Group>) returns (j': nat)
    requires j + |AllBytes(gs)| <= buffer.Length
    modifies buffer
    ensures j' == j + |AllBytes(gs)| && buffer[..j'] == old(buffer[..j]) + AllBytes(gs)
  {
    j' := j;
    for i := 0 to |gs|
      invariant j' == j + |AllBytes(gs[..i])| && j' <= buffer.Length
      invariant buffer[..j'] == old(buffer[..j]) + AllBytes(gs[..i])
    {
      GroupsBefore(gs, i);
      GroupsWithin(gs, i + 1);
      j' := PutGroup(buffer, j', gs[i]);
    }
    assert gs[..|gs|] == gs;
  }

  method PutHistory(buffer: array<Byte>, j: nat, hist: seq<Byte>) returns (j': nat)
    requires j + |hist| <= buffer.Length
    modifies buffer
    ensures j' == j + |hist| && buffer[..j'] == old(buffer[..j]) + hist
  {
    forall k | 0 <= k < |hist| {
      buffer[j + k] := hist[k];
    }
    j' := j + |hist|;
  }

  /** Prints a record into a buffer and says how long it is. */
  method GetRaw(a: Record, buffer: array<Byte>) returns (length: nat)
    requires |Raw(a)| <= buffer.Length
    modifies buffer
    ensures length == |Raw(a)| && buffer[..length] == Raw(a)
  {
    buffer[0] := a.ts;
    buffer[1] := a.t0;
    var j := PutGroups(buffer, 2, a.groups);
    j := PutHistory(buffer, j, a.hist);
    length := PutByte(buffer, j, a.tck);
  }
}
