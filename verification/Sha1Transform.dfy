/** The compression function as the program writes it: eighty unrolled steps over rotated register
    names, with the schedule expanded in place in a ring of sixteen words. */
module Sha1Transform {
  import opened Words
  import opened Sha1Spec

  /** The macro that rotates. */
  function Rol(value: Word, bits: Word): Word
    requires 0 < bits < 32
  {
    (value << bits) | (value >> (32 - bits))
  }

  lemma RolIsRotation(x: Word)
    ensures Rol(x, 1) == Rol1(x) && Rol(x, 5) == Rol5(x) && Rol(x, 30) == Rol30(x)
  {
  }

  /** The words around step `t` of schedule `s`: `block` holds the sixteen words before step `t`,
      each at its number modulo 16; in the first sixteen steps it holds the message. */
  ghost predicate Window(block: seq<Word>, s: seq<Word>, t: nat)
    requires |block| == 16 && |s| == 80
  {
    if t <= 16 then block == s[..16]
    else forall k :: t - 16 <= k < t && k < 80 ==> block[k % 16] == s[k]
  }

  /** Word `t` is expanded from the sixteen words before it. */
  ghost predicate Expanded(s: seq<Word>, t: nat)
    requires 16 <= t < |s|
  {
    s[t] == NextWord(s, t)
  }

  ghost predicate IsSchedule(s: seq<Word>) {
    |s| == 80 && forall t :: 16 <= t < 80 ==> Expanded(s, t)
  }

  lemma {:induction false} ScheduleIsExpanded(m: seq<Word>, n: nat)
    requires |m| == 16 && 16 <= n
    ensures Schedule(m, n)[..16] == m
    ensures forall t :: 16 <= t < n ==> Expanded(Schedule(m, n), t)
  {
    if n > 16 {
      ScheduleIsExpanded(m, n - 1);
      var s, s' := Schedule(m, n), Schedule(m, n - 1);
      forall t | 16 <= t < n ensures Expanded(s, t) {
        if t < n - 1 { assert Expanded(s', t); }
        NextWordOfPrefix(s', s, t);
      }
    }
  }

  lemma NextWordOfPrefix(s': seq<Word>, s: seq<Word>, t: nat)
    requires s' <= s && 16 <= t <= |s'|
    ensures NextWord(s', t) == NextWord(s, t)
  {
  }

  /** The registers before each of the eighty rounds and after the last. */
  ghost predicate IsTrace(trace: seq<Regs>, s: seq<Word>) {
    |s| == 80 && |trace| == 81 && forall t :: 0 <= t < 80 ==> OneRound(trace, s, t)
  }

  ghost predicate OneRound(trace: seq<Regs>, s: seq<Word>, t: nat)
    requires t < |s| && t + 1 < |trace|
  {
    trace[t + 1] == Round(trace[t], s[t], t)
  }

  ghost function Trace(h: Regs, s: seq<Word>, n: nat): (trace: seq<Regs>)
    requires n <= |s|
    ensures |trace| == n + 1
  {
    if n == 0 then [h] else Trace(h, s, n - 1) + [Rounds(h, s, n)]
  }

  lemma {:induction false} TraceIsRounds(h: Regs, s: seq<Word>, n: nat)
    requires n <= |s|
    ensures forall t :: 0 <= t <= n ==> Trace(h, s, n)[t] == Rounds(h, s, t)
  {
    if n > 0 { TraceIsRounds(h, s, n - 1); }
  }

  lemma TraceIsTrace(h: Regs, s: seq<Word>)
    requires |s| == 80
    ensures IsTrace(Trace(h, s, |s|), s)
    ensures Trace(h, s, |s|)[0] == h && Trace(h, s, |s|)[80] == Rounds(h, s, |s|)
  {
    var trace := Trace(h, s, |s|);
    TraceIsRounds(h, s, |s|);
    forall t: nat | t < 80 ensures OneRound(trace, s, t) {
      assert trace[t] == Rounds(h, s, t) && trace[t + 1] == Rounds(h, s, t + 1);
    }
    assert Rounds(h, s, 0) == h;
  }

  /** A word of the message, where the host's byte order is that of the standard. */
  method Blk0(block: array<Word>, i: nat, ghost s: seq<Word>) returns (word: Word)
    requires block.Length == 16 && i < 16 && IsSchedule(s) && Window(block[..], s, i)
    ensures word == s[i] && Window(block[..], s, i + 1)
  {
    word := block[i];
    assert word == block[..][i];
    assert i == 15 ==> forall k :: 0 <= k < 16 ==> block[k % 16] == block[..][k];
  }

  /** The next word of the schedule, from four of the sixteen before it. */
  method Mix(block: array<Word>, i: nat, ghost s: seq<Word>) returns (word: Word)
    requires block.Length == 16 && 16 <= i < 80 && IsSchedule(s) && Window(block[..], s, i)
    ensures word == s[i]
  {
    WindowIndices(block[..], s, i);
    assert Expanded(s, i);
    var mixed := block[(i + 13) % 16] ^ block[(i + 8) % 16] ^ block[(i + 2) % 16] ^ block[i % 16];
    RolIsRotation(mixed);
    word := Rol(mixed, 1);
  }

  /** It is written over the one sixteen steps back. */
  method Blk(block: array<Word>, i: nat, ghost s: seq<Word>) returns (word: Word)
    requires block.Length == 16 && 16 <= i < 80 && IsSchedule(s) && Window(block[..], s, i)
    modifies block
    ensures word == s[i] && Window(block[..], s, i + 1)
  {
    word := Mix(block, i, s);
    block[i % 16] := word;
    forall k | i - 15 <= k < i ensures k % 16 != i % 16 {}
  }

  method Sum(x: Word, y: Word) returns (s: Word)
    ensures s == Plus(x, y)
  {
    s := x + y;
  }

  /** What the five macros share: the sum into `z` and the rotation of `w`. */
  method Operate(v: Word, w: Word, z: Word, f: Word, word: Word, k: Word) returns (z': Word, w': Word)
    ensures z' == Temp(z, f, word, k, v) && w' == Rol30(w)
  {
    RolIsRotation(v);
    RolIsRotation(w);
    var sum := Sum(f, word);
    sum := Sum(sum, k);
    sum := Sum(sum, Rol(v, 5));
    z' := Sum(z, sum);
    w' := Rol(w, 30);
  }

  lemma R0IsRound(v: Word, w: Word, x: Word, y: Word, z: Word, word: Word, i: nat)
    requires 0 <= i < 16
    ensures Round(Regs(v, w, x, y, z), word, i) == Regs(Temp(z, ((w & (x ^ y)) ^ y), word, 0x5A827999, v), v, Rol30(w), x, y)
  {
  }

  method R0(block: array<Word>, v: Word, w: Word, x: Word, y: Word, z: Word, i: nat, ghost trace: seq<Regs>, ghost s: seq<Word>)
    returns (z': Word, w': Word)
    requires block.Length == 16 && 0 <= i < 16 && IsSchedule(s) && IsTrace(trace, s) && Window(block[..], s, i)
    requires Regs(v, w, x, y, z) == trace[i]
    modifies block
    ensures Window(block[..], s, i + 1) && Regs(z', v, w', x, y) == trace[i + 1]
  {
    var word := Blk0(block, i, s);
    assert OneRound(trace, s, i);
    R0IsRound(v, w, x, y, z, word, i);
    z', w' := Operate(v, w, z, ((w & (x ^ y)) ^ y), word, 0x5A827999);
  }

  lemma R1IsRound(v: Word, w: Word, x: Word, y: Word, z: Word, word: Word, i: nat)
    requires 16 <= i < 20
    ensures Round(Regs(v, w, x, y, z), word, i) == Regs(Temp(z, ((w & (x ^ y)) ^ y), word, 0x5A827999, v), v, Rol30(w), x, y)
  {
  }

  method R1(block: array<Word>, v: Word, w: Word, x: Word, y: Word, z: Word, i: nat, ghost trace: seq<Regs>, ghost s: seq<Word>)
    returns (z': Word, w': Word)
    requires block.Length == 16 && 16 <= i < 20 && IsSchedule(s) && IsTrace(trace, s) && Window(block[..], s, i)
    requires Regs(v, w, x, y, z) == trace[i]
    modifies block
    ensures Window(block[..], s, i + 1) && Regs(z', v, w', x, y) == trace[i + 1]
  {
    var word := Blk(block, i, s);
    assert OneRound(trace, s, i);
    R1IsRound(v, w, x, y, z, word, i);
    z', w' := Operate(v, w, z, ((w & (x ^ y)) ^ y), word, 0x5A827999);
  }

  lemma R2IsRound(v: Word, w: Word, x: Word, y: Word, z: Word, word: Word, i: nat)
    requires 20 <= i < 40
    ensures Round(Regs(v, w, x, y, z), word, i) == Regs(Temp(z, (w ^ x ^ y), word, 0x6ED9EBA1, v), v, Rol30(w), x, y)
  {
  }

  method R2(block: array<Word>, v: Word, w: Word, x: Word, y: Word, z: Word, i: nat, ghost trace: seq<Regs>, ghost s: seq<Word>)
    returns (z': Word, w': Word)
    requires block.Length == 16 && 20 <= i < 40 && IsSchedule(s) && IsTrace(trace, s) && Window(block[..], s, i)
    requires Regs(v, w, x, y, z) == trace[i]
    modifies block
    ensures Window(block[..], s, i + 1) && Regs(z', v, w', x, y) == trace[i + 1]
  {
    var word := Blk(block, i, s);
    assert OneRound(trace, s, i);
    R2IsRound(v, w, x, y, z, word, i);
    z', w' := Operate(v, w, z, (w ^ x ^ y), word, 0x6ED9EBA1);
  }

  lemma R3IsRound(v: Word, w: Word, x: Word, y: Word, z: Word, word: Word, i: nat)
    requires 40 <= i < 60
    ensures Round(Regs(v, w, x, y, z), word, i) == Regs(Temp(z, (((w | x) & y) | (w & x)), word, 0x8F1BBCDC, v), v, Rol30(w), x, y)
  {
  }

  method R3(block: array<Word>, v: Word, w: Word, x: Word, y: Word, z: Word, i: nat, ghost trace: seq<Regs>, ghost s: seq<Word>)
    returns (z': Word, w': Word)
    requires block.Length == 16 && 40 <= i < 60 && IsSchedule(s) && IsTrace(trace, s) && Window(block[..], s, i)
    requires Regs(v, w, x, y, z) == trace[i]
    modifies block
    ensures Window(block[..], s, i + 1) && Regs(z', v, w', x, y) == trace[i + 1]
  {
    var word := Blk(block, i, s);
    assert OneRound(trace, s, i);
    R3IsRound(v, w, x, y, z, word, i);
    z', w' := Operate(v, w, z, (((w | x) & y) | (w & x)), word, 0x8F1BBCDC);
  }

  lemma R4IsRound(v: Word, w: Word, x: Word, y: Word, z: Word, word: Word, i: nat)
    requires 60 <= i < 80
    ensures Round(Regs(v, w, x, y, z), word, i) == Regs(Temp(z, (w ^ x ^ y), word, 0xCA62C1D6, v), v, Rol30(w), x, y)
  {
  }

  method R4(block: array<Word>, v: Word, w: Word, x: Word, y: Word, z: Word, i: nat, ghost trace: seq<Regs>, ghost s: seq<Word>)
    returns (z': Word, w': Word)
    requires block.Length == 16 && 60 <= i < 80 && IsSchedule(s) && IsTrace(trace, s) && Window(block[..], s, i)
    requires Regs(v, w, x, y, z) == trace[i]
    modifies block
    ensures Window(block[..], s, i + 1) && Regs(z', v, w', x, y) == trace[i + 1]
  {
    var word := Blk(block, i, s);
    assert OneRound(trace, s, i);
    R4IsRound(v, w, x, y, z, word, i);
    z', w' := Operate(v, w, z, (w ^ x ^ y), word, 0xCA62C1D6);
  }

  /** Step `i` is due: the block holds the window of the schedule and the registers are those of the trace. */
  ghost predicate Ready(block: array<Word>, r: Regs, i: nat, trace: seq<Regs>, s: seq<Word>)
    reads block
  {
    block.Length == 16 && i <= 80 && IsSchedule(s) && IsTrace(trace, s) && Window(block[..], s, i) && r == trace[i]
  }

  // Five steps bring the names of the registers back to where they were.

  method FiveR0(block: array<Word>, a0: Word, b0: Word, c0: Word, d0: Word, e0: Word, i: nat, ghost trace: seq<Regs>, ghost s: seq<Word>)
    returns (a: Word, b: Word, c: Word, d: Word, e: Word)
    requires i + 5 <= 16 && Ready(block, Regs(a0, b0, c0, d0, e0), i, trace, s)
    modifies block
    ensures Ready(block, Regs(a, b, c, d, e), i + 5, trace, s)
  {
    a, b, c, d, e := a0, b0, c0, d0, e0;
    e, b := R0(block, a, b, c, d, e, i, trace, s);
    d, a := R0(block, e, a, b, c, d, i + 1, trace, s);
    c, e := R0(block, d, e, a, b, c, i + 2, trace, s);
    b, d := R0(block, c, d, e, a, b, i + 3, trace, s);
    a, c := R0(block, b, c, d, e, a, i + 4, trace, s);
  }

  method FiveR0R1(block: array<Word>, a0: Word, b0: Word, c0: Word, d0: Word, e0: Word, i: nat, ghost trace: seq<Regs>, ghost s: seq<Word>)
    returns (a: Word, b: Word, c: Word, d: Word, e: Word)
    requires i == 15 && Ready(block, Regs(a0, b0, c0, d0, e0), i, trace, s)
    modifies block
    ensures Ready(block, Regs(a, b, c, d, e), i + 5, trace, s)
  {
    a, b, c, d, e := a0, b0, c0, d0, e0;
    e, b := R0(block, a, b, c, d, e, i, trace, s);
    d, a := R1(block, e, a, b, c, d, i + 1, trace, s);
    c, e := R1(block, d, e, a, b, c, i + 2, trace, s);
    b, d := R1(block, c, d, e, a, b, i + 3, trace, s);
    a, c := R1(block, b, c, d, e, a, i + 4, trace, s);
  }

  method FiveR2(block: array<Word>, a0: Word, b0: Word, c0: Word, d0: Word, e0: Word, i: nat, ghost trace: seq<Regs>, ghost s: seq<Word>)
    returns (a: Word, b: Word, c: Word, d: Word, e: Word)
    requires 20 <= i && i + 5 <= 40 && Ready(block, Regs(a0, b0, c0, d0, e0), i, trace, s)
    modifies block
    ensures Ready(block, Regs(a, b, c, d, e), i + 5, trace, s)
  {
    a, b, c, d, e := a0, b0, c0, d0, e0;
    e, b := R2(block, a, b, c, d, e, i, trace, s);
    d, a := R2(block, e, a, b, c, d, i + 1, trace, s);
    c, e := R2(block, d, e, a, b, c, i + 2, trace, s);
    b, d := R2(block, c, d, e, a, b, i + 3, trace, s);
    a, c := R2(block, b, c, d, e, a, i + 4, trace, s);
  }

  method FiveR3(block: array<Word>, a0: Word, b0: Word, c0: Word, d0: Word, e0: Word, i: nat, ghost trace: seq<Regs>, ghost s: seq<Word>)
    returns (a: Word, b: Word, c: Word, d: Word, e: Word)
    requires 40 <= i && i + 5 <= 60 && Ready(block, Regs(a0, b0, c0, d0, e0), i, trace, s)
    modifies block
    ensures Ready(block, Regs(a, b, c, d, e), i + 5, trace, s)
  {
    a, b, c, d, e := a0, b0, c0, d0, e0;
    e, b := R3(block, a, b, c, d, e, i, trace, s);
    d, a := R3(block, e, a, b, c, d, i + 1, trace, s);
    c, e := R3(block, d, e, a, b, c, i + 2, trace, s);
    b, d := R3(block, c, d, e, a, b, i + 3, trace, s);
    a, c := R3(block, b, c, d, e, a, i + 4, trace, s);
  }

  method FiveR4(block: array<Word>, a0: Word, b0: Word, c0: Word, d0: Word, e0: Word, i: nat, ghost trace: seq<Regs>, ghost s: seq<Word>)
    returns (a: Word, b: Word, c: Word, d: Word, e: Word)
    requires 60 <= i && i + 5 <= 80 && Ready(block, Regs(a0, b0, c0, d0, e0), i, trace, s)
    modifies block
    ensures Ready(block, Regs(a, b, c, d, e), i + 5, trace, s)
  {
    a, b, c, d, e := a0, b0, c0, d0, e0;
    e, b := R4(block, a, b, c, d, e, i, trace, s);
    d, a := R4(block, e, a, b, c, d, i + 1, trace, s);
    c, e := R4(block, d, e, a, b, c, i + 2, trace, s);
    b, d := R4(block, c, d, e, a, b, i + 3, trace, s);
    a, c := R4(block, b, c, d, e, a, i + 4, trace, s);
  }

  // Four rounds of twenty operations each.

  method FirstRound(block: array<Word>, a0: Word, b0: Word, c0: Word, d0: Word, e0: Word, ghost trace: seq<Regs>, ghost s: seq<Word>)
    returns (a: Word, b: Word, c: Word, d: Word, e: Word)
    requires Ready(block, Regs(a0, b0, c0, d0, e0), 0, trace, s)
    modifies block
    ensures Ready(block, Regs(a, b, c, d, e), 20, trace, s)
  {
    a, b, c, d, e := a0, b0, c0, d0, e0;
    a, b, c, d, e := FiveR0(block, a, b, c, d, e, 0, trace, s);
    a, b, c, d, e := FiveR0(block, a, b, c, d, e, 5, trace, s);
    a, b, c, d, e := FiveR0(block, a, b, c, d, e, 10, trace, s);
    a, b, c, d, e := FiveR0R1(block, a, b, c, d, e, 15, trace, s);
  }

  method SecondRound(block: array<Word>, a0: Word, b0: Word, c0: Word, d0: Word, e0: Word, ghost trace: seq<Regs>, ghost s: seq<Word>)
    returns (a: Word, b: Word, c: Word, d: Word, e: Word)
    requires Ready(block, Regs(a0, b0, c0, d0, e0), 20, trace, s)
    modifies block
    ensures Ready(block, Regs(a, b, c, d, e), 40, trace, s)
  {
    a, b, c, d, e := a0, b0, c0, d0, e0;
    a, b, c, d, e := FiveR2(block, a, b, c, d, e, 20, trace, s);
    a, b, c, d, e := FiveR2(block, a, b, c, d, e, 25, trace, s);
    a, b, c, d, e := FiveR2(block, a, b, c, d, e, 30, trace, s);
    a, b, c, d, e := FiveR2(block, a, b, c, d, e, 35, trace, s);
  }

  method ThirdRound(block: array<Word>, a0: Word, b0: Word, c0: Word, d0: Word, e0: Word, ghost trace: seq<Regs>, ghost s: seq<Word>)
    returns (a: Word, b: Word, c: Word, d: Word, e: Word)
    requires Ready(block, Regs(a0, b0, c0, d0, e0), 40, trace, s)
    modifies block
    ensures Ready(block, Regs(a, b, c, d, e), 60, trace, s)
  {
    a, b, c, d, e := a0, b0, c0, d0, e0;
    a, b, c, d, e := FiveR3(block, a, b, c, d, e, 40, trace, s);
    a, b, c, d, e := FiveR3(block, a, b, c, d, e, 45, trace, s);
    a, b, c, d, e := FiveR3(block, a, b, c, d, e, 50, trace, s);
    a, b, c, d, e := FiveR3(block, a, b, c, d, e, 55, trace, s);
  }

  method FourthRound(block: array<Word>, a0: Word, b0: Word, c0: Word, d0: Word, e0: Word, ghost trace: seq<Regs>, ghost s: seq<Word>)
    returns (a: Word, b: Word, c: Word, d: Word, e: Word)
    requires Ready(block, Regs(a0, b0, c0, d0, e0), 60, trace, s)
    modifies block
    ensures Ready(block, Regs(a, b, c, d, e), 80, trace, s)
  {
    a, b, c, d, e := a0, b0, c0, d0, e0;
    a, b, c, d, e := FiveR4(block, a, b, c, d, e, 60, trace, s);
    a, b, c, d, e := FiveR4(block, a, b, c, d, e, 65, trace, s);
    a, b, c, d, e := FiveR4(block, a, b, c, d, e, 70, trace, s);
    a, b, c, d, e := FiveR4(block, a, b, c, d, e, 75, trace, s);
  }

  /** Hashes one block of 64 bytes into the state. */
  method Run(order: ByteOrder, state: array<Word>, buffer: seq<Byte>)
    requires state.Length == 5 && |buffer| == BLOCK
    modifies state
    ensures RegsOf(state[..]) == Compress(RegsOf(old(state[..])), Load(order, buffer))
  {
    ghost var m := Load(order, buffer);
    ghost var s := Schedule(m, RoundCount(m));
    ghost var trace := Trace(RegsOf(state[..]), s, |s|);
    ScheduleIsExpanded(m, RoundCount(m));
    TraceIsTrace(RegsOf(state[..]), s);
    var block := new Word[16](i requires 0 <= i < 16 => WordOf(order, buffer[4 * i..4 * i + 4]));
    assert block[..] == m;
    var a, b, c, d, e := FirstRound(block, state[0], state[1], state[2], state[3], state[4], trace, s);
    a, b, c, d, e := SecondRound(block, a, b, c, d, e, trace, s);
    a, b, c, d, e := ThirdRound(block, a, b, c, d, e, trace, s);
    a, b, c, d, e := FourthRound(block, a, b, c, d, e, trace, s);
    AddTo(state, a, b, c, d, e);
  }

  method AddTo(state: array<Word>, a: Word, b: Word, c: Word, d: Word, e: Word)
    requires state.Length == 5
    modifies state
    ensures RegsOf(state[..]) == Add(RegsOf(old(state[..])), Regs(a, b, c, d, e))
  {
    state[0] := Sum(state[0], a);
    state[1] := Sum(state[1], b);
    state[2] := Sum(state[2], c);
    state[3] := Sum(state[3], d);
    state[4] := Sum(state[4], e);
  }

  function RegsOf(state: seq<Word>): Regs
    requires |state| == 5
  {
    Regs(state[0], state[1], state[2], state[3], state[4])
  }

  lemma RoundTheRing(x: nat)
    ensures (x + 16) % 16 == x % 16
  {
  }

  lemma WindowIndices(block: seq<Word>, s: seq<Word>, i: nat)
    requires |block| == 16 && |s| == 80 && 16 <= i < 80 && Window(block, s, i)
    ensures block[(i + 13) % 16] == s[i - 3] && block[(i + 8) % 16] == s[i - 8]
    ensures block[(i + 2) % 16] == s[i - 14] && block[i % 16] == s[i - 16]
  {
    RoundTheRing(i - 3);
    RoundTheRing(i - 8);
    RoundTheRing(i - 14);
    RoundTheRing(i - 16);
  }
}
