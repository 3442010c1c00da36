/** The streaming interface: a context with a partial block and a 64-bit bit count kept in two
    32-bit words, fed in pieces of any size. */
module Sha1 {
  import opened Words
  import opened Sha1Spec
  import Sha1Transform

  // ---------------------------------------------------------------------------------------
  // The two-word counter
  // ---------------------------------------------------------------------------------------

  datatype Count = Count(low: nat, high: nat)

  predicate Counts(c: Count, length: nat) {
    c.low < WORD_SPAN && c.high < WORD_SPAN && c.high * WORD_SPAN + c.low == BitCount(length)
  }

  /** The counter after `len` more bytes, with the carry detected by the wrapped sum. */
  function CountUp(c: Count, len: nat): Count {
    var shifted := len * 8 % WORD_SPAN;
    var low := (c.low + shifted) % WORD_SPAN;
    var carried := if low < shifted then (c.high + 1) % WORD_SPAN else c.high;
    Count(low, (carried + len / 0x2000_0000) % WORD_SPAN)
  }

  /** The carry test is right: the two words of the sum are those of the exact sum. */
  lemma CountUpExact(c: Count, len: nat)
    requires c.low < WORD_SPAN && c.high < WORD_SPAN && len < WORD_SPAN
    ensures var r := CountUp(c, len);
            exists high: nat :: r.high == high % WORD_SPAN && r.low < WORD_SPAN
              && high * WORD_SPAN + r.low == c.high * WORD_SPAN + c.low + 8 * len
  {
    var shifted, over := len * 8 % WORD_SPAN, len / 0x2000_0000;
    assert len * 8 == over * WORD_SPAN + shifted;
    var r := CountUp(c, len);
    var carry := if r.low < shifted then 1 else 0;
    assert c.low + shifted == r.low + carry * WORD_SPAN;
    var high := c.high + carry + over;
    AddModWord(c.high + carry, over);
    assert r.high == high % WORD_SPAN;
    assert high * WORD_SPAN + r.low == c.high * WORD_SPAN + c.low + 8 * len;
  }

  lemma AddModWord(a: nat, b: nat)
    ensures (a % WORD_SPAN + b) % WORD_SPAN == (a + b) % WORD_SPAN
  {
  }

  /** The counter is the bit count modulo 2^64, whatever the sizes of the pieces. */
  lemma CountUpCounts(c: Count, length: nat, len: nat)
    requires Counts(c, length) && len < WORD_SPAN
    ensures Counts(CountUp(c, len), length + len)
  {
    CountUpExact(c, len);
    var r := CountUp(c, len);
    var high: nat :| r.high == high % WORD_SPAN && high * WORD_SPAN + r.low == c.high * WORD_SPAN + c.low + 8 * len;
    SplitModulo(high, r.low);
    AddModulo(8 * length, 8 * len);
  }

  lemma SplitModulo(high: nat, low: nat)
    requires low < WORD_SPAN
    ensures (high * WORD_SPAN + low) % COUNT_SPAN == high % WORD_SPAN * WORD_SPAN + low
  {
  }

  lemma AddModulo(a: nat, b: nat)
    ensures (a % COUNT_SPAN + b) % COUNT_SPAN == (a + b) % COUNT_SPAN
  {
  }

  /** The place in the buffer is read off the low word. */
  lemma PlaceFromCount(c: Count, length: nat)
    requires Counts(c, length)
    ensures c.low / 8 % 64 == length % BLOCK
  {
    var q, r := 8 * length / COUNT_SPAN, 8 * length % COUNT_SPAN;
    assert 8 * length == q * COUNT_SPAN + r;
    assert c.low == 8 * length - q * COUNT_SPAN - c.high * WORD_SPAN;
    var t := q * 0x80_0000_0000_0000 + c.high * 0x80_0000;
    assert c.low == 8 * (length - 64 * t);
    DropMultiple(length, t);
  }

  lemma DropMultiple(length: nat, t: nat)
    ensures (length - 64 * t) % 64 == length % 64
  {
  }

  // ---------------------------------------------------------------------------------------
  // The context
  // ---------------------------------------------------------------------------------------

  /** The largest piece for which the index arithmetic of one update does not wrap. */
  const MAX_PIECE: int := WORD_SPAN - 64

  function Whole(m: seq<Byte>): (w: seq<Byte>)
    ensures |w| % BLOCK == 0
  {
    m[..|m| - |m| % BLOCK]
  }

  function Rest(m: seq<Byte>): (r: seq<Byte>)
    ensures |r| == |m| % BLOCK
  {
    m[|m| - |m| % BLOCK..]
  }

  class Context {
    const order: ByteOrder
    const state: array<Word>
    const buffer: array<Byte>
    var count: Count
    ghost var message: seq<Byte>

    ghost predicate Allocated() {
      state.Length == 5 && buffer.Length == BLOCK
    }

    /** The state has absorbed every whole block of the message and the buffer holds the rest. */
    ghost predicate Absorbed(m: seq<Byte>)
      reads this, state, buffer
    {
      && Allocated()
      && Sha1Transform.RegsOf(state[..]) == Absorb(order, IV, Whole(m))
      && buffer[..|m| % BLOCK] == Rest(m)
    }

    ghost predicate Valid()
      reads this, state, buffer
    {
      Absorbed(message) && Counts(count, |message|)
    }

    /** Allocation and SHA1Init. */
    constructor (order: ByteOrder)
      ensures Valid() && message == [] && this.order == order && fresh(state) && fresh(buffer)
    {
      this.order := order;
      state := new Word[5];
      buffer := new Byte[BLOCK];
      count := Count(0, 0);
      message := [];
      new;
      state[0], state[1], state[2], state[3], state[4] := 0x67452301, 0xEFCDAB89, 0x98BADCFE, 0x10325476, 0xC3D2E1F0;
    }

    method Hash(block: seq<Byte>)
      requires Allocated() && |block| == BLOCK
      modifies state
      ensures Sha1Transform.RegsOf(state[..]) == Absorb(order, Sha1Transform.RegsOf(old(state[..])), block)
    {
      Sha1Transform.Run(order, state, block);
      AbsorbBlock(order, Sha1Transform.RegsOf(old(state[..])), block);
    }

    method CopyIn(at: int, data: seq<Byte>)
      requires Allocated() && 0 <= at && at + |data| <= BLOCK
      modifies buffer
      ensures buffer[..at + |data|] == old(buffer[..at]) + data
    {
      for i := 0 to |data|
        invariant buffer[..at + i] == old(buffer[..at]) + data[..i]
      {
        buffer[at + i] := data[i];
        assert buffer[..at + i + 1] == buffer[..at + i] + [data[i]];
      }
      assert data[..|data|] == data;
    }

    /** Completes the buffered block with `head` and hashes it. */
    method AbsorbBuffer(j: int, head: seq<Byte>)
      requires Absorbed(message) && j == |message| % BLOCK && j + |head| == BLOCK
      modifies state, buffer
      ensures Sha1Transform.RegsOf(state[..]) == Absorb(order, IV, message + head)
    {
      FillBlock(order, message, head);
      CopyIn(j, head);
      assert buffer[..] == Rest(message) + head;
      Hash(buffer[..]);
    }

    /** Hashes the whole blocks of `data` from `from` on, where the first `from` bytes are absorbed. */
    method AbsorbBlocks(data: seq<Byte>, from: nat) returns (i: nat)
      requires Allocated() && from <= |data| < MAX_PIECE && (|message| + from) % BLOCK == 0
      requires Sha1Transform.RegsOf(state[..]) == Absorb(order, IV, message + data[..from])
      modifies state
      ensures i <= |data| < i + BLOCK && (|message| + i) % BLOCK == 0
      ensures Sha1Transform.RegsOf(state[..]) == Absorb(order, IV, message + data[..i])
    {
      i := from;
      while i + 63 < |data|
        invariant i <= |data| && (|message| + i) % BLOCK == 0
        invariant Sha1Transform.RegsOf(state[..]) == Absorb(order, IV, message + data[..i])
      {
        OneMoreBlock(order, message, data, i);
        AnotherBlock(|message| + i);
        Hash(data[i..i + BLOCK]);
        i := i + BLOCK;
      }
    }

    method AddLength(len: nat)
      requires Counts(count, |message|) && len < WORD_SPAN
      modifies this`count
      ensures Counts(count, |message| + len)
    {
      CountUpCounts(count, |message|, len);
      var low := (count.low + len * 8 % WORD_SPAN) % WORD_SPAN;
      var high := count.high;
      if low < len * 8 % WORD_SPAN { high := (high + 1) % WORD_SPAN; }
      count := Count(low, (high + len / 0x2000_0000) % WORD_SPAN);
    }

    /** The blocks of an update that completes a block; the rest of it starts at `i`. */
    method AbsorbWhole(data: seq<Byte>, j: int) returns (i: int)
      requires Absorbed(message) && j == |message| % BLOCK && |data| < MAX_PIECE && j + |data| > 63
      modifies state, buffer
      ensures Allocated() && 0 <= i <= |data| < i + BLOCK && |message + data| % BLOCK == |data| - i
      ensures Sha1Transform.RegsOf(state[..]) == Absorb(order, IV, Whole(message + data))
      ensures Rest(message + data) == data[i..]
    {
      CompletesBlock(|message|);
      AbsorbBuffer(j, data[..BLOCK - j]);
      i := AbsorbBlocks(data, BLOCK - j);
      EndsOnBlock(message, data, i);
    }

    method KeepRest(rest: seq<Byte>, ghost m: seq<Byte>)
      requires Allocated() && Sha1Transform.RegsOf(state[..]) == Absorb(order, IV, Whole(m)) && Rest(m) == rest
      modifies buffer
      ensures Absorbed(m)
    {
      CopyIn(0, rest);
    }

    method KeepAll(j: int, data: seq<Byte>)
      requires Absorbed(message) && j == |message| % BLOCK && j + |data| < BLOCK
      modifies buffer
      ensures Absorbed(message + data)
    {
      StaysInBlock(message, data);
      CopyIn(j, data);
    }

    method AbsorbData(data: seq<Byte>, j: int)
      requires Absorbed(message) && j == |message| % BLOCK && |data| < MAX_PIECE
      modifies state, buffer
      ensures Absorbed(message + data)
    {
      if j + |data| > 63 {
        var i := AbsorbWhole(data, j);
        KeepRest(data[i..], message + data);
      } else {
        KeepAll(j, data);
      }
    }

    method Update(data: seq<Byte>)
      requires Valid() && |data| < MAX_PIECE
      modifies this, state, buffer
      ensures Valid() && message == old(message) + data
    {
      PlaceFromCount(count, |message|);
      var j := count.low / 8 % 64;
      AddLength(|data|);
      AbsorbData(data, j);
      message := message + data;
    }

    /** The test of the padding loop, on bits 3 to 8 of the low word. */
    method PaddingDue() returns (due: bool)
      requires Valid()
      ensures due <==> |message| % BLOCK != 56
    {
      PlaceFromCount(count, |message|);
      due := count.low / 8 % 64 * 8 != 448;
    }

    method UpdateByte(b: Byte)
      requires Valid()
      modifies this, state, buffer
      ensures Valid() && message == old(message) + [b]
    {
      Update([b]);
    }

    /** The padding loop of SHA1Final. */
    method PadZeros(ghost m: seq<Byte>)
      requires Valid() && message == Padded(m, 0)
      modifies this, state, buffer
      ensures Valid() && message == Padded(m, ZerosFor(|m|))
    {
      ghost var k := 0;
      PaddingStops(m, k);
      var due := PaddingDue();
      while due
        invariant Valid() && k <= ZerosFor(|m|) && message == Padded(m, k)
        invariant due <==> k != ZerosFor(|m|)
        decreases ZerosFor(|m|) - k
      {
        OneMoreZero(m, k);
        UpdateByte(0);
        k := k + 1;
        PaddingStops(m, k);
        due := PaddingDue();
      }
    }

    /** The digest of everything fed in; the context is wiped and is not usable afterwards. */
    method Final() returns (digest: seq<Byte>)
      requires Valid()
      modifies this, state, buffer
      ensures digest == Sha1Spec.Hash(order, old(message))
      ensures count == Count(0, 0) && buffer[..] == Zeros(BLOCK)
    {
      CountBytes(count, |message|);
      var finalcount := LengthBytes();
      UpdateByte(0x80);
      assert message == Padded(old(message), 0);
      PadZeros(old(message));
      Update(finalcount);
      assert message == Pad(old(message));
      assert Whole(message) == message;
      digest := DigestBytes();
      Wipe();
    }

    /** The counter byte by byte, its high word first. */
    method LengthBytes() returns (finalcount: seq<Byte>)
      requires count.low < WORD_SPAN && count.high < WORD_SPAN
      ensures finalcount == Be32(count.high) + Be32(count.low)
    {
      finalcount := WordBytes(count.high);
      var low := WordBytes(count.low);
      finalcount := finalcount + low;
    }

    method DigestBytes() returns (digest: seq<Byte>)
      requires Allocated()
      ensures digest == Digest(Sha1Transform.RegsOf(state[..]))
    {
      digest := [];
      for i := 0 to 5
        invariant digest == Printed(state[..i])
      {
        BytesOfNumber(state[i]);
        var bytes := WordBytes(state[i] as int);
        digest := digest + bytes;
        assert state[..i + 1][..i] == state[..i];
      }
      assert state[..5] == state[..];
      PrintedFive(state[..]);
    }

    method Wipe()
      requires Allocated()
      modifies this`count, state, buffer
      ensures count == Count(0, 0) && buffer[..] == Zeros(BLOCK)
    {
      for i := 0 to BLOCK
        invariant forall k :: 0 <= k < i ==> buffer[k] == 0
      {
        buffer[i] := 0;
      }
      for i := 0 to 5
        invariant forall k :: 0 <= k < BLOCK ==> buffer[k] == 0
      {
        state[i] := 0;
      }
      count := Count(0, 0);
      Sha1Transform.Run(order, state, buffer[..]);
    }
  }

  /** A message fed in any number of pieces of any size has the digest of the whole message. */
  method HashPieces(order: ByteOrder, pieces: seq<seq<Byte>>) returns (digest: seq<Byte>)
    requires forall p :: p in pieces ==> |p| < MAX_PIECE
    ensures digest == Sha1Spec.Hash(order, Flatten(pieces))
  {
    var context := new Context(order);
    for i := 0 to |pieces|
      invariant context.Valid() && context.message == Flatten(pieces[..i])
      invariant fresh(context) && fresh(context.state) && fresh(context.buffer) && context.order == order
    {
      context.Update(pieces[i]);
      assert pieces[..i + 1][..i] == pieces[..i];
    }
    assert pieces[..|pieces|] == pieces;
    digest := context.Final();
  }

  function Flatten(pieces: seq<seq<Byte>>): seq<Byte> {
    if pieces == [] then [] else Flatten(pieces[..|pieces| - 1]) + pieces[|pieces| - 1]
  }

  /** What a shift to the right by `n` bytes divides by. */
  function Weight(n: nat): (w: nat)
    ensures w > 0
  {
    if n == 0 then 1 else 0x100 * Weight(n - 1)
  }

  lemma Weights()
    ensures Weight(0) == 1 && Weight(1) == 0x100 && Weight(2) == 0x1_0000 && Weight(3) == 0x100_0000
  {
  }

  /** The bytes of a word, each shifted down and masked. */
  method WordBytes(x: nat) returns (b: seq<Byte>)
    requires x < WORD_SPAN
    ensures b == Be32(x)
  {
    b := [];
    for i := 0 to 4
      invariant |b| == i && forall k :: 0 <= k < i ==> b[k] == Digit(x, k)
    {
      b := b + [Octet(x / Weight(3 - i) % 0x100)];
    }
    DigitsAre(x);
  }

  function Digit(x: nat, k: nat): Byte
    requires k < 4
  {
    Octet(x / Weight(3 - k) % 0x100)
  }

  lemma DigitsAre(x: nat)
    requires x < WORD_SPAN
    ensures Be32(x) == [Digit(x, 0), Digit(x, 1), Digit(x, 2), Digit(x, 3)]
  {
    Weights();
  }

  lemma SameBytes(a: seq<Byte>, b: seq<Byte>)
    requires |a| == |b| == 4 && Number(a) == Number(b)
    ensures a == b
  {
    NumberDigits(a);
    NumberDigits(b);
    forall k | 0 <= k < 4 ensures a[k] == b[k] {
      assert a[k] as int == b[k] as int;
      ThereAndBack(a[k]);
      ThereAndBack(b[k]);
    }
  }

  lemma BytesOfNumber(w: Word)
    ensures BytesOf(w) == Be32(w as int)
  {
    BytesNumber(w);
    Be32Number(w as int);
    SameBytes(BytesOf(w), Be32(w as int));
  }

  function Printed(words: seq<Word>): seq<Byte> {
    if words == [] then [] else Printed(words[..|words| - 1]) + BytesOf(words[|words| - 1])
  }

  lemma PrintedFive(s: seq<Word>)
    requires |s| == 5
    ensures Printed(s) == Digest(Sha1Transform.RegsOf(s))
  {
    assert s[..4][..3] == s[..3] && s[..3][..2] == s[..2] && s[..2][..1] == s[..1] && s[..1][..0] == [];
    assert Printed(s[..1]) == BytesOf(s[0]);
    assert Printed(s[..2]) == Printed(s[..1]) + BytesOf(s[1]);
    assert Printed(s[..3]) == Printed(s[..2]) + BytesOf(s[2]);
    assert Printed(s[..4]) == Printed(s[..3]) + BytesOf(s[3]);
  }

  lemma CountBytes(c: Count, length: nat)
    requires Counts(c, length)
    ensures Be32(c.high) + Be32(c.low) == Be64(BitCount(length))
  {
    assert BitCount(length) / WORD_SPAN == c.high && BitCount(length) % WORD_SPAN == c.low;
  }

  function Padded(m: seq<Byte>, k: nat): (p: seq<Byte>)
    ensures |p| == |m| + 1 + k
  {
    m + [0x80] + Zeros(k)
  }

  /** The padding loop stops exactly after the zeros the standard asks for. */
  lemma PaddingStops(m: seq<Byte>, k: nat)
    requires k <= ZerosFor(|m|)
    ensures |Padded(m, k)| % BLOCK == 56 <==> k == ZerosFor(|m|)
  {
  }

  lemma OneMoreZero(m: seq<Byte>, k: nat)
    ensures Padded(m, k) + [0] == Padded(m, k + 1)
  {
  }

  lemma FillBlock(order: ByteOrder, m: seq<Byte>, d: seq<Byte>)
    requires |m| % BLOCK + |d| == BLOCK
    ensures Absorb(order, IV, m + d) == Absorb(order, Absorb(order, IV, Whole(m)), Rest(m) + d)
  {
    assert m + d == Whole(m) + (Rest(m) + d);
    AbsorbConcat(order, IV, Whole(m), Rest(m) + d);
  }

  lemma CompletesBlock(n: nat)
    ensures (n + (BLOCK - n % BLOCK)) % BLOCK == 0
  {
  }

  lemma AnotherBlock(n: nat)
    requires n % BLOCK == 0
    ensures (n + BLOCK) % BLOCK == 0
  {
  }

  lemma OneMoreBlock(order: ByteOrder, m: seq<Byte>, data: seq<Byte>, i: nat)
    requires i + BLOCK <= |data| && (|m| + i) % BLOCK == 0
    ensures |m + data[..i + BLOCK]| % BLOCK == 0
    ensures Absorb(order, IV, m + data[..i + BLOCK]) == Absorb(order, Absorb(order, IV, m + data[..i]), data[i..i + BLOCK])
  {
    assert m + data[..i + BLOCK] == (m + data[..i]) + data[i..i + BLOCK];
    AbsorbConcat(order, IV, m + data[..i], data[i..i + BLOCK]);
  }

  lemma EndsOnBlock(m: seq<Byte>, data: seq<Byte>, i: nat)
    requires i <= |data| < i + BLOCK && (|m| + i) % BLOCK == 0
    ensures Whole(m + data) == m + data[..i] && Rest(m + data) == data[i..]
    ensures |m + data| % BLOCK == |data| - i
  {
  }

  lemma StaysInBlock(m: seq<Byte>, data: seq<Byte>)
    requires |m| % BLOCK + |data| < BLOCK
    ensures Whole(m + data) == Whole(m) && Rest(m + data) == Rest(m) + data
    ensures |m + data| % BLOCK == |m| % BLOCK + |data|
  {
    SameBlock(|m|, |data|);
    assert (m + data)[..|m| - |m| % BLOCK] == m[..|m| - |m| % BLOCK];
  }

  lemma SameBlock(n: nat, k: nat)
    requires n % BLOCK + k < BLOCK
    ensures (n + k) % BLOCK == n % BLOCK + k
  {
  }
}
