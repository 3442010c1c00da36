/** The injector's work on one stretch of packets: sort them by tag into auxiliary buffers, strip
    the header the TS merger puts in front, and hand them over in batches. */
module PtiInjector {

  type Byte = bv8

  const TAG_COUNT := 4
  const AUX_COUNT := 20
  const HEADER_SIZE := 6
  const PAYLOAD_SIZE := 188
  const PACKET_SIZE := PAYLOAD_SIZE + HEADER_SIZE

  /** The demultiplexers by session, NONE where none is registered, and the session of each tag. */
  datatype Config = Config(demux: seq<int>, demuxTag: seq<int>) {
    predicate Valid() {
      |demux| == TAG_COUNT && |demuxTag| == TAG_COUNT && forall t :: 0 <= t < TAG_COUNT ==> 0 <= demuxTag[t] < TAG_COUNT
    }
  }

  const NONE := 0

  type Setup = c: Config | c.Valid() witness Config([0, 0, 0, 0], [0, 1, 2, 3])

  function DemuxOf(c: Setup, tag: int): int
    requires 0 <= tag < TAG_COUNT
  {
    c.demux[c.demuxTag[tag]]
  }

  predicate Registered(c: Setup, tag: int) {
    0 <= tag < TAG_COUNT && DemuxOf(c, tag) != NONE
  }

  predicate IsPacket(p: seq<Byte>) { |p| == PACKET_SIZE }

  /** The tag: the four bits above the lowest two of the first byte, as a number. */
  function TagOf(p: seq<Byte>): int
    requires IsPacket(p)
  {
    p[0] as int / 4 % 16
  }

  /** A first byte of `hi`, `t` and `lo`, from the top, carries tag `t`. */
  lemma TagIsField(p: seq<Byte>, hi: nat, t: nat, lo: nat)
    requires IsPacket(p) && hi < 4 && t < 16 && lo < 4 && p[0] as int == 64 * hi + 4 * t + lo
    ensures TagOf(p) == t
  {
  }

  lemma Fields(b: Byte) returns (hi: bv2, t: bv4, lo: bv2)
    ensures b == ((hi as Byte) << 6) | ((t as Byte) << 2) | (lo as Byte) && (b >> 2) & 0xf == t as Byte
  {
    hi, t, lo := (b >> 6) as bv2, ((b >> 2) & 0xf) as bv4, (b & 3) as bv2;
  }

  lemma FieldsNumber(hi: bv2, t: bv4, lo: bv2)
    ensures (((hi as Byte) << 6) | ((t as Byte) << 2) | (lo as Byte)) as int == 64 * (hi as int) + 4 * (t as int) + lo as int
    ensures (t as Byte) as int == t as int
  {
  }

  lemma ShiftAndMask(b: Byte)
    ensures ((b >> 2) & 0xf) as int == b as int / 4 % 16
  {
    var hi, t, lo := Fields(b);
    FieldsNumber(hi, t, lo);
  }

  /** One call of the demultiplexer. The tag names the auxiliary buffer it was given. */
  datatype Call = Call(tag: int, demux: int, data: seq<Byte>, count: int)

  /** What is collected but not handed over yet, per tag, and the calls made so far. */
  datatype Aux = Aux(pending: seq<seq<Byte>>, counts: seq<int>, calls: seq<Call>)

  const EMPTY := Aux([[], [], [], []], [0, 0, 0, 0], [])

  predicate Sized(a: Aux) {
    && |a.pending| == TAG_COUNT && |a.counts| == TAG_COUNT
    && forall t :: 0 <= t < TAG_COUNT ==> 0 <= a.counts[t] <= AUX_COUNT && |a.pending[t]| == a.counts[t] * PAYLOAD_SIZE
  }

  /** Between two packets no buffer is full. */
  predicate Fits(a: Aux) {
    Sized(a) && forall t :: 0 <= t < TAG_COUNT ==> a.counts[t] < AUX_COUNT
  }

  function Collect(a: Aux, tag: int, p: seq<Byte>): (r: Aux)
    requires Fits(a) && 0 <= tag < TAG_COUNT && IsPacket(p)
    ensures Sized(r)
  {
    a.(pending := a.pending[tag := a.pending[tag] + p[HEADER_SIZE..]], counts := a.counts[tag := a.counts[tag] + 1])
  }

  function Flush(c: Setup, a: Aux, tag: int): (r: Aux)
    requires Sized(a) && 0 <= tag < TAG_COUNT
    ensures Sized(r)
  {
    Aux(a.pending[tag := []], a.counts[tag := 0],
        a.calls + [Call(tag, DemuxOf(c, tag), a.pending[tag], a.counts[tag])])
  }

  function OnePacket(c: Setup, a: Aux, p: seq<Byte>): (r: Aux)
    requires Fits(a) && IsPacket(p)
    ensures Fits(r)
  {
    var tag := TagOf(p);
    if !Registered(c, tag) then a
    else
      var b := Collect(a, tag, p);
      if b.counts[tag] >= AUX_COUNT then Flush(c, b, tag) else b
  }

  function Packets(c: Setup, a: Aux, ps: seq<seq<Byte>>): (r: Aux)
    requires Fits(a) && forall p :: p in ps ==> IsPacket(p)
    ensures Fits(r)
  {
    if ps == [] then a else OnePacket(c, Packets(c, a, ps[..|ps| - 1]), ps[|ps| - 1])
  }

  /** The remainders of the tags below `n`, in the order of the tags. */
  function Remainders(c: Setup, a: Aux, n: nat): (r: Aux)
    requires Fits(a) && n <= TAG_COUNT
    ensures Fits(r)
    ensures forall t :: n <= t < TAG_COUNT ==> r.pending[t] == a.pending[t] && r.counts[t] == a.counts[t]
  {
    if n == 0 then a
    else
      FlushRest(c, Remainders(c, a, n - 1), n - 1)
  }

  /** What is left for one tag is handed over, if there is anything and anybody to take it. */
  function FlushRest(c: Setup, a: Aux, t: int): (r: Aux)
    requires Fits(a) && 0 <= t < TAG_COUNT
    ensures Fits(r)
    ensures forall u :: t < u < TAG_COUNT ==> r.pending[u] == a.pending[u] && r.counts[u] == a.counts[u]
  {
    if a.counts[t] > 0 && DemuxOf(c, t) != NONE then Flush(c, a, t) else a
  }

  function Batch(c: Setup, ps: seq<seq<Byte>>): Aux
    requires forall p :: p in ps ==> IsPacket(p)
  {
    Remainders(c, Packets(c, EMPTY, ps), TAG_COUNT)
  }

  // ---------------------------------------------------------------------------------------
  // What is handed over
  // ---------------------------------------------------------------------------------------

  /** The bytes handed over from the buffer of `tag`. */
  function Delivered(calls: seq<Call>, tag: int): seq<Byte> {
    if calls == [] then []
    else
      var last := calls[|calls| - 1];
      Delivered(calls[..|calls| - 1], tag) + if last.tag == tag then last.data else []
  }

  /** The packets with `tag`, without their headers of six bytes, in order. */
  function PayloadsOf(ps: seq<seq<Byte>>, tag: int): seq<Byte>
    requires forall p :: p in ps ==> IsPacket(p)
  {
    if ps == [] then []
    else
      var last := ps[|ps| - 1];
      PayloadsOf(ps[..|ps| - 1], tag) + if TagOf(last) == tag then last[6..194] else []
  }

  predicate CallOk(c: Setup, k: Call) {
    && Registered(c, k.tag) && k.demux == DemuxOf(c, k.tag)
    && 1 <= k.count <= 20 && |k.data| == k.count * 188
  }

  ghost predicate CallsOk(c: Setup, calls: seq<Call>) {
    forall i :: 0 <= i < |calls| ==> CallOk(c, calls[i])
  }

  /** Everything that went into the buffer of `tag`: handed over, or still pending. */
  function Through(a: Aux, tag: int): seq<Byte>
    requires Sized(a) && 0 <= tag < TAG_COUNT
  {
    Delivered(a.calls, tag) + a.pending[tag]
  }

  /** A packet reaches the buffer of its own tag, behind everything before it, and no other. */
  lemma OnePacketThrough(c: Setup, a: Aux, p: seq<Byte>, tag: int)
    requires Fits(a) && IsPacket(p) && 0 <= tag < TAG_COUNT && CallsOk(c, a.calls)
    ensures CallsOk(c, OnePacket(c, a, p).calls)
    ensures Through(OnePacket(c, a, p), tag) ==
            Through(a, tag) + if TagOf(p) == tag && Registered(c, tag) then p[HEADER_SIZE..] else []
  {
  }

  lemma {:induction false} PacketsThrough(c: Setup, a: Aux, ps: seq<seq<Byte>>, tag: int)
    requires Fits(a) && (forall p :: p in ps ==> IsPacket(p)) && 0 <= tag < TAG_COUNT && CallsOk(c, a.calls)
    ensures CallsOk(c, Packets(c, a, ps).calls)
    ensures Through(Packets(c, a, ps), tag) == Through(a, tag) + if Registered(c, tag) then PayloadsOf(ps, tag) else []
  {
    if ps != [] {
      var front, last := ps[..|ps| - 1], ps[|ps| - 1];
      PacketsThrough(c, a, front, tag);
      OnePacketThrough(c, Packets(c, a, front), last, tag);
    }
  }

  lemma {:induction false} RemaindersThrough(c: Setup, a: Aux, n: nat, tag: int)
    requires Fits(a) && n <= TAG_COUNT && 0 <= tag < TAG_COUNT && CallsOk(c, a.calls)
    ensures CallsOk(c, Remainders(c, a, n).calls)
    ensures Through(Remainders(c, a, n), tag) == Through(a, tag)
    ensures tag < n && Registered(c, tag) ==> Remainders(c, a, n).pending[tag] == []
  {
    if n > 0 {
      RemaindersThrough(c, a, n - 1, tag);
      var b := Remainders(c, a, n - 1);
      RestThrough(c, b, n - 1, tag);
      assert Remainders(c, a, n) == FlushRest(c, b, n - 1);
    }
  }

  lemma RestThrough(c: Setup, a: Aux, t: int, tag: int)
    requires Fits(a) && 0 <= t < TAG_COUNT && 0 <= tag < TAG_COUNT && CallsOk(c, a.calls)
    ensures var r := FlushRest(c, a, t);
            && CallsOk(c, r.calls) && Through(r, tag) == Through(a, tag)
            && (Registered(c, tag) && (tag == t || a.pending[tag] == []) ==> r.pending[tag] == [])
  {
  }

  lemma {:induction false} NothingForUnregistered(c: Setup, calls: seq<Call>, tag: int)
    requires CallsOk(c, calls) && !Registered(c, tag)
    ensures Delivered(calls, tag) == []
  {
    if calls != [] {
      assert CallOk(c, calls[|calls| - 1]);
      NothingForUnregistered(c, calls[..|calls| - 1], tag);
    }
  }

  lemma BatchThrough(c: Setup, ps: seq<seq<Byte>>, tag: int)
    requires (forall p :: p in ps ==> IsPacket(p)) && 0 <= tag < TAG_COUNT
    ensures CallsOk(c, Batch(c, ps).calls)
    ensures Through(Batch(c, ps), tag) == if Registered(c, tag) then PayloadsOf(ps, tag) else []
    ensures Registered(c, tag) ==> Batch(c, ps).pending[tag] == []
  {
    assert Through(EMPTY, tag) == [];
    PacketsThrough(c, EMPTY, ps, tag);
    RemaindersThrough(c, Packets(c, EMPTY, ps), TAG_COUNT, tag);
  }

  /** For every batch and every tag: what is handed over from the buffer of the tag is the sequence
      of its packets without their headers, in order, if a demultiplexer is registered for it, and
      nothing otherwise. Each call goes to that demultiplexer with 1 to AUX_COUNT whole packets,
      and nothing is left behind for the next batch. */
  lemma BatchDeliversByTag(c: Setup, ps: seq<seq<Byte>>, tag: int)
    requires (forall p :: p in ps ==> IsPacket(p)) && 0 <= tag < TAG_COUNT
    ensures Delivered(Batch(c, ps).calls, tag) == if Registered(c, tag) then PayloadsOf(ps, tag) else []
    ensures CallsOk(c, Batch(c, ps).calls)
    ensures Batch(c, ps).pending[tag] == []
  {
    BatchThrough(c, ps, tag);
    if !Registered(c, tag) { NothingForUnregistered(c, Batch(c, ps).calls, tag); }
  }

  // ---------------------------------------------------------------------------------------
  // In how many calls
  // ---------------------------------------------------------------------------------------

  /** The numbers of packets in the calls for `tag`. */
  function Sizes(calls: seq<Call>, tag: int): seq<int> {
    if calls == [] then []
    else
      var last := calls[|calls| - 1];
      Sizes(calls[..|calls| - 1], tag) + if last.tag == tag then [last.count] else []
  }

  /** How many packets carry `tag`. */
  function Tagged(ps: seq<seq<Byte>>, tag: int): nat
    requires forall p :: p in ps ==> IsPacket(p)
  {
    if ps == [] then 0
    else Tagged(ps[..|ps| - 1], tag) + if TagOf(ps[|ps| - 1]) == tag then 1 else 0
  }

  /** `n` packets in calls of twenty. */
  function Twenties(n: nat): seq<int> { seq(n / 20, _ => 20) }

  lemma OneMore(n: nat)
    ensures (n + 1) % 20 == (if n % 20 == 19 then 0 else n % 20 + 1)
    ensures Twenties(n + 1) == Twenties(n) + if n % 20 == 19 then [20] else []
  {
  }

  /** Of `n` packets with `tag`, all that make full calls are handed over. */
  ghost predicate InTwenties(a: Aux, tag: int, n: nat) {
    Sized(a) && 0 <= tag < TAG_COUNT && a.counts[tag] == n % 20 && Sizes(a.calls, tag) == Twenties(n)
  }

  lemma OnePacketSizes(c: Setup, a: Aux, p: seq<Byte>, tag: int, n: nat)
    requires Fits(a) && IsPacket(p) && Registered(c, tag) && InTwenties(a, tag, n)
    ensures InTwenties(OnePacket(c, a, p), tag, if TagOf(p) == tag then n + 1 else n)
  {
    OneMore(n);
  }

  lemma {:induction false} PacketsSizes(c: Setup, a: Aux, ps: seq<seq<Byte>>, tag: int, n: nat)
    requires Fits(a) && (forall p :: p in ps ==> IsPacket(p)) && Registered(c, tag) && InTwenties(a, tag, n)
    ensures InTwenties(Packets(c, a, ps), tag, n + Tagged(ps, tag))
  {
    if ps != [] {
      var front := ps[..|ps| - 1];
      PacketsSizes(c, a, front, tag, n);
      OnePacketSizes(c, Packets(c, a, front), ps[|ps| - 1], tag, n + Tagged(front, tag));
    }
  }

  lemma NoneYet(tag: int)
    requires 0 <= tag < TAG_COUNT
    ensures InTwenties(EMPTY, tag, 0)
  {
    assert Twenties(0) == [];
  }

  lemma RestSizes(c: Setup, a: Aux, t: int, tag: int)
    requires Fits(a) && 0 <= t < TAG_COUNT && Registered(c, tag)
    ensures Sizes(FlushRest(c, a, t).calls, tag) == Sizes(a.calls, tag) + if t == tag && a.counts[t] > 0 then [a.counts[t]] else []
  {
  }

  lemma {:induction false} RemaindersSizes(c: Setup, a: Aux, n: nat, tag: int)
    requires Fits(a) && n <= TAG_COUNT && Registered(c, tag)
    ensures Sizes(Remainders(c, a, n).calls, tag) ==
            Sizes(a.calls, tag) + if tag < n && a.counts[tag] > 0 then [a.counts[tag]] else []
  {
    if n > 0 {
      RemaindersSizes(c, a, n - 1, tag);
      var b := Remainders(c, a, n - 1);
      RestSizes(c, b, n - 1, tag);
      assert Remainders(c, a, n) == FlushRest(c, b, n - 1) && b.counts[n - 1] == a.counts[n - 1];
    }
  }

  /** The packets of a registered tag are handed over twenty at a time, and those that are left
      over in one last call. */
  lemma BatchSizes(c: Setup, ps: seq<seq<Byte>>, tag: int)
    requires (forall p :: p in ps ==> IsPacket(p)) && Registered(c, tag)
    ensures var n := Tagged(ps, tag);
            Sizes(Batch(c, ps).calls, tag) == Twenties(n) + if n % 20 > 0 then [n % 20] else []
  {
    NoneYet(tag);
    PacketsSizes(c, EMPTY, ps, tag, 0);
    RemaindersSizes(c, Packets(c, EMPTY, ps), TAG_COUNT, tag);
  }

  // ---------------------------------------------------------------------------------------
  // The driver's own code
  // ---------------------------------------------------------------------------------------

  const ROW := PAYLOAD_SIZE * AUX_COUNT

  /** The packets in the back buffer from `offset` on. */
  function PacketsAt(buffer: seq<Byte>, offset: int, count: nat): (ps: seq<seq<Byte>>)
    requires 0 <= offset && offset + count * PACKET_SIZE <= |buffer|
    ensures forall p :: p in ps ==> IsPacket(p)
  {
    seq(count, n requires 0 <= n < count => buffer[offset + n * PACKET_SIZE..offset + (n + 1) * PACKET_SIZE])
  }

  class Injector {
    /** The static auxiliary buffers, one row of AUX_COUNT payloads per tag. */
    const auxbuf: array2<Byte>
    const fill: array<int>
    const count1: array<int>
    var calls: seq<Call>

    ghost predicate Allocated() {
      && auxbuf.Length0 == TAG_COUNT && auxbuf.Length1 == ROW
      && fill.Length == TAG_COUNT && count1.Length == TAG_COUNT && fill != count1
    }

    ghost predicate Row(tag: int, data: seq<Byte>)
      reads auxbuf
      requires Allocated() && 0 <= tag < TAG_COUNT
    {
      |data| <= ROW && forall i :: 0 <= i < |data| ==> auxbuf[tag, i] == data[i]
    }

    /** The buffers hold what is pending in `a`. */
    ghost predicate Holds(a: Aux)
      reads this, auxbuf, fill, count1
    {
      && Allocated() && Sized(a) && calls == a.calls
      && forall t :: 0 <= t < TAG_COUNT ==>
           fill[t] == |a.pending[t]| && count1[t] == a.counts[t] && Row(t, a.pending[t])
    }

    constructor ()
      ensures Allocated() && fresh(auxbuf) && fresh(fill) && fresh(count1) && calls == []
    {
      auxbuf := new Byte[TAG_COUNT, ROW]((i, j) => 0);
      fill := new int[TAG_COUNT](_ => 0);
      count1 := new int[TAG_COUNT](_ => 0);
      calls := [];
    }

    method Demultiplex(c: Setup, tag: int, ghost a: Aux)
      requires Holds(a) && 0 <= tag < TAG_COUNT
      modifies this, fill, count1
      ensures Holds(Flush(c, a, tag))
    {
      var data := RowPrefix(tag, count1[tag] * PAYLOAD_SIZE);
      calls := calls + [Call(tag, c.demux[c.demuxTag[tag]], data, count1[tag])];
      assert data == a.pending[tag];
      fill[tag] := 0;
      count1[tag] := 0;
    }

    method RowPrefix(tag: int, n: int) returns (data: seq<Byte>)
      requires Allocated() && 0 <= tag < TAG_COUNT && 0 <= n <= ROW
      ensures |data| == n && forall i :: 0 <= i < n ==> data[i] == auxbuf[tag, i]
    {
      data := seq(n, i requires 0 <= i < n reads auxbuf => auxbuf[tag, i]);
    }

    method CopyPayload(tag: int, packet: seq<Byte>, ghost a: Aux)
      requires Holds(a) && Fits(a) && 0 <= tag < TAG_COUNT && IsPacket(packet)
      modifies auxbuf, fill, count1
      ensures Holds(Collect(a, tag, packet))
    {
      var at := fill[tag];
      for i := 0 to PAYLOAD_SIZE
        invariant forall t :: 0 <= t < TAG_COUNT ==> Row(t, a.pending[t])
        invariant Row(tag, a.pending[tag] + packet[HEADER_SIZE..HEADER_SIZE + i])
        invariant forall t :: 0 <= t < TAG_COUNT ==> fill[t] == |a.pending[t]| && count1[t] == a.counts[t]
      {
        auxbuf[tag, at + i] := packet[HEADER_SIZE + i];
      }
      assert packet[HEADER_SIZE..HEADER_SIZE + PAYLOAD_SIZE] == packet[HEADER_SIZE..];
      fill[tag] := at + PAYLOAD_SIZE;
      count1[tag] := count1[tag] + 1;
    }

    method SortPacket(c: Setup, packet: seq<Byte>, ghost a: Aux)
      requires Holds(a) && Fits(a) && IsPacket(packet)
      modifies this, auxbuf, fill, count1
      ensures Holds(OnePacket(c, a, packet))
    {
      ShiftAndMask(packet[0]);
      var tag := ((packet[0] >> 2) & 0xf) as int;
      if tag < TAG_COUNT && c.demux[c.demuxTag[tag]] != NONE {
        CopyPayload(tag, packet, a);
        if count1[tag] >= AUX_COUNT { Demultiplex(c, tag, Collect(a, tag, packet)); }
      }
    }

    method FlushRemainders(c: Setup, ghost a: Aux)
      requires Holds(a) && Fits(a)
      modifies this, fill, count1
      ensures Holds(Remainders(c, a, TAG_COUNT))
    {
      for n := 0 to TAG_COUNT
        invariant Holds(Remainders(c, a, n))
      {
        if count1[n] > 0 && c.demux[c.demuxTag[n]] != NONE { Demultiplex(c, n, Remainders(c, a, n)); }
      }
    }

    /** Both counters of every tag start at zero. */
    method ClearAll()
      requires Allocated() && calls == []
      modifies fill, count1
      ensures Holds(EMPTY)
    {
      forall t | 0 <= t < TAG_COUNT { fill[t] := 0; }
      forall t | 0 <= t < TAG_COUNT { count1[t] := 0; }
    }

    /** The packets of one entry, one after the other. */
    method SortPackets(c: Setup, buffer: array<Byte>, offset: int, count: nat, ghost start: Aux, ghost ps: seq<seq<Byte>>)
      requires Holds(start) && Fits(start) && 0 <= offset && offset + count * PACKET_SIZE <= buffer.Length
      requires ps == PacketsAt(buffer[..], offset, count)
      requires buffer !in {fill as object, auxbuf as object, count1 as object}
      modifies this, auxbuf, fill, count1
      ensures Holds(Packets(c, start, ps))
    {
      ghost var a, bytes := start, buffer[..];
      var from := offset;
      for n := 0 to count
        invariant from == offset + n * PACKET_SIZE && buffer[..] == bytes
        invariant Fits(a) && Holds(a) && a == Packets(c, start, ps[..n])
      {
        PacketFrom(bytes, offset, count, n);
        var packet := buffer[from..from + PACKET_SIZE];
        assert packet == bytes[from..from + PACKET_SIZE];
        PacketsOnward(c, start, ps, n);
        SortPacket(c, packet, a);
        a := OnePacket(c, a, packet);
        from := from + PACKET_SIZE;
      }
      assert ps[..count] == ps;
    }

    /** The injector's work on one entry of the queue. */
    method InjectBatch(c: Setup, buffer: array<Byte>, offset: int, count: nat)
      requires Allocated() && calls == []
      requires 0 <= offset && offset + count * PACKET_SIZE <= buffer.Length
      requires buffer !in {fill as object, auxbuf as object, count1 as object}
      modifies this, auxbuf, fill, count1
      ensures calls == Batch(c, PacketsAt(buffer[..], offset, count)).calls
    {
      ghost var ps := PacketsAt(buffer[..], offset, count);
      ClearAll();
      SortPackets(c, buffer, offset, count, EMPTY, ps);
      FlushRemainders(c, Packets(c, EMPTY, ps));
    }
  }

  lemma PacketFrom(buffer: seq<Byte>, offset: int, count: nat, n: nat)
    requires 0 <= offset && offset + count * PACKET_SIZE <= |buffer| && n < count
    ensures offset + (n + 1) * PACKET_SIZE <= |buffer|
    ensures PacketsAt(buffer, offset, count)[n] == buffer[offset + n * PACKET_SIZE..offset + n * PACKET_SIZE + PACKET_SIZE]
  {
  }

  lemma PacketsOnward(c: Setup, a: Aux, ps: seq<seq<Byte>>, n: nat)
    requires Fits(a) && (forall p :: p in ps ==> IsPacket(p)) && n < |ps|
    ensures Packets(c, a, ps[..n + 1]) == OnePacket(c, Packets(c, a, ps[..n]), ps[n])
  {
    assert ps[..n + 1][..n] == ps[..n];
  }
}
