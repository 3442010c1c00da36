/** The two variants of the poller that turns the write pointer of the DMA into work for the
    injector. The ring holds RING packets of PACKET_SIZE bytes; the hardware writes bytes. */
module PtiPoller {
  import opened PtiWorkQueue

  const PACKET_SIZE := 194
  const RING := 4096
  const BUFFER_SIZE := PACKET_SIZE * RING

  /** What one call of the poller leaves behind: the new read pointer, the entries it queues and
      the number of packets it reports to the firmware. */
  datatype Poll = Poll(rp: int, entries: seq<Entry>, count: int)

  // ---------------------------------------------------------------------------------------
  // The pollers
  // ---------------------------------------------------------------------------------------

  function Wrapped(base: int, rp: int): int {
    if rp / 16 == (base + BUFFER_SIZE) / 16 then base else rp
  }

  function Aligned(base: int, wp: int): int {
    wp - (wp - base) % PACKET_SIZE
  }

  /** The entries for the `count` packets from `rp` on; one entry, or two around the end of the ring. */
  function Entries(base: int, rp: int, wp: int, count: int): seq<Entry> {
    if rp <= wp then [Entry(rp - base, count)]
    else
      var first := (base + BUFFER_SIZE - rp) / PACKET_SIZE;
      [Entry(rp - base, first), Entry(0, count - first)]
  }

  /** The poller that keeps its own read pointer and serves both sides of a wrap at once. */
  function PollBoth(base: int, rp0: int, wp0: int, acknowledged: bool): Poll {
    var wp, rp := Aligned(base, wp0), Wrapped(base, rp0);
    var count := if rp <= wp then (wp - rp) / PACKET_SIZE
                 else ((base + BUFFER_SIZE - rp) + (wp - base)) / PACKET_SIZE;
    if count == 0 || !acknowledged then Poll(rp, [], 0) else Poll(wp, Entries(base, rp, wp, count), count)
  }

  /** The poller that stops at the end of the ring and continues there at its next call. */
  function PollFirst(base: int, rp0: int, wp: int, acknowledged: bool): Poll {
    var rp := Wrapped(base, rp0);
    var count := (if rp <= wp then wp - rp else base + BUFFER_SIZE - rp) / PACKET_SIZE;
    if count == 0 || !acknowledged then Poll(rp0, [], 0)
    else
      var next := rp + count * PACKET_SIZE;
      Poll(if next >= base + BUFFER_SIZE then base + (next - (base + BUFFER_SIZE)) else next,
           [Entry(rp - base, count)], count)
  }

  // ---------------------------------------------------------------------------------------
  // Packets by number: packet k of the stream lies in slot k % RING
  // ---------------------------------------------------------------------------------------

  function Offset(k: int): int { k % 4096 * 194 }

  /** The offsets of the `n` packets from packet `c` on. */
  function Offsets(c: int, n: nat): seq<int> {
    seq(n, i requires 0 <= i < n => Offset(c + i))
  }

  function PacketsOf(e: Entry): seq<int>
    requires e.count >= 0
  {
    seq(e.count, i requires 0 <= i < e.count => e.offset + i * PACKET_SIZE)
  }

  /** The offsets of the packets that a list of entries stands for, in order. */
  function Expand(entries: seq<Entry>): seq<int> {
    if entries == [] then [] else ExpandEntry(entries[0]) + Expand(entries[1..])
  }

  function ExpandEntry(e: Entry): seq<int> { if e.count < 0 then [] else PacketsOf(e) }

  /** An entry that stays inside the buffer and starts on a packet. */
  predicate Inside(e: Entry) {
    0 <= e.offset && 0 <= e.count && e.offset % PACKET_SIZE == 0 && e.offset + e.count * PACKET_SIZE <= BUFFER_SIZE
  }

  function WritePointer(base: int, written: nat): int { base + written % BUFFER_SIZE }

  function Complete(written: nat): nat { written / 194 }

  lemma WritePointerInPackets(written: nat)
    ensures written % BUFFER_SIZE == Offset(Complete(written)) + written % PACKET_SIZE
  {
    var p, laps := Complete(written), written / BUFFER_SIZE;
    assert written == p * PACKET_SIZE + written % PACKET_SIZE;
    assert p == laps * RING + p % RING;
  }

  lemma Consecutive(c: nat, n: nat)
    requires c % RING + n <= RING
    ensures PacketsOf(Entry(Offset(c), n)) == Offsets(c, n)
  {
    forall i | 0 <= i < n ensures Offset(c) + i * PACKET_SIZE == Offset(c + i) {
      RemainderIs(c + i, c / RING, c % RING + i);
    }
  }

  lemma OffsetsSplit(c: int, m: nat, n: nat)
    ensures Offsets(c, m) + Offsets(c + m, n) == Offsets(c, m + n)
  {
  }

  lemma ExpandOne(e: Entry)
    requires e.count >= 0
    ensures Expand([e]) == PacketsOf(e)
  {
    assert Expand([e]) == PacketsOf(e) + Expand([e][1..]);
  }

  lemma Associative(x: seq<int>, y: seq<int>, z: seq<int>)
    ensures x + (y + z) == (x + y) + z
  {
  }

  lemma {:induction false} ExpandConcat(a: seq<Entry>, b: seq<Entry>)
    ensures Expand(a + b) == Expand(a) + Expand(b)
  {
    if a == [] {
      assert a + b == b;
    } else {
      assert (a + b)[1..] == a[1..] + b;
      ExpandConcat(a[1..], b);
      Associative(ExpandEntry(a[0]), Expand(a[1..]), Expand(b));
    }
  }

  /** What a poller must queue when `c` packets were queued before and `n` more are taken now. */
  ghost predicate Covers(base: int, c: nat, n: nat, r: Poll) {
    && r.count == n && r.rp == base + Offset(c + n)
    && Expand(r.entries) == Offsets(c, n)
    && (forall e :: e in r.entries ==> Inside(e))
  }

  /** The packets waiting in the ring, as far as the two pointers can tell. */
  function WaitingModRing(written: nat, c: nat): nat {
    (Complete(written) - c) % RING
  }

  /** The slots from `i` up to `j`, around the end of the ring if need be. */
  function Distance(i: int, j: int): int { if i <= j then j - i else RING - i + j }

  function SlotEntries(i: int, j: int): seq<Entry> {
    if i == j then []
    else if i < j then [Entry(i * PACKET_SIZE, j - i)]
    else [Entry(i * PACKET_SIZE, RING - i), Entry(0, j)]
  }

  lemma WholeSlots(n: nat)
    ensures n * PACKET_SIZE / PACKET_SIZE == n
  {
  }

  /** The first variant in terms of ring slots: the reader at slot `i`, the writer `part` bytes into slot `j`. */
  lemma PollBothInSlots(base: nat, i: nat, j: nat, part: nat)
    requires i < RING && j < RING && part < PACKET_SIZE
    ensures var r := PollBoth(base, base + i * PACKET_SIZE, base + j * PACKET_SIZE + part, true);
            r == Poll(base + j * PACKET_SIZE, SlotEntries(i, j), Distance(i, j))
  {
    var rp, wp := base + i * PACKET_SIZE, base + j * PACKET_SIZE;
    assert Aligned(base, wp + part) == wp;
    assert Wrapped(base, rp) == rp;
    if i <= j {
      WholeSlots(j - i);
      assert wp - rp == (j - i) * PACKET_SIZE;
    } else {
      WholeSlots(RING - i + j);
      WholeSlots(RING - i);
      assert base + BUFFER_SIZE - rp == (RING - i) * PACKET_SIZE;
      assert (base + BUFFER_SIZE - rp) + (wp - base) == (RING - i + j) * PACKET_SIZE;
    }
  }

  /** The second variant in terms of ring slots. */
  lemma PollFirstInSlots(base: nat, i: nat, j: nat, part: nat)
    requires i < RING && j < RING && part < PACKET_SIZE
    ensures var r := PollFirst(base, base + i * PACKET_SIZE, base + j * PACKET_SIZE + part, true);
            if i <= j then r == Poll(base + j * PACKET_SIZE, SlotEntries(i, j), Distance(i, j))
            else r == Poll(base, [Entry(i * PACKET_SIZE, RING - i)], RING - i)
  {
    var rp, wp := base + i * PACKET_SIZE, base + j * PACKET_SIZE;
    assert Wrapped(base, rp) == rp;
    if i <= j {
      assert (wp + part - rp) / PACKET_SIZE == j - i;
    } else {
      assert (base + BUFFER_SIZE - rp) / PACKET_SIZE == RING - i;
    }
  }

  lemma SlotEntriesCover(c: nat, p: nat)
    ensures (p - c) % RING == Distance(c % RING, p % RING)
    ensures Expand(SlotEntries(c % RING, p % RING)) == Offsets(c, (p - c) % RING)
    ensures forall e :: e in SlotEntries(c % RING, p % RING) ==> Inside(e)
  {
    var i, j := c % RING, p % RING;
    var n := Distance(i, j);
    ModDifference(p, c);
    if i < j {
      Consecutive(c, n);
      ExpandOne(Entry(Offset(c), n));
    } else if i > j {
      var first := RING - i;
      Consecutive(c, first);
      LapStart(c, first);
      Consecutive(c + first, j);
      OffsetsSplit(c, first, j);
      ExpandOne(Entry(Offset(c), first));
      ExpandOne(Entry(0, j));
      ExpandConcat([Entry(Offset(c), first)], [Entry(0, j)]);
      assert [Entry(Offset(c), first)] + [Entry(0, j)] == SlotEntries(i, j);
    }
  }

  /** The first variant queues what waits modulo RING, listing each packet once and in order. */
  lemma PollBothCovers(base: nat, c: nat, written: nat)
    ensures Covers(base, c, WaitingModRing(written, c), PollBoth(base, base + Offset(c), WritePointer(base, written), true))
  {
    var p := Complete(written);
    WritePointerInPackets(written);
    PollBothInSlots(base, c % RING, p % RING, written % PACKET_SIZE);
    SlotEntriesCover(c, p);
    ModDifference(p, c);
  }

  lemma LastStretch(c: nat)
    ensures var room := RING - c % RING;
            Expand([Entry(Offset(c), room)]) == Offsets(c, room) && Inside(Entry(Offset(c), room)) && Offset(c + room) == 0
  {
    var room := RING - c % RING;
    LapStart(c, room);
    Consecutive(c, room);
    ExpandOne(Entry(Offset(c), room));
  }

  /** The second variant queues what waits up to the end of the ring. */
  lemma PollFirstCovers(base: nat, c: nat, written: nat)
    ensures Covers(base, c, Piece(Complete(written), c), PollFirst(base, base + Offset(c), WritePointer(base, written), true))
  {
    var p := Complete(written);
    WritePointerInPackets(written);
    PollFirstInSlots(base, c % RING, p % RING, written % PACKET_SIZE);
    ModDifference(p, c);
    SlotEntriesCover(c, p);
    if c % RING > p % RING { LastStretch(c); }
  }

  /** How much of what waits lies before the end of the ring. */
  function Piece(p: nat, c: nat): nat {
    var n, room := (p - c) % RING, RING - c % RING;
    if n <= room then n else room
  }

  lemma ModDifference(p: nat, c: nat)
    ensures (p - c) % RING == if c % RING <= p % RING then p % RING - c % RING else RING - c % RING + p % RING
    ensures (c + (p - c) % RING) % RING == p % RING
  {
    var i, j, laps := c % RING, p % RING, p / RING - c / RING;
    assert p - c == laps * RING + (j - i);
    if i <= j {
      RemainderIs(p - c, laps, j - i);
    } else {
      RemainderIs(p - c, laps - 1, RING + j - i);
    }
    RemainderIs(c + (p - c) % RING, if i <= j then c / RING else c / RING + 1, j);
  }

  lemma RemainderIs(x: int, q: int, d: nat)
    requires x == q * RING + d && d < RING
    ensures x % RING == d
  {
  }

  lemma LapStart(c: nat, first: nat)
    requires first == RING - c % RING
    ensures Offset(c + first) == 0 && (c + first) % RING == 0
  {
  }

  // ---------------------------------------------------------------------------------------
  // Runs of the hardware and one of the pollers
  // ---------------------------------------------------------------------------------------

  datatype Variant = Both | First

  /** The bytes written so far, the packets queued so far, the read pointer and the entries queued. */
  datatype Ring = Ring(written: nat, queued: nat, rp: int, log: seq<Entry>)

  datatype Event = Write(bytes: nat) | Tick(acknowledged: bool)

  function PollOf(v: Variant, base: int, rp: int, wp: int, acknowledged: bool): Poll {
    if v.Both? then PollBoth(base, rp, wp, acknowledged) else PollFirst(base, rp, wp, acknowledged)
  }

  function RingStep(v: Variant, base: int, r: Ring, e: Event): Ring {
    match e
    case Write(bytes) => r.(written := r.written + bytes)
    case Tick(acknowledged) =>
      var p := PollOf(v, base, r.rp, WritePointer(base, r.written), acknowledged);
      Ring(r.written, if p.count < 0 then r.queued else r.queued + p.count, p.rp, r.log + p.entries)
  }

  function RingRun(v: Variant, base: int, r: Ring, events: seq<Event>): Ring
    decreases |events|
  {
    if events == [] then r else RingRun(v, base, RingStep(v, base, r, events[0]), events[1..])
  }

  function EmptyRing(base: int): Ring { Ring(0, 0, base, []) }

  ghost predicate RingInv(base: int, r: Ring) {
    && r.rp == base + Offset(r.queued) && r.queued <= Complete(r.written)
    && Expand(r.log) == Offsets(0, r.queued)
    && (forall e :: e in r.log ==> Inside(e))
  }

  /** A poll that does not find the acknowledgement leaves everything as it is. */
  lemma PollUnacknowledged(v: Variant, base: nat, c: nat, wp: int)
    ensures PollOf(v, base, base + Offset(c), wp, false) == Poll(base + Offset(c), [], 0)
  {
    assert Wrapped(base, base + Offset(c)) == base + Offset(c);
  }

  /** How many packets an acknowledged tick queues when `p` are complete and `c` were queued. */
  function Served(v: Variant, p: nat, c: nat): int {
    if v.Both? then (p - c) % RING else Piece(p, c)
  }

  lemma ServedFits(v: Variant, p: nat, c: nat)
    requires c <= p
    ensures 0 <= Served(v, p, c) <= p - c
  {
  }

  lemma PollCovers(v: Variant, base: nat, c: nat, written: nat)
    ensures Served(v, Complete(written), c) >= 0
    ensures Covers(base, c, Served(v, Complete(written), c), PollOf(v, base, base + Offset(c), WritePointer(base, written), true))
  {
    if v.Both? { PollBothCovers(base, c, written); } else { PollFirstCovers(base, c, written); }
  }

  lemma CoveringPollKeepsInv(base: nat, r: Ring, n: nat, p: Poll)
    requires RingInv(base, r) && Covers(base, r.queued, n, p) && r.queued + n <= Complete(r.written)
    ensures RingInv(base, Ring(r.written, r.queued + n, p.rp, r.log + p.entries))
  {
    ExpandConcat(r.log, p.entries);
    OffsetsSplit(0, r.queued, n);
  }

  lemma TickQueues(v: Variant, base: nat, r: Ring)
    requires RingInv(base, r)
    ensures RingInv(base, RingStep(v, base, r, Tick(true)))
    ensures RingStep(v, base, r, Tick(true)).queued == r.queued + Served(v, Complete(r.written), r.queued)
    ensures RingStep(v, base, r, Tick(true)).written == r.written
  {
    var n, p := Served(v, Complete(r.written), r.queued), PollOf(v, base, r.rp, WritePointer(base, r.written), true);
    ServedFits(v, Complete(r.written), r.queued);
    PollCovers(v, base, r.queued, r.written);
    CoveringPollKeepsInv(base, r, n, p);
  }

  lemma RingStepKeepsInv(v: Variant, base: nat, r: Ring, e: Event)
    requires RingInv(base, r)
    ensures RingInv(base, RingStep(v, base, r, e))
  {
    match e
    case Write(bytes) => CompleteGrows(r.written, bytes);
    case Tick(true) => TickQueues(v, base, r);
    case Tick(false) =>
      PollUnacknowledged(v, base, r.queued, WritePointer(base, r.written));
      assert r.log + [] == r.log;
  }

  lemma CompleteGrows(written: nat, bytes: nat)
    ensures Complete(written) <= Complete(written + bytes)
  {
  }

  /** In every run, of either variant and across any number of wraps, the queued entries list the
      packets 0, 1, 2, ... in order and once each, stay inside the buffer and start on packets. */
  lemma {:induction false} EveryRingRun(v: Variant, base: nat, r: Ring, events: seq<Event>)
    requires RingInv(base, r)
    ensures RingInv(base, RingRun(v, base, r, events))
    decreases |events|
  {
    if events != [] {
      RingStepKeepsInv(v, base, r, events[0]);
      EveryRingRun(v, base, RingStep(v, base, r, events[0]), events[1..]);
    }
  }

  lemma ModBelow(d: nat)
    ensures d % RING == d <==> d < RING
  {
  }

  /** An acknowledged tick of the first variant queues every complete packet if and only if fewer
      than RING were outstanding; otherwise a multiple of RING packets is passed over in silence. */
  lemma BothCatchesUpExactly(base: nat, events: seq<Event>)
    ensures var r := RingRun(Both, base, EmptyRing(base), events);
            var t := RingStep(Both, base, r, Tick(true));
            && r.queued <= Complete(r.written) && (Complete(r.written) - t.queued) % 4096 == 0
            && (t.queued == Complete(r.written) <==> Complete(r.written) - r.queued < 4096)
            && (t.queued == Complete(r.written) ==> Expand(t.log) == Offsets(0, Complete(r.written)))
  {
    EveryRingRun(Both, base, EmptyRing(base), events);
    BothCatchesUpFrom(base, RingRun(Both, base, EmptyRing(base), events));
  }

  lemma BothCatchesUpFrom(base: nat, r: Ring)
    requires RingInv(base, r)
    ensures var t := RingStep(Both, base, r, Tick(true));
            && r.queued <= Complete(r.written) && (Complete(r.written) - t.queued) % RING == 0
            && (t.queued == Complete(r.written) <==> Complete(r.written) - r.queued < RING)
            && (t.queued == Complete(r.written) ==> Expand(t.log) == Offsets(0, Complete(r.written)))
  {
    BothOnce(base, r);
    CatchesUp(Complete(r.written), r.queued, RingStep(Both, base, r, Tick(true)).queued);
  }

  lemma CatchesUp(complete: nat, before: nat, after: nat)
    requires before <= complete && after == before + (complete - before) % RING
    ensures after <= complete && (complete - after) % RING == 0 && (after == complete <==> complete - before < RING)
  {
    ModBelow(complete - before);
    WholeRings(complete - before);
  }

  lemma BothOnce(base: nat, r: Ring)
    requires RingInv(base, r)
    ensures var t := RingStep(Both, base, r, Tick(true));
            RingInv(base, t) && t.queued == r.queued + (Complete(r.written) - r.queued) % RING
  {
    TickQueues(Both, base, r);
  }

  lemma WholeRings(d: nat)
    ensures (d - d % RING) % RING == 0
  {
  }

  /** What waits is served by one piece up to the end of the ring and one after it. */
  lemma TwoPieces(p: nat, c: nat)
    ensures Piece(p, c) + Piece(p, c + Piece(p, c)) == (p - c) % RING
  {
    var n, room := (p - c) % RING, RING - c % RING;
    if n <= room {
      assert (p - (c + n)) % RING == 0;
    } else {
      LapStart(c, room);
      assert (p - (c + room)) % RING == n - room;
    }
  }

  lemma FirstTwice(base: nat, r: Ring)
    requires RingInv(base, r)
    ensures var t := RingStep(First, base, RingStep(First, base, r, Tick(true)), Tick(true));
            RingInv(base, t) && t.queued == r.queued + (Complete(r.written) - r.queued) % RING
  {
    var s := RingStep(First, base, r, Tick(true));
    TickQueues(First, base, r);
    TickQueues(First, base, s);
    TwoPieces(Complete(r.written), r.queued);
  }

  /** Two acknowledged ticks of the second variant do the same. */
  lemma FirstCatchesUpExactly(base: nat, events: seq<Event>)
    ensures var r := RingRun(First, base, EmptyRing(base), events);
            var t := RingStep(First, base, RingStep(First, base, r, Tick(true)), Tick(true));
            && r.queued <= Complete(r.written)
            && (t.queued == Complete(r.written) <==> Complete(r.written) - r.queued < 4096)
            && (t.queued == Complete(r.written) ==> Expand(t.log) == Offsets(0, Complete(r.written)))
  {
    EveryRingRun(First, base, EmptyRing(base), events);
    var r := RingRun(First, base, EmptyRing(base), events);
    FirstTwice(base, r);
    CatchesUp(Complete(r.written), r.queued, RingStep(First, base, RingStep(First, base, r, Tick(true)), Tick(true)).queued);
  }

  // ---------------------------------------------------------------------------------------
  // The driver's own code
  // ---------------------------------------------------------------------------------------

  class Poller {
    const base: int
    const queue: WorkQueue
    var rp: int
    var loopCount: int
    var loopCount2: int
    var packetCount: int

    ghost predicate Valid()
      reads this, queue, queue.slots
    {
      queue.Valid() && 0 <= base
    }

    constructor (base: int, queue: WorkQueue)
      requires queue.Valid() && 0 <= base
      ensures Valid() && this.base == base && this.queue == queue && rp == base
    {
      this.base, this.queue, rp := base, queue, base;
      loopCount, loopCount2, packetCount := 0, 0, 0;
    }

    method Notify(round: bool, count: int)
      requires Valid()
      modifies queue, queue.slots
      ensures Valid()
      ensures queue.View() == Exec(old(queue.View()), Puts(Entries(base, rp, if round then rp - 1 else rp, count)))
    {
      if round {
        var first := (base + BUFFER_SIZE - rp) / PACKET_SIZE;
        PutsTwo(queue.View(), Entry(rp - base, first), Entry(0, count - first));
        queue.PutWork(rp - base, first);
        queue.PutWork(0, count - first);
      } else {
        PutsOne(queue.View(), Entry(rp - base, count));
        queue.PutWork(rp - base, count);
      }
    }

    /** One tick of the timer in the first variant. `register` is the write pointer of the DMA and
        `pread` the count the firmware has yet to acknowledge; the result is the new count. */
    method ProcessPtiDma(register: int, pread: int) returns (report: int)
      requires Valid()
      modifies this, queue, queue.slots
      ensures Valid()
      ensures var p := PollBoth(base, old(rp), register, pread == 0);
              && rp == p.rp && report == (if p.count == 0 then pread else p.count)
              && queue.View() == Exec(old(queue.View()), Puts(p.entries))
    {
      var top := base + BUFFER_SIZE;
      var wp := register - (register - base) % PACKET_SIZE;
      var round, count := false, 0;
      report := pread;
      if rp / 16 == top / 16 { rp := base; }
      if rp <= wp {
        count := (wp - rp) / PACKET_SIZE;
      } else {
        count := ((top - rp) + (wp - base)) / PACKET_SIZE;
        loopCount2, packetCount, round := loopCount2 + 1, 0, true;
      }
      if count != 0 && pread == 0 {
        loopCount, packetCount := loopCount + 1, packetCount + count;
        report := count;
        Notify(round, count);
        rp := wp;
      } else {
        assert Puts([]) == [];
      }
    }

    /** One tick in the second variant, which keeps its read pointer in a register of the DMA. */
    method ProcessPtiDmaFirst(readRegister: int, writeRegister: int, pread: int) returns (newRead: int, report: int)
      requires Valid()
      modifies this, queue, queue.slots
      ensures Valid() && rp == old(rp)
      ensures var p := PollFirst(base, readRegister, writeRegister, pread == 0);
              && newRead == p.rp && report == (if p.count == 0 then pread else p.count)
              && queue.View() == Exec(old(queue.View()), Puts(p.entries))
    {
      var from, top := readRegister, base + BUFFER_SIZE;
      newRead, report := readRegister, pread;
      if from / 16 == top / 16 { from := base; }
      var size := if from <= writeRegister then writeRegister - from else top - from;
      var count := size / PACKET_SIZE;
      if count != 0 && pread == 0 {
        loopCount := loopCount + 1;
        newRead := from + count * PACKET_SIZE;
        packetCount := packetCount + count;
        if newRead >= top {
          newRead := base + (newRead - top);
          loopCount2, packetCount := loopCount2 + 1, 0;
        }
        report := count;
        PutsOne(queue.View(), Entry(from - base, count));
        queue.PutWork(from - base, count);
      } else {
        assert Puts([]) == [];
      }
    }
  }

  lemma PutsOne(s: System, e: Entry)
    requires Shape(s.q)
    ensures Exec(s, Puts([e])) == Step(s, Put(e))
  {
    assert Puts([e]) == [Put(e)];
    assert Exec(Step(s, Put(e)), []) == Step(s, Put(e));
  }

  lemma PutsTwo(s: System, e: Entry, f: Entry)
    requires Shape(s.q)
    ensures Exec(s, Puts([e, f])) == Step(Step(s, Put(e)), Put(f))
  {
    assert Puts([e, f])[0] == Put(e) && Puts([e, f])[1..] == Puts([f]);
    PutsOne(Step(s, Put(e)), f);
  }
}
