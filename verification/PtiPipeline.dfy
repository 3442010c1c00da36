/** The whole way of a packet: the hardware writes it into the ring, the poller queues the stretch
    it lies in, and the injector takes the stretch, copies the packet out of the ring and hands it
    over. Hardware, timer and injector interleave freely, also in the middle of a batch. */
module PtiPipeline {
  import Q = PtiWorkQueue
  import P = PtiPoller
  import I = PtiInjector

  type Byte = I.Byte

  /** Which poller is built in, all bytes the hardware ever wrote, the poller's side, the queue with the injector's place in
      its loop, the packets done of the current stretch and in all, and the auxiliary buffers. */
  datatype Pipe = Pipe(variant: P.Variant, stream: seq<Byte>, ring: P.Ring, sys: Q.System, inBatch: nat, done: nat, aux: I.Aux)

  datatype Event = Write(bytes: seq<Byte>) | Tick(acknowledged: bool) | Inject

  /** The byte last written at position `a` of the ring. */
  function RingByte(stream: seq<Byte>, a: nat): Byte
    requires a < P.BUFFER_SIZE
  {
    if a < |stream| then stream[|stream| - 1 - (|stream| - 1 - a) % P.BUFFER_SIZE] else 0
  }

  function RingPacket(stream: seq<Byte>, offset: int): (p: seq<Byte>)
    ensures I.IsPacket(p)
  {
    seq(P.PACKET_SIZE, i requires 0 <= i < P.PACKET_SIZE =>
      if 0 <= offset + i < P.BUFFER_SIZE then RingByte(stream, offset + i) else 0)
  }

  /** Packet number `k` of the stream. */
  function StreamPacket(stream: seq<Byte>, k: nat): seq<Byte>
    requires (k + 1) * P.PACKET_SIZE <= |stream|
  {
    stream[k * P.PACKET_SIZE..(k + 1) * P.PACKET_SIZE]
  }

  function StreamPackets(stream: seq<Byte>, n: nat): (ps: seq<seq<Byte>>)
    requires n * P.PACKET_SIZE <= |stream|
    ensures |ps| == n && forall p :: p in ps ==> I.IsPacket(p)
  {
    seq(n, k requires 0 <= k < n => StreamPacket(stream, k))
  }

  predicate Shape(s: Pipe) { Q.Shape(s.sys.q) && I.Fits(s.aux) }

  function TickPipe(base: int, s: Pipe, acknowledged: bool): (r: Pipe)
    requires Shape(s)
    ensures Shape(r)
  {
    var p := P.PollOf(s.variant, base, s.ring.rp, P.WritePointer(base, s.ring.written), acknowledged);
    s.(ring := P.RingStep(s.variant, base, s.ring, P.Tick(acknowledged)), sys := Q.Exec(s.sys, Q.Puts(p.entries)))
  }

  /** One step of the injector; a batch starts from empty auxiliary buffers. */
  function InjectPipe(c: I.Setup, s: Pipe): (r: Pipe)
    requires Shape(s)
    ensures Shape(r)
  {
    if s.sys.q.pc != Q.Injecting then
      s.(sys := Q.Step(s.sys, Q.Inject), inBatch := 0)
    else if s.inBatch < s.sys.q.local.count then
      var packet := RingPacket(s.stream, s.sys.q.local.offset + s.inBatch * P.PACKET_SIZE);
      s.(aux := I.OnePacket(c, s.aux, packet), inBatch := s.inBatch + 1, done := s.done + 1)
    else
      var a := I.Remainders(c, s.aux, I.TAG_COUNT);
      s.(aux := I.EMPTY.(calls := a.calls), sys := Q.Step(s.sys, Q.Inject), inBatch := 0)
  }

  function Step(c: I.Setup, base: int, s: Pipe, e: Event): (r: Pipe)
    requires Shape(s)
    ensures Shape(r)
  {
    match e
    case Write(bytes) => s.(stream := s.stream + bytes, ring := P.RingStep(s.variant, base, s.ring, P.Write(|bytes|)))
    case Tick(acknowledged) => TickPipe(base, s, acknowledged)
    case Inject => InjectPipe(c, s)
  }

  function Run(c: I.Setup, base: int, s: Pipe, events: seq<Event>): (r: Pipe)
    requires Shape(s)
    ensures Shape(r)
    decreases |events|
  {
    if events == [] then s else Run(c, base, Step(c, base, s, events[0]), events[1..])
  }

  function Start(v: P.Variant, base: int): (s: Pipe)
    ensures Shape(s)
  {
    Pipe(v, [], P.EmptyRing(base), Q.Initial(), 0, 0, I.EMPTY)
  }

  // ---------------------------------------------------------------------------------------
  // The system keeps up: no entry is lost, and no packet is overwritten before it is copied
  // ---------------------------------------------------------------------------------------

  predicate Copies(s: Pipe, e: Event) {
    e.Inject? && s.sys.q.pc == Q.Injecting && s.inBatch < s.sys.q.local.count
  }

  predicate Timely(s: Pipe, e: Event) {
    && (e.Inject? ==> Q.Safe(s.sys, Q.Inject))
    && (Copies(s, e) ==> |s.stream| <= s.done * P.PACKET_SIZE + P.BUFFER_SIZE)
  }

  predicate TimelyRun(c: I.Setup, base: int, s: Pipe, events: seq<Event>)
    requires Shape(s)
    decreases |events|
  {
    events == [] || (Timely(s, events[0]) && TimelyRun(c, base, Step(c, base, s, events[0]), events[1..]))
  }

  // ---------------------------------------------------------------------------------------
  // The invariant, for one tag
  // ---------------------------------------------------------------------------------------

  /** The packets in the entries taken so far. */
  function Taken(h: Q.History): nat
    requires |h.taken| <= |h.queued|
  {
    |P.Expand(h.queued[..|h.taken|])|
  }

  ghost predicate QueueOk(base: int, s: Pipe) {
    && P.RingInv(base, s.ring) && s.ring.written == |s.stream|
    && Q.Inv(s.sys) && Q.Lossless(s.sys) && s.sys.h.queued == s.ring.log
  }

  ghost predicate BatchOk(s: Pipe)
    requires |s.sys.h.taken| <= |s.sys.h.queued|
  {
    && s.done == Taken(s.sys.h) + s.inBatch
    && if s.sys.q.pc == Q.Injecting then s.inBatch <= s.sys.q.local.count else s.inBatch == 0
  }

  ghost predicate AuxOk(c: I.Setup, s: Pipe, tag: int) {
    && I.Registered(c, tag) && I.Fits(s.aux) && I.CallsOk(c, s.aux.calls)
    && (s.sys.q.pc != Q.Injecting ==> s.aux.pending[tag] == [])
    && s.done * P.PACKET_SIZE <= |s.stream|
    && I.Through(s.aux, tag) == I.PayloadsOf(StreamPackets(s.stream, s.done), tag)
  }

  ghost predicate Inv(c: I.Setup, base: int, s: Pipe, tag: int) {
    QueueOk(base, s) && |s.sys.h.taken| <= |s.sys.h.queued| && BatchOk(s) && AuxOk(c, s, tag)
  }

  // ---------------------------------------------------------------------------------------
  // Where the injector finds a packet
  // ---------------------------------------------------------------------------------------

  /** Reading slot `k % RING` gives packet `k` as long as the hardware has written it and has not
      come round to it again. */
  lemma RingHoldsPacket(stream: seq<Byte>, k: nat)
    requires (k + 1) * P.PACKET_SIZE <= |stream| <= k * P.PACKET_SIZE + P.BUFFER_SIZE
    ensures RingPacket(stream, P.Offset(k)) == StreamPacket(stream, k)
  {
    var packet := RingPacket(stream, P.Offset(k));
    forall i | 0 <= i < P.PACKET_SIZE ensures packet[i] == stream[k * P.PACKET_SIZE + i] {
      Position(|stream|, k, i);
      assert packet[i] == RingByte(stream, P.Offset(k) + i);
    }
  }

  lemma Position(h: nat, k: nat, i: nat)
    requires i < P.PACKET_SIZE && (k + 1) * P.PACKET_SIZE <= h <= k * P.PACKET_SIZE + P.BUFFER_SIZE
    ensures var a := P.Offset(k) + i;
            0 <= a < P.BUFFER_SIZE && a < h && h - 1 - (h - 1 - a) % P.BUFFER_SIZE == k * P.PACKET_SIZE + i
  {
    var a, laps := P.Offset(k) + i, k / P.RING;
    assert k == laps * P.RING + k % P.RING;
    assert k * P.PACKET_SIZE + i == a + laps * P.BUFFER_SIZE;
    Congruent(h - 1 - a, laps, h - 1 - (k * P.PACKET_SIZE + i));
  }

  lemma Congruent(x: int, laps: nat, d: nat)
    requires x == d + laps * P.BUFFER_SIZE && d < P.BUFFER_SIZE
    ensures x % P.BUFFER_SIZE == d
  {
  }

  lemma LocalIsNextEntry(base: int, s: Pipe)
    requires QueueOk(base, s) && s.sys.q.pc == Q.Injecting
    ensures |s.sys.h.taken| < |s.sys.h.queued| && s.sys.q.local == s.sys.h.queued[|s.sys.h.taken|]
    ensures P.Inside(s.sys.q.local)
  {
    assert s.sys.h.queued[|s.sys.h.taken|] in s.ring.log;
  }

  lemma ExpandUpTo(q: seq<Q.Entry>, t: nat)
    requires t < |q| && q[t].count >= 0
    ensures P.Expand(q[..t + 1]) == P.Expand(q[..t]) + P.PacketsOf(q[t])
  {
    P.ExpandOne(q[t]);
    P.ExpandConcat(q[..t], [q[t]]);
    assert q[..t + 1] == q[..t] + [q[t]];
  }

  lemma ExpandAll(q: seq<Q.Entry>, t: nat)
    requires t <= |q|
    ensures P.Expand(q) == P.Expand(q[..t]) + P.Expand(q[t..])
  {
    var a, b := q[..t], q[t..];
    P.ExpandConcat(a, b);
    assert a + b == q;
  }

  lemma TakenSplit(h: Q.History)
    requires |h.taken| < |h.queued| && h.queued[|h.taken|].count >= 0
    ensures var t := |h.taken|;
            P.Expand(h.queued) == P.Expand(h.queued[..t]) + P.PacketsOf(h.queued[t]) + P.Expand(h.queued[t + 1..])
    ensures var t := |h.taken|;
            P.Expand(h.queued[..t + 1]) == P.Expand(h.queued[..t]) + P.PacketsOf(h.queued[t])
  {
    ExpandUpTo(h.queued, |h.taken|);
    ExpandAll(h.queued, |h.taken| + 1);
  }

  /** The next packet of the batch is packet `done` of the stream. */
  lemma NextPacket(base: int, s: Pipe)
    requires QueueOk(base, s) && |s.sys.h.taken| <= |s.sys.h.queued| && BatchOk(s)
    requires s.sys.q.pc == Q.Injecting && s.inBatch < s.sys.q.local.count
    ensures s.sys.q.local.offset + s.inBatch * P.PACKET_SIZE == P.Offset(s.done)
    ensures s.done < s.ring.queued && (s.done + 1) * P.PACKET_SIZE <= |s.stream|
  {
    LocalIsNextEntry(base, s);
    TakenSplit(s.sys.h);
    var local, h := s.sys.q.local, s.sys.h;
    var all, before := P.Expand(h.queued), P.Expand(h.queued[..|h.taken|]);
    assert all[s.done] == P.PacketsOf(local)[s.inBatch];
    assert P.Offsets(0, s.ring.queued)[s.done] == P.Offset(s.done);
  }

  // ---------------------------------------------------------------------------------------
  // Every event keeps the invariant
  // ---------------------------------------------------------------------------------------

  lemma StreamGrows(stream: seq<Byte>, bytes: seq<Byte>, n: nat)
    requires n * P.PACKET_SIZE <= |stream|
    ensures StreamPackets(stream + bytes, n) == StreamPackets(stream, n)
  {
    forall k | 0 <= k < n ensures StreamPacket(stream + bytes, k) == StreamPacket(stream, k) {}
  }

  lemma WriteKeepsInv(c: I.Setup, base: nat, s: Pipe, bytes: seq<Byte>, tag: int)
    requires Shape(s) && Inv(c, base, s, tag)
    ensures Inv(c, base, Step(c, base, s, Write(bytes)), tag)
  {
    P.RingStepKeepsInv(s.variant, base, s.ring, P.Write(|bytes|));
    StreamGrows(s.stream, bytes, s.done);
  }

  lemma {:induction false} PutsAreSafe(sys: Q.System, entries: seq<Q.Entry>)
    requires Q.Shape(sys.q)
    ensures Q.SafeRun(sys, Q.Puts(entries))
    decreases |entries|
  {
    if entries != [] {
      assert Q.Puts(entries)[1..] == Q.Puts(entries[1..]);
      PutsAreSafe(Q.Step(sys, Q.Put(entries[0])), entries[1..]);
    }
  }

  lemma TickKeepsQueue(base: nat, s: Pipe, acknowledged: bool)
    requires Shape(s) && QueueOk(base, s)
    ensures QueueOk(base, TickPipe(base, s, acknowledged))
    ensures var r, entries := TickPipe(base, s, acknowledged),
                              P.PollOf(s.variant, base, s.ring.rp, P.WritePointer(base, s.ring.written), acknowledged).entries;
            r.sys.h == s.sys.h.(queued := s.sys.h.queued + entries)
            && r.sys.q.pc == s.sys.q.pc && r.sys.q.local == s.sys.q.local
  {
    var entries := P.PollOf(s.variant, base, s.ring.rp, P.WritePointer(base, s.ring.written), acknowledged).entries;
    P.RingStepKeepsInv(s.variant, base, s.ring, P.Tick(acknowledged));
    Q.PutsOnly(s.sys, entries);
    PutsAreSafe(s.sys, entries);
    Q.ExecKeepsInv(s.sys, Q.Puts(entries));
    Q.ExecIsLossless(s.sys, Q.Puts(entries));
  }

  lemma TickKeepsInv(c: I.Setup, base: nat, s: Pipe, acknowledged: bool, tag: int)
    requires Shape(s) && Inv(c, base, s, tag)
    ensures Inv(c, base, TickPipe(base, s, acknowledged), tag)
  {
    TickKeepsQueue(base, s, acknowledged);
    var r := TickPipe(base, s, acknowledged);
    assert r.sys.h.queued[..|r.sys.h.taken|] == s.sys.h.queued[..|s.sys.h.taken|];
  }

  lemma InjectKeepsQueue(base: nat, s: Pipe)
    requires QueueOk(base, s) && Q.Safe(s.sys, Q.Inject)
    ensures QueueOk(base, s.(sys := Q.Step(s.sys, Q.Inject)))
  {
    Q.StepKeepsInv(s.sys, Q.Inject);
    Q.StepIsLossless(s.sys, Q.Inject);
  }

  lemma AdvanceKeepsInv(c: I.Setup, base: nat, s: Pipe, tag: int)
    requires Shape(s) && Inv(c, base, s, tag) && Q.Safe(s.sys, Q.Inject) && s.sys.q.pc != Q.Injecting
    ensures Inv(c, base, InjectPipe(c, s), tag)
  {
    InjectKeepsQueue(base, s);
    var r := InjectPipe(c, s);
    if r.sys.q.pc == Q.Injecting { LocalIsNextEntry(base, r); }
  }

  lemma PayloadsMore(stream: seq<Byte>, n: nat, tag: int)
    requires (n + 1) * P.PACKET_SIZE <= |stream|
    ensures var p := StreamPacket(stream, n);
            I.PayloadsOf(StreamPackets(stream, n + 1), tag) ==
            I.PayloadsOf(StreamPackets(stream, n), tag) + if I.TagOf(p) == tag then p[I.HEADER_SIZE..] else []
  {
    assert StreamPackets(stream, n + 1)[..n] == StreamPackets(stream, n);
  }

  /** One more packet of the stream goes through the buffers. */
  lemma AuxGrows(c: I.Setup, a: I.Aux, stream: seq<Byte>, n: nat, tag: int)
    requires I.Registered(c, tag) && I.Fits(a) && I.CallsOk(c, a.calls) && (n + 1) * P.PACKET_SIZE <= |stream|
    requires I.Through(a, tag) == I.PayloadsOf(StreamPackets(stream, n), tag)
    ensures var r := I.OnePacket(c, a, StreamPacket(stream, n));
            I.CallsOk(c, r.calls) && I.Through(r, tag) == I.PayloadsOf(StreamPackets(stream, n + 1), tag)
  {
    PayloadsMore(stream, n, tag);
    I.OnePacketThrough(c, a, StreamPacket(stream, n), tag);
  }

  lemma CopyKeepsInv(c: I.Setup, base: nat, s: Pipe, tag: int)
    requires Shape(s) && Inv(c, base, s, tag) && Copies(s, Inject) && Timely(s, Inject)
    ensures Inv(c, base, InjectPipe(c, s), tag)
  {
    NextPacket(base, s);
    RingHoldsPacket(s.stream, s.done);
    AuxGrows(c, s.aux, s.stream, s.done, tag);
  }

  lemma FinishKeepsInv(c: I.Setup, base: nat, s: Pipe, tag: int)
    requires Shape(s) && Inv(c, base, s, tag) && Timely(s, Inject)
    requires s.sys.q.pc == Q.Injecting && s.inBatch >= s.sys.q.local.count
    ensures Inv(c, base, InjectPipe(c, s), tag)
  {
    InjectKeepsQueue(base, s);
    LocalIsNextEntry(base, s);
    TakenSplit(s.sys.h);
    I.RemaindersThrough(c, s.aux, I.TAG_COUNT, tag);
    RestartKeepsThrough(c, I.Remainders(c, s.aux, I.TAG_COUNT), tag);
    var r := InjectPipe(c, s);
    assert r.sys.h.queued == s.sys.h.queued && |r.sys.h.taken| == |s.sys.h.taken| + 1;
  }

  lemma RestartKeepsThrough(c: I.Setup, a: I.Aux, tag: int)
    requires I.Fits(a) && I.Registered(c, tag) && a.pending[tag] == []
    ensures I.Through(I.EMPTY.(calls := a.calls), tag) == I.Through(a, tag)
  {
  }

  lemma StepKeepsInv(c: I.Setup, base: nat, s: Pipe, e: Event, tag: int)
    requires Shape(s) && Inv(c, base, s, tag) && Timely(s, e)
    ensures Inv(c, base, Step(c, base, s, e), tag)
  {
    match e
    case Write(bytes) => WriteKeepsInv(c, base, s, bytes, tag);
    case Tick(acknowledged) => TickKeepsInv(c, base, s, acknowledged, tag);
    case Inject =>
      if s.sys.q.pc != Q.Injecting {
        AdvanceKeepsInv(c, base, s, tag);
      } else if s.inBatch < s.sys.q.local.count {
        CopyKeepsInv(c, base, s, tag);
      } else {
        FinishKeepsInv(c, base, s, tag);
      }
  }

  lemma {:induction false} RunKeepsInv(c: I.Setup, base: nat, s: Pipe, events: seq<Event>, tag: int)
    requires Shape(s) && Inv(c, base, s, tag) && TimelyRun(c, base, s, events)
    ensures Inv(c, base, Run(c, base, s, events), tag)
    decreases |events|
  {
    if events != [] {
      StepKeepsInv(c, base, s, events[0], tag);
      RunKeepsInv(c, base, Step(c, base, s, events[0]), events[1..], tag);
    }
  }

  lemma StartInv(c: I.Setup, v: P.Variant, base: nat, tag: int)
    requires I.Registered(c, tag)
    ensures Inv(c, base, Start(v, base), tag)
  {
    var s := Start(v, base);
    assert s.sys.h.queued[..0] == [];
    assert StreamPackets([], 0) == [];
  }

  /** In every timely run, whatever the interleaving: the bytes that left for a registered tag, with
      those still in its buffer, are the payloads of the packets of that tag among the first `done`
      packets the hardware wrote, in order and once each; every call carries 1 to 20 whole packets. */
  lemma DeliveredInOrder(c: I.Setup, v: P.Variant, base: nat, events: seq<Event>, tag: int)
    requires I.Registered(c, tag) && TimelyRun(c, base, Start(v, base), events)
    ensures var s := Run(c, base, Start(v, base), events);
            && s.done * P.PACKET_SIZE <= |s.stream| && I.CallsOk(c, s.aux.calls)
            && I.Delivered(s.aux.calls, tag) + s.aux.pending[tag] == I.PayloadsOf(StreamPackets(s.stream, s.done), tag)
  {
    StartInv(c, v, base, tag);
    RunKeepsInv(c, base, Start(v, base), events, tag);
  }

  lemma DrainedDelivers(c: I.Setup, base: nat, s: Pipe, tag: int)
    requires Inv(c, base, s, tag) && Q.Drained(s.sys) && s.ring.queued == P.Complete(|s.stream|)
    ensures I.Delivered(s.aux.calls, tag) == I.PayloadsOf(StreamPackets(s.stream, P.Complete(|s.stream|)), tag)
  {
    assert s.sys.h.queued[..|s.sys.h.taken|] == s.ring.log;
    assert s.done == P.Complete(|s.stream|);
    assert I.Delivered(s.aux.calls, tag) + [] == I.Delivered(s.aux.calls, tag);
  }

  /** Once the poller has caught up and the injector sleeps, every complete packet was delivered. */
  lemma EverythingDelivered(c: I.Setup, v: P.Variant, base: nat, events: seq<Event>, tag: int)
    requires I.Registered(c, tag) && TimelyRun(c, base, Start(v, base), events)
    requires var s := Run(c, base, Start(v, base), events);
             Q.Drained(s.sys) && s.ring.queued == P.Complete(|s.stream|)
    ensures var s := Run(c, base, Start(v, base), events);
            I.Delivered(s.aux.calls, tag) == I.PayloadsOf(StreamPackets(s.stream, P.Complete(|s.stream|)), tag)
  {
    StartInv(c, v, base, tag);
    RunKeepsInv(c, base, Start(v, base), events, tag);
    DrainedDelivers(c, base, Run(c, base, Start(v, base), events), tag);
  }

  // ---------------------------------------------------------------------------------------
  // Such a run
  // ---------------------------------------------------------------------------------------

  lemma FirstTick(base: nat, s: Pipe)
    requires s.ring == P.Ring(P.PACKET_SIZE, 0, base, []) && s.sys == Q.Initial() && I.Fits(s.aux)
    ensures var t := TickPipe(base, s, true);
            && t == s.(ring := t.ring, sys := Q.Step(Q.Initial(), Q.Put(Q.Entry(0, 1)))) && t.ring.queued == 1
  {
    assert P.PollOf(s.variant, base, base, P.WritePointer(base, P.PACKET_SIZE), true).entries == [Q.Entry(0, 1)];
    P.PutsOne(Q.Initial(), Q.Entry(0, 1));
  }

  lemma Then(c: I.Setup, base: int, s: Pipe, e: Event, events: seq<Event>)
    requires Shape(s) && Timely(s, e) && TimelyRun(c, base, Step(c, base, s, e), events)
    ensures TimelyRun(c, base, s, [e] + events) && Run(c, base, s, [e] + events) == Run(c, base, Step(c, base, s, e), events)
  {
    assert ([e] + events)[1..] == events;
  }

  /** The injector with a stretch of one packet in hand copies it and hands it over. */
  lemma OneCopy(c: I.Setup, base: int, s: Pipe) returns (t: Pipe)
    requires Shape(s) && |s.stream| == P.PACKET_SIZE && s.inBatch == 0 && s.done == 0
    requires s.sys.q.pc == Q.Injecting && s.sys.q.sem == 0 && s.sys.q.local == Q.Entry(0, 1)
    requires |s.sys.h.queued| == 1 && s.sys.h.taken == []
    ensures TimelyRun(c, base, s, [Inject] + [Inject]) && t == Run(c, base, s, [Inject] + [Inject])
    ensures Q.Drained(t.sys) && t.done == 1 && t.ring == s.ring && t.stream == s.stream
  {
    var s1 := Step(c, base, s, Inject);
    t := Step(c, base, s1, Inject);
    Then(c, base, s1, Inject, []);
    Then(c, base, s, Inject, [Inject]);
  }

  /** The injector on its way through a stretch of one packet. */
  lemma OneStretch(c: I.Setup, base: int, s: Pipe) returns (events: seq<Event>, t: Pipe)
    requires I.Fits(s.aux) && |s.stream| == P.PACKET_SIZE && s.inBatch == 0 && s.done == 0
    requires s.sys == Q.Step(Q.Initial(), Q.Put(Q.Entry(0, 1)))
    ensures TimelyRun(c, base, s, events) && t == Run(c, base, s, events)
    ensures Q.Drained(t.sys) && t.done == 1 && t.ring == s.ring && t.stream == s.stream
  {
    var s1 := Step(c, base, s, Inject);
    var s2 := Step(c, base, s1, Inject);
    var s3 := Step(c, base, s2, Inject);
    var s4 := Step(c, base, s3, Inject);
    events := [Inject] + [Inject];
    t := OneCopy(c, base, s4);
    Then(c, base, s3, Inject, events);
    Then(c, base, s2, Inject, [Inject] + events);
    Then(c, base, s1, Inject, [Inject] + ([Inject] + events));
    Then(c, base, s, Inject, [Inject] + ([Inject] + ([Inject] + events)));
    events := [Inject] + ([Inject] + ([Inject] + ([Inject] + events)));
  }

  /** A packet written, polled and injected: the run is timely, and all of the stream is delivered. */
  lemma OnePacketRun(c: I.Setup, v: P.Variant, base: nat, packet: seq<Byte>) returns (events: seq<Event>)
    requires I.IsPacket(packet)
    ensures TimelyRun(c, base, Start(v, base), events)
    ensures var t := Run(c, base, Start(v, base), events);
            t.stream == packet && t.done == 1 && Q.Drained(t.sys) && t.ring.queued == P.Complete(|t.stream|)
  {
    var s := Start(v, base);
    var s1 := Step(c, base, s, Write(packet));
    assert s1.stream == packet;
    var s2 := Step(c, base, s1, Tick(true));
    FirstTick(base, s1);
    var t;
    events, t := OneStretch(c, base, s2);
    Then(c, base, s1, Tick(true), events);
    events := [Tick(true)] + events;
    Then(c, base, s, Write(packet), events);
    events := [Write(packet)] + events;
  }
}
