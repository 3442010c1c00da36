/** The work queue between the DMA poller, which runs in a timer, and the injector thread: a ring
    of QUEUE_SIZE entries with a semaphore and no check for a full ring. The timer interrupts the
    injector between any two of its accesses, so the injector moves in small steps. */
module PtiWorkQueue {

  const QUEUE_SIZE := 400

  datatype Entry = Entry(offset: int, count: int)

  /** Where the injector is in its loop. */
  datatype Pc = Waiting | Testing | CopyingOffset | CopyingCount | Injecting

  /** The shared variables and the locals of the injector. */
  datatype Queue = Queue(slots: seq<Entry>, readIndex: int, writeIndex: int, sem: nat, pc: Pc, local: Entry)

  /** The sequence number of the entry that an offset or a count was copied from. */
  datatype Origin = Origin(ofOffset: int, ofCount: int)

  /** The entries queued and taken so far, where the taken ones come from, and how many tokens of
      the semaphore were spent on the overflow branch. */
  datatype History = History(queued: seq<Entry>, taken: seq<Entry>, origins: seq<Origin>, copying: Origin, discarded: nat)

  datatype System = System(q: Queue, h: History)

  datatype Action = Put(entry: Entry) | Inject

  function Next(index: int): int { (index + 1) % QUEUE_SIZE }

  predicate Shape(q: Queue) {
    |q.slots| == QUEUE_SIZE && 0 <= q.readIndex < QUEUE_SIZE && 0 <= q.writeIndex < QUEUE_SIZE
  }

  function Initial(): System {
    System(Queue(seq(QUEUE_SIZE, i => Entry(0, 0)), 0, 0, 0, Waiting, Entry(0, 0)),
           History([], [], [], Origin(0, 0), 0))
  }

  function PutEntry(q: Queue, e: Entry): (r: Queue)
    requires Shape(q)
    ensures Shape(r)
  {
    q.(slots := q.slots[q.writeIndex := e], writeIndex := Next(q.writeIndex), sem := q.sem + 1)
  }

  /** One step of the injector; it blocks while it waits on a zero semaphore. */
  function InjectorStep(q: Queue): (r: Queue)
    requires Shape(q)
    ensures Shape(r)
  {
    match q.pc
    case Waiting => if q.sem == 0 then q else q.(sem := q.sem - 1, pc := Testing)
    case Testing => if q.writeIndex == q.readIndex then q.(pc := Waiting) else q.(pc := CopyingOffset)
    case CopyingOffset => q.(local := q.local.(offset := q.slots[q.readIndex].offset), pc := CopyingCount)
    case CopyingCount => q.(local := q.local.(count := q.slots[q.readIndex].count), pc := Injecting)
    case Injecting => q.(readIndex := Next(q.readIndex), pc := Waiting)
  }

  /** The newest of the first `w` sequence numbers that falls into the same slot as `t`. */
  function Newest(w: int, t: int): (p: int)
    requires 0 <= t < w
    ensures t <= p < w && w <= p + QUEUE_SIZE && p % QUEUE_SIZE == t % QUEUE_SIZE
  {
    w - 1 - (w - 1 - t) % QUEUE_SIZE
  }

  /** What a step adds to the history. An injector that copies holds a token, so an entry is queued. */
  function Record(s: System, a: Action): History {
    match a
    case Put(e) => s.h.(queued := s.h.queued + [e])
    case Inject =>
      var w, t := |s.h.queued|, |s.h.taken|;
      match s.q.pc
      case Waiting => s.h
      case Testing => if s.q.writeIndex == s.q.readIndex then s.h.(discarded := s.h.discarded + 1) else s.h
      case CopyingOffset => s.h.(copying := s.h.copying.(ofOffset := if t < w then Newest(w, t) else 0))
      case CopyingCount => s.h.(copying := s.h.copying.(ofCount := if t < w then Newest(w, t) else 0))
      case Injecting => s.h.(taken := s.h.taken + [s.q.local], origins := s.h.origins + [s.h.copying])
  }

  function Step(s: System, a: Action): (r: System)
    requires Shape(s.q)
    ensures Shape(r.q)
  {
    System(if a.Put? then PutEntry(s.q, a.entry) else InjectorStep(s.q), Record(s, a))
  }

  function Exec(s: System, actions: seq<Action>): (r: System)
    requires Shape(s.q)
    ensures Shape(r.q)
    decreases |actions|
  {
    if actions == [] then s else Exec(Step(s, actions[0]), actions[1..])
  }

  // ---------------------------------------------------------------------------------------
  // The invariant of every interleaving
  // ---------------------------------------------------------------------------------------

  predicate Copied(h: History, k: int)
    requires 0 <= k < |h.taken| && |h.origins| == |h.taken|
  {
    var o := h.origins[k];
    && k <= o.ofOffset <= o.ofCount < |h.queued|
    && o.ofOffset % QUEUE_SIZE == o.ofCount % QUEUE_SIZE == k % QUEUE_SIZE
    && h.taken[k] == Entry(h.queued[o.ofOffset].offset, h.queued[o.ofCount].count)
  }

  /** A sequence number above everything taken so far. */
  function Frontier(h: History): int {
    if h.origins == [] then 0 else h.origins[|h.origins| - 1].ofCount + 1
  }

  predicate HistoryOk(h: History) {
    && |h.origins| == |h.taken|
    && (forall k :: 0 <= k < |h.taken| ==> Copied(h, k))
    && (forall k :: 0 < k < |h.taken| ==> h.origins[k - 1].ofCount < h.origins[k].ofOffset)
  }

  predicate CopyOk(s: System) {
    var w, t := |s.h.queued|, |s.h.taken|;
    && (s.q.pc in {CopyingOffset, CopyingCount, Injecting} ==> Frontier(s.h) < w)
    && (s.q.pc in {CopyingCount, Injecting} ==>
          && Frontier(s.h) <= s.h.copying.ofOffset < w && t <= s.h.copying.ofOffset
          && s.h.copying.ofOffset % QUEUE_SIZE == t % QUEUE_SIZE
          && s.q.local.offset == s.h.queued[s.h.copying.ofOffset].offset)
    && (s.q.pc == Injecting ==>
          && s.h.copying.ofOffset <= s.h.copying.ofCount < w
          && s.h.copying.ofCount % QUEUE_SIZE == t % QUEUE_SIZE
          && s.q.local.count == s.h.queued[s.h.copying.ofCount].count)
  }

  /** Tokens are neither made nor lost, and there are enough of them left to reach the point
      where the two indices meet. */
  predicate TokensOk(s: System) {
    var w, t := |s.h.queued|, |s.h.taken|;
    && s.q.sem + t + s.h.discarded + (if s.q.pc == Waiting then 0 else 1) == w
    && match s.q.pc
       case Waiting => (w - t) % QUEUE_SIZE <= s.q.sem
       case Testing => (w - t) % QUEUE_SIZE <= s.q.sem + 1
       case _ => (w - t - 1) % QUEUE_SIZE <= s.q.sem
  }

  predicate IndicesOk(s: System) {
    s.q.writeIndex == |s.h.queued| % QUEUE_SIZE && s.q.readIndex == |s.h.taken| % QUEUE_SIZE
  }

  /** The newest entries, as many as fit, are in their slots. */
  ghost predicate SlotsOk(slots: seq<Entry>, queued: seq<Entry>)
    requires |slots| == QUEUE_SIZE
  {
    forall p :: 0 <= p < |queued| <= p + QUEUE_SIZE ==> slots[p % QUEUE_SIZE] == queued[p]
  }

  ghost predicate Inv(s: System) {
    Shape(s.q) && HistoryOk(s.h) && CopyOk(s) && TokensOk(s) && IndicesOk(s) && SlotsOk(s.q.slots, s.h.queued)
  }

  lemma NextCounts(n: nat)
    ensures Next(n % QUEUE_SIZE) == (n + 1) % QUEUE_SIZE
  {
  }

  lemma PutKeepsSlots(slots: seq<Entry>, queued: seq<Entry>, e: Entry)
    requires |slots| == QUEUE_SIZE && SlotsOk(slots, queued)
    ensures SlotsOk(slots[|queued| % QUEUE_SIZE := e], queued + [e])
  {
    var w := |queued|;
    forall p | 0 <= p < w + 1 <= p + QUEUE_SIZE
      ensures slots[w % QUEUE_SIZE := e][p % QUEUE_SIZE] == (queued + [e])[p]
    {
      if p < w { assert p % QUEUE_SIZE != w % QUEUE_SIZE; }
    }
  }

  lemma PutKeepsHistory(h: History, e: Entry)
    requires HistoryOk(h)
    ensures HistoryOk(h.(queued := h.queued + [e]))
  {
    var r := h.(queued := h.queued + [e]);
    forall k | 0 <= k < |r.taken| ensures Copied(r, k) { assert Copied(h, k); }
  }

  lemma PutKeepsTokens(s: System, e: Entry)
    requires TokensOk(s) && Shape(s.q)
    ensures TokensOk(Step(s, Put(e)))
  {
    var w, t := |s.h.queued|, |s.h.taken|;
    ModGrows(w - t);
    ModGrows(w - t - 1);
  }

  lemma ModGrows(d: int)
    ensures (d + 1) % QUEUE_SIZE <= d % QUEUE_SIZE + 1
  {
  }

  lemma PutKeepsInv(s: System, e: Entry)
    requires Inv(s)
    ensures Inv(Step(s, Put(e)))
  {
    PutKeepsSlots(s.q.slots, s.h.queued, e);
    PutKeepsHistory(s.h, e);
    PutKeepsTokens(s, e);
    NextCounts(|s.h.queued|);
  }

  lemma NewestIsBeyond(w: int, t: int, p: int)
    requires 0 <= t < w && 0 <= p < w && p % QUEUE_SIZE == t % QUEUE_SIZE
    ensures p <= Newest(w, t)
  {
  }

  /** What the overflow test guarantees when it lets the injector through: an entry beyond
      everything taken so far is waiting in the slot to be read. */
  lemma TestGuards(s: System)
    requires Inv(s) && s.q.pc == Testing && s.q.writeIndex != s.q.readIndex
    ensures Frontier(s.h) < |s.h.queued|
  {
    FrontierIsDue(s.h);
  }

  lemma FrontierIsDue(h: History)
    requires HistoryOk(h)
    ensures Frontier(h) % QUEUE_SIZE == |h.taken| % QUEUE_SIZE && |h.taken| <= Frontier(h) <= |h.queued|
  {
    var t := |h.taken|;
    if t > 0 {
      assert Copied(h, t - 1);
      SameSlotNext(h.origins[t - 1].ofCount, t - 1);
    }
  }

  lemma SameSlotNext(a: int, b: int)
    requires a % QUEUE_SIZE == b % QUEUE_SIZE
    ensures (a + 1) % QUEUE_SIZE == (b + 1) % QUEUE_SIZE
  {
    OneFurther(a);
    OneFurther(b);
  }

  lemma OneFurther(a: int)
    ensures (a + 1) % QUEUE_SIZE == if a % QUEUE_SIZE == QUEUE_SIZE - 1 then 0 else a % QUEUE_SIZE + 1
  {
    var q, r := a / QUEUE_SIZE, a % QUEUE_SIZE;
    assert a == q * QUEUE_SIZE + r;
  }

  lemma InjectKeepsTokens(s: System)
    requires Inv(s)
    ensures TokensOk(Step(s, Inject))
  {
    SameSlot(|s.h.queued|, |s.h.taken|);
  }

  lemma SameSlot(a: int, b: int)
    ensures a % QUEUE_SIZE == b % QUEUE_SIZE <==> (a - b) % QUEUE_SIZE == 0
    ensures (a - b) % QUEUE_SIZE != 0 ==> (a - b - 1) % QUEUE_SIZE == (a - b) % QUEUE_SIZE - 1
  {
  }

  lemma InjectKeepsCopy(s: System)
    requires Inv(s)
    ensures CopyOk(Step(s, Inject))
  {
    var w, t := |s.h.queued|, |s.h.taken|;
    FrontierIsDue(s.h);
    match s.q.pc
    case Waiting =>
    case Testing => if s.q.writeIndex != s.q.readIndex { TestGuards(s); }
    case CopyingOffset => NewestIsBeyond(w, t, Frontier(s.h));
    case CopyingCount => NewestIsBeyond(w, t, s.h.copying.ofOffset);
    case Injecting =>
  }

  lemma InjectKeepsHistory(s: System)
    requires Inv(s)
    ensures HistoryOk(Step(s, Inject).h)
  {
    var r := Step(s, Inject).h;
    forall k | 0 <= k < |r.taken| ensures Copied(r, k) { if k < |s.h.taken| { assert Copied(s.h, k); } }
  }

  lemma InjectKeepsInv(s: System)
    requires Inv(s)
    ensures Inv(Step(s, Inject))
  {
    InjectKeepsTokens(s);
    InjectKeepsCopy(s);
    InjectKeepsHistory(s);
    NextCounts(|s.h.taken|);
  }

  lemma StepKeepsInv(s: System, a: Action)
    requires Inv(s)
    ensures Inv(Step(s, a))
  {
    if a.Put? { PutKeepsInv(s, a.entry); } else { InjectKeepsInv(s); }
  }

  lemma {:induction false} ExecKeepsInv(s: System, actions: seq<Action>)
    requires Inv(s)
    ensures Inv(Exec(s, actions))
    decreases |actions|
  {
    if actions != [] {
      StepKeepsInv(s, actions[0]);
      ExecKeepsInv(Step(s, actions[0]), actions[1..]);
    }
  }

  lemma EveryRunKeepsInv(actions: seq<Action>)
    ensures Inv(Exec(Initial(), actions))
  {
    ExecKeepsInv(Initial(), actions);
  }

  // ---------------------------------------------------------------------------------------
  // What holds of every run
  // ---------------------------------------------------------------------------------------

  /** However the timer interrupts the injector, what is taken comes from the queued entries in
      strictly increasing order; between two entries taken a multiple of QUEUE_SIZE is skipped. */
  lemma TakenInOrder(actions: seq<Action>, j: int, k: int)
    requires 0 <= j < k < |Exec(Initial(), actions).h.taken|
    ensures var h := Exec(Initial(), actions).h;
            && |h.origins| == |h.taken| && Copied(h, j) && Copied(h, k)
            && h.origins[j].ofCount < h.origins[k].ofOffset
            && (h.origins[k].ofOffset - h.origins[j].ofCount - (k - j)) % QUEUE_SIZE == 0
  {
    EveryRunKeepsInv(actions);
    var h := Exec(Initial(), actions).h;
    assert Copied(h, j) && Copied(h, k);
    OriginsIncrease(h, j, k);
    SkippedWhole(h.origins[k].ofOffset, k, h.origins[j].ofCount, j);
  }

  lemma {:induction false} OriginsIncrease(h: History, j: int, k: int)
    requires HistoryOk(h) && 0 <= j < k < |h.taken|
    ensures h.origins[j].ofCount < h.origins[k].ofOffset
    decreases k
  {
    if j < k - 1 {
      OriginsIncrease(h, j, k - 1);
      assert Copied(h, k - 1);
    }
  }

  lemma SkippedWhole(p: int, k: int, q: int, j: int)
    requires p % QUEUE_SIZE == k % QUEUE_SIZE && q % QUEUE_SIZE == j % QUEUE_SIZE
    ensures (p - q - (k - j)) % QUEUE_SIZE == 0
  {
    SameSlot(p, k);
    SameSlot(q, j);
  }

  /** The injector sleeps on an empty semaphore. */
  predicate Drained(s: System) { s.q.pc == Waiting && s.q.sem == 0 }

  /** Whenever the semaphore has drained, every entry was either taken or paid for on the overflow
      branch, and the number lost is a multiple of QUEUE_SIZE. */
  lemma LossesAreWholeRings(actions: seq<Action>)
    requires Drained(Exec(Initial(), actions))
    ensures var h := Exec(Initial(), actions).h;
            |h.queued| == |h.taken| + h.discarded && h.discarded % 400 == 0
  {
    EveryRunKeepsInv(actions);
  }

  function Outstanding(s: System): int { |s.h.queued| - |s.h.taken| }

  /** Nothing was lost or mixed up so far: entry number k was taken k-th, and whole. */
  ghost predicate Lossless(s: System) {
    && s.h.discarded == 0
    && (forall k :: 0 <= k < |s.h.origins| ==> s.h.origins[k] == Origin(k, k))
    && (s.q.pc in {CopyingCount, Injecting} ==> s.h.copying.ofOffset == |s.h.taken|)
    && (s.q.pc == Injecting ==> s.h.copying.ofCount == |s.h.taken|)
  }

  /** A step of the injector is safe if the overflow test lets it through, and if no more than a
      ring of entries is outstanding while it copies. The timer is always safe. */
  predicate Safe(s: System, a: Action) {
    a.Inject? ==>
      && (s.q.pc == Testing ==> s.q.writeIndex != s.q.readIndex)
      && (s.q.pc in {CopyingOffset, CopyingCount} ==> Outstanding(s) <= 400)
  }

  predicate SafeRun(s: System, actions: seq<Action>)
    requires Shape(s.q)
    decreases |actions|
  {
    actions == [] || (Safe(s, actions[0]) && SafeRun(Step(s, actions[0]), actions[1..]))
  }

  lemma NewestIsNext(w: int, t: int)
    requires 0 <= t < w
    ensures Newest(w, t) == t <==> w - t <= QUEUE_SIZE
  {
  }

  /** Of what was not lost before, a step loses nothing if and only if it is safe. */
  lemma StepIsLossless(s: System, a: Action)
    requires Inv(s) && Lossless(s)
    ensures Lossless(Step(s, a)) <==> Safe(s, a)
  {
    if a.Inject? {
      FrontierIsDue(s.h);
      if s.q.pc in {CopyingOffset, CopyingCount} { NewestIsNext(|s.h.queued|, |s.h.taken|); }
    }
  }

  /** What is lost stays lost. */
  lemma StepStaysLossy(s: System, a: Action)
    requires Inv(s) && !Lossless(s)
    ensures !Lossless(Step(s, a))
  {
    var t := Step(s, a);
    if k :| 0 <= k < |s.h.origins| && s.h.origins[k] != Origin(k, k) {
      assert t.h.origins[k] == s.h.origins[k];
    } else if s.h.discarded == 0 && s.q.pc == Injecting && a.Inject? {
      assert t.h.origins[|s.h.taken|] == s.h.copying;
    }
  }

  lemma {:induction false} ExecStaysLossy(s: System, actions: seq<Action>)
    requires Inv(s) && !Lossless(s)
    ensures !Lossless(Exec(s, actions))
    decreases |actions|
  {
    if actions != [] {
      StepKeepsInv(s, actions[0]);
      StepStaysLossy(s, actions[0]);
      ExecStaysLossy(Step(s, actions[0]), actions[1..]);
    }
  }

  lemma {:induction false} ExecIsLossless(s: System, actions: seq<Action>)
    requires Inv(s) && Lossless(s)
    ensures Lossless(Exec(s, actions)) <==> SafeRun(s, actions)
    decreases |actions|
  {
    if actions != [] {
      var t := Step(s, actions[0]);
      StepKeepsInv(s, actions[0]);
      StepIsLossless(s, actions[0]);
      if Safe(s, actions[0]) { ExecIsLossless(t, actions[1..]); } else { ExecStaysLossy(t, actions[1..]); }
    }
  }

  /** In every run, however timer and injector interleave: nothing queued is lost or mixed up if and
      only if the overflow branch is never taken and no entry is copied with more than QUEUE_SIZE
      outstanding. */
  lemma NothingLostExactly(actions: seq<Action>)
    ensures Lossless(Exec(Initial(), actions)) <==> SafeRun(Initial(), actions)
  {
    ExecIsLossless(Initial(), actions);
  }

  lemma LosslessTakesAPrefix(s: System)
    requires Inv(s) && Lossless(s)
    ensures |s.h.taken| <= |s.h.queued| && s.h.taken == s.h.queued[..|s.h.taken|]
  {
    forall k | 0 <= k < |s.h.taken| ensures k < |s.h.queued| && s.h.taken[k] == s.h.queued[k] { assert Copied(s.h, k); }
  }

  /** Fewer than QUEUE_SIZE entries are outstanding before and after every step. */
  predicate NeverFull(s: System, actions: seq<Action>)
    requires Shape(s.q)
    decreases |actions|
  {
    Outstanding(s) < 400 && (actions == [] || NeverFull(Step(s, actions[0]), actions[1..]))
  }

  lemma NotFullIsSafe(s: System, a: Action)
    requires Inv(s) && s.h.discarded == 0 && Outstanding(s) < QUEUE_SIZE
    ensures Safe(s, a)
  {
    if a.Inject? && s.q.pc == Testing { SameSlot(|s.h.queued|, |s.h.taken|); }
  }

  lemma {:induction false} NeverFullIsSafe(s: System, actions: seq<Action>)
    requires Inv(s) && Lossless(s) && NeverFull(s, actions)
    ensures SafeRun(s, actions)
    decreases |actions|
  {
    if actions != [] {
      NotFullIsSafe(s, actions[0]);
      StepIsLossless(s, actions[0]);
      StepKeepsInv(s, actions[0]);
      NeverFullIsSafe(Step(s, actions[0]), actions[1..]);
    }
  }

  /** In every run in which fewer than QUEUE_SIZE entries are ever outstanding the overflow branch
      is not reached and the injector takes exactly the queued entries, in order. */
  lemma NothingLostBelowCapacity(actions: seq<Action>)
    requires NeverFull(Initial(), actions)
    ensures var s := Exec(Initial(), actions);
            && s.h.discarded == 0
            && |s.h.taken| <= |s.h.queued| && s.h.taken == s.h.queued[..|s.h.taken|]
            && (Drained(s) ==> s.h.taken == s.h.queued)
  {
    NeverFullIsSafe(Initial(), actions);
    NothingLostExactly(actions);
    EveryRunKeepsInv(actions);
    LosslessTakesAPrefix(Exec(Initial(), actions));
  }

  // ---------------------------------------------------------------------------------------
  // The bound is sharp: QUEUE_SIZE entries outstanding are lost to the last one
  // ---------------------------------------------------------------------------------------

  function Puts(entries: seq<Entry>): seq<Action> {
    seq(|entries|, i requires 0 <= i < |entries| => Put(entries[i]))
  }

  function Injects(n: nat): seq<Action> { seq(n, i => Inject) }

  lemma {:induction false} ExecConcat(s: System, a: seq<Action>, b: seq<Action>)
    requires Shape(s.q)
    ensures Exec(s, a + b) == Exec(Exec(s, a), b)
    decreases |a|
  {
    if a == [] {
      assert a + b == b;
    } else {
      assert (a + b)[1..] == a[1..] + b;
      ExecConcat(Step(s, a[0]), a[1..], b);
    }
  }

  lemma IndexOnward(w: nat, n: nat)
    requires w < QUEUE_SIZE
    ensures (Next(w) + n) % QUEUE_SIZE == (w + (n + 1)) % QUEUE_SIZE
  {
    if w + 1 == QUEUE_SIZE {
      assert w + (n + 1) == n + QUEUE_SIZE;
    }
  }

  lemma {:induction false} PutsOnly(s: System, entries: seq<Entry>)
    requires Shape(s.q)
    ensures var r := Exec(s, Puts(entries));
            && r.h == s.h.(queued := s.h.queued + entries)
            && r.q.sem == s.q.sem + |entries| && r.q.pc == s.q.pc && r.q.readIndex == s.q.readIndex && r.q.local == s.q.local
            && r.q.writeIndex == (s.q.writeIndex + |entries|) % QUEUE_SIZE
    decreases |entries|
  {
    if entries == [] {
      assert s.h.queued + entries == s.h.queued;
    } else {
      assert Puts(entries)[1..] == Puts(entries[1..]);
      PutsOnly(Step(s, Puts(entries)[0]), entries[1..]);
      IndexOnward(s.q.writeIndex, |entries| - 1);
      assert s.h.queued + entries == (s.h.queued + [entries[0]]) + entries[1..];
    }
  }

  lemma {:induction false} DiscardsOnly(s: System, n: nat)
    requires Shape(s.q) && s.q.pc == Waiting && s.q.sem == n && s.q.readIndex == s.q.writeIndex
    ensures var r := Exec(s, Injects(2 * n));
            Drained(r) && r.h == s.h.(discarded := s.h.discarded + n)
    decreases n
  {
    if n > 0 {
      var s1 := Step(s, Inject);
      var s2 := Step(s1, Inject);
      assert Injects(2 * n)[1..] == Injects(2 * n - 1) && Injects(2 * n - 1)[1..] == Injects(2 * (n - 1));
      DiscardsOnly(s2, n - 1);
    }
  }

  lemma DrainedIndicesMeet(s: System)
    requires Inv(s) && Drained(s)
    ensures s.q.readIndex == s.q.writeIndex
  {
    SameSlot(|s.h.queued|, |s.h.taken|);
  }

  lemma FullFromDrained(s: System, entries: seq<Entry>)
    requires Shape(s.q) && Drained(s) && s.q.readIndex == s.q.writeIndex && |entries| == QUEUE_SIZE
    ensures var r := Exec(Exec(s, Puts(entries)), Injects(2 * QUEUE_SIZE));
            Drained(r) && r.h == s.h.(queued := s.h.queued + entries, discarded := s.h.discarded + QUEUE_SIZE)
  {
    PutsOnly(s, entries);
    DiscardsOnly(Exec(s, Puts(entries)), QUEUE_SIZE);
  }

  /** After any run that has drained, QUEUE_SIZE further entries put before the injector wakes
      are discarded without exception: NothingLostBelowCapacity has the largest possible bound. */
  lemma FullQueueIsLost(actions: seq<Action>, entries: seq<Entry>)
    requires Drained(Exec(Initial(), actions)) && |entries| == 400
    ensures var s, r := Exec(Initial(), actions), Exec(Initial(), actions + (Puts(entries) + Injects(2 * QUEUE_SIZE)));
            && Drained(r) && r.h.queued == s.h.queued + entries
            && r.h.taken == s.h.taken && r.h.discarded == s.h.discarded + 400
  {
    var s := Exec(Initial(), actions);
    EveryRunKeepsInv(actions);
    DrainedIndicesMeet(s);
    ExecConcat(Initial(), actions, Puts(entries) + Injects(2 * QUEUE_SIZE));
    ExecConcat(s, Puts(entries), Injects(2 * QUEUE_SIZE));
    FullFromDrained(s, entries);
  }

  // ---------------------------------------------------------------------------------------
  // The driver's own code
  // ---------------------------------------------------------------------------------------

  class WorkQueue {
    const slots: array<Entry>
    var readIndex: int
    var writeIndex: int
    var sem: nat
    var local: Entry
    ghost var pc: Pc
    ghost var history: History

    ghost function View(): System
      reads this, slots
    {
      System(Queue(slots[..], readIndex, writeIndex, sem, pc, local), history)
    }

    ghost predicate Valid()
      reads this, slots
    {
      Inv(View())
    }

    constructor ()
      ensures View() == Initial() && Valid() && fresh(slots)
    {
      slots := new Entry[QUEUE_SIZE](_ => Entry(0, 0));
      readIndex, writeIndex, sem, local, pc := 0, 0, 0, Entry(0, 0), Waiting;
      history := Initial().h;
      new;
      assert slots[..] == Initial().q.slots;
    }

    /** What the poller does for each stretch of packets; it runs to its end undisturbed. */
    method PutWork(offset: int, count: int)
      requires Valid()
      modifies this, slots
      ensures View() == Step(old(View()), Put(Entry(offset, count))) && Valid()
    {
      PutKeepsInv(View(), Entry(offset, count));
      slots[writeIndex] := slots[writeIndex].(offset := offset);
      slots[writeIndex] := slots[writeIndex].(count := count);
      writeIndex := (writeIndex + 1) % QUEUE_SIZE;
      sem := sem + 1;
      history := history.(queued := history.queued + [Entry(offset, count)]);
    }

    /** The injector up to the copy of an entry. It does not return an entry if it took the
        overflow branch; it is called when the semaphore lets it through. */
    method BeginWork() returns (ok: bool, offset: int, count: int)
      requires Valid() && pc == Waiting && sem > 0
      modifies this
      ensures Valid() && ok == (old(readIndex) != old(writeIndex))
      ensures View() == Exec(old(View()), Injects(if ok then 4 else 2))
      ensures ok ==> Entry(offset, count) == local == slots[readIndex] && pc == Injecting
    {
      ghost var s := View();
      sem := sem - 1;
      if writeIndex == readIndex {
        BeginEmpty(s);
        history := Exec(s, Injects(2)).h;
        return false, 0, 0;
      }
      BeginFull(s);
      offset := slots[readIndex].offset;
      count := slots[readIndex].count;
      local, pc, history := Entry(offset, count), Injecting, Exec(s, Injects(4)).h;
      return true, offset, count;
    }

    method EndWork()
      requires Valid() && pc == Injecting
      modifies this
      ensures View() == Step(old(View()), Inject) && Valid()
    {
      InjectKeepsInv(View());
      history := history.(taken := history.taken + [local], origins := history.origins + [history.copying]);
      readIndex := (readIndex + 1) % QUEUE_SIZE;
      pc := Waiting;
    }
  }

  lemma BeginEmpty(s: System)
    requires Inv(s) && s.q.pc == Waiting && s.q.sem > 0 && s.q.writeIndex == s.q.readIndex
    ensures Exec(s, Injects(2)).q == s.q.(sem := s.q.sem - 1) && Inv(Exec(s, Injects(2)))
  {
    ExecKeepsInv(s, Injects(2));
    FourSteps(s);
  }

  lemma FourInjections(q: Queue)
    requires Shape(q) && q.pc == Waiting && q.sem > 0 && q.writeIndex != q.readIndex
    ensures InjectorStep(InjectorStep(InjectorStep(InjectorStep(q)))) ==
            q.(sem := q.sem - 1, pc := Injecting, local := q.slots[q.readIndex])
  {
  }

  lemma BeginFull(s: System)
    requires Inv(s) && s.q.pc == Waiting && s.q.sem > 0 && s.q.writeIndex != s.q.readIndex
    ensures Inv(Exec(s, Injects(4)))
    ensures Exec(s, Injects(4)).q == s.q.(sem := s.q.sem - 1, pc := Injecting, local := s.q.slots[s.q.readIndex])
  {
    ExecKeepsInv(s, Injects(4));
    FourSteps(s);
    FourInjections(s.q);
  }

  lemma FourSteps(s: System)
    requires Shape(s.q)
    ensures Exec(s, Injects(2)) == Step(Step(s, Inject), Inject)
    ensures Exec(s, Injects(4)) == Step(Step(Step(Step(s, Inject), Inject), Inject), Inject)
  {
    assert Injects(2) == [Inject, Inject] && Injects(4) == [Inject, Inject] + [Inject, Inject];
    ExecConcat(s, [Inject, Inject], [Inject, Inject]);
    var t := Exec(s, [Inject, Inject]);
    assert Exec(t, [Inject, Inject]) == Step(Step(t, Inject), Inject);
    assert t == Step(Step(s, Inject), Inject);
  }
}
