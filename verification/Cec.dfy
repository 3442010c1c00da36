/** How the CEC driver finds its logical address: it polls candidate after candidate and takes the
    first that nobody acknowledges. Section CEC 10.2.1 of HDMI 1.3a Supplement 1. */
module Cec {

  const UNREGISTERED := 0xF
  const BROADCAST := 0xF
  const RETRIES := 3

  /** Players, tuners and recorders, and at last the address of those that have none. */
  const CHOICES: seq<nat> := [0x4, 0x8, 0xB, 0x3, 0x6, 0x7, 0x1, 0x2, 0xF]
  const LAST := 8

  datatype Frame = Frame(src: nat, dst: nat, len: nat)

  /** `kiss` while a poll is out; `taken` the candidates so far; `wire` every frame handed to the
      hardware. `frame` is the send buffer's header and size. */
  datatype State = State(kiss: bool, index: nat, address: nat, sending: bool, frame: Frame, retries: nat,
                         taken: seq<nat>, wire: seq<Frame>)

  // ---------------------------------------------------------------------------------------
  // Steps of the driver
  // ---------------------------------------------------------------------------------------

  /** Puts a frame into the send buffer, its source corrected to the present address; while another
      is being sent, it is given up. */
  function Send(s: State, dst: nat, len: nat, retry: nat): State {
    if s.sending then s
    else
      var f := Frame(s.address, dst, len);
      s.(sending := true, frame := f, retries := retry, wire := s.wire + [f])
  }

  /** Takes the next candidate and polls it. */
  function Poll(s: State): State
    requires s.index <= LAST
  {
    var a := CHOICES[s.index];
    Send(s.(kiss := true, address := a, index := s.index + 1, taken := s.taken + [a]), a, 1, RETRIES)
  }

  /** What every state of the driver keeps: the present address is the last candidate taken, and
      the candidates taken are the first of the list. */
  predicate Inv(s: State) {
    1 <= s.index <= LAST + 1 && s.address == CHOICES[s.index - 1] && s.taken == CHOICES[..s.index]
  }

  /** A frame that was sent or received. A poll of the present address, from that address, means
      that somebody else has it. */
  function Parse(s: State, f: Frame): State
    requires Inv(s)
  {
    if f.len == 1 && f.src == f.dst == s.address && s.address != UNREGISTERED then Poll(s) else s
  }

  function Resend(s: State): State {
    if s.retries > 0 then Send(s, s.frame.dst, s.frame.len, s.retries - 1) else s
  }

  /** Sending failed; `nack` if because nobody acknowledged. Nobody having answered a poll, the
      address is free; `active` says whether it is then announced. */
  function SendError(s: State, nack: bool, active: bool): State {
    var t := s.(sending := false);
    if t.kiss && nack then
      var u := t.(kiss := false);
      if active then Send(u, BROADCAST, 5, RETRIES) else u
    else Resend(t)
  }

  function Sent(s: State): State
    requires Inv(s)
  {
    Parse(s.(sending := false), s.frame)
  }

  datatype Event = Failed(nack: bool, active: bool) | Acknowledged | Received(f: Frame) | Other(dst: nat, len: nat)

  function Step(s: State, e: Event): State
    requires Inv(s)
  {
    match e
    case Failed(nack, active) => SendError(s, nack, active)
    case Acknowledged => Sent(s)
    case Received(f) => Parse(s, f)
    case Other(dst, len) => Send(s, dst, len, RETRIES)
  }

  /** The driver before it has done anything, and after it has polled its first candidate. */
  function Boot(): State { State(false, 0, 0x4, false, Frame(0, 0, 0), RETRIES, [], []) }

  function Initial(): State { Poll(Boot()) }

  // ---------------------------------------------------------------------------------------
  // Every run
  // ---------------------------------------------------------------------------------------

  lemma InitialInv()
    ensures Inv(Initial())
  {
  }

  lemma ChoicesDiffer(i: nat, j: nat)
    requires i <= LAST && j <= LAST && CHOICES[i] == CHOICES[j]
    ensures i == j
  {
  }

  lemma PollKeepsInv(s: State)
    requires Inv(s) && s.address != UNREGISTERED
    ensures s.index <= LAST && Inv(Poll(s))
  {
  }

  /** Whatever happens on the bus: the list is never left, and the candidates are taken in order. */
  lemma StepKeepsInv(s: State, e: Event)
    requires Inv(s)
    ensures Inv(Step(s, e)) && s.index <= Step(s, e).index <= s.index + 1
  {
    if s.address != UNREGISTERED {
      PollKeepsInv(s);
      PollKeepsInv(s.(sending := false));
    }
  }

  ghost predicate Run(s: State, events: seq<Event>, t: State)
    requires Inv(s)
    decreases |events|
  {
    StepKeepsInv(s, if events == [] then Acknowledged else events[0]);
    if events == [] then s == t else Run(Step(s, events[0]), events[1..], t)
  }

  /** In every run the choice index stays within nine and the candidates taken are the first of the
      list, each once; the last, once reached, is kept. */
  lemma {:induction false} EveryRun(s: State, events: seq<Event>, t: State)
    requires Inv(s) && Run(s, events, t)
    ensures Inv(t) && s.index <= t.index <= LAST + 1
    ensures forall i, j :: 0 <= i < j < |t.taken| ==> t.taken[i] != t.taken[j]
    decreases |events|
  {
    if events != [] {
      StepKeepsInv(s, events[0]);
      EveryRun(Step(s, events[0]), events[1..], t);
    } else {
      forall i, j | 0 <= i < j < |t.taken| ensures t.taken[i] != t.taken[j] {
        if t.taken[i] == t.taken[j] { ChoicesDiffer(i, j); }
      }
    }
  }

  // ---------------------------------------------------------------------------------------
  // On a bus where some addresses are occupied
  // ---------------------------------------------------------------------------------------

  /** The place in the list of the first free candidate from `i` on; the last is always there. */
  function FirstFree(occupied: set<nat>, i: nat): (f: nat)
    requires i <= LAST
    ensures i <= f <= LAST && (f < LAST ==> CHOICES[f] !in occupied)
    ensures forall k :: i <= k < f ==> CHOICES[k] in occupied
    decreases LAST - i
  {
    if i == LAST || CHOICES[i] !in occupied then i else FirstFree(occupied, i + 1)
  }

  /** A poll of the present address is out. */
  predicate Polling(s: State) {
    Inv(s) && s.kiss && s.sending && s.frame == Frame(s.address, s.address, 1)
  }

  /** What can happen on such a bus while a poll is out: occupied addresses acknowledge it and free
      ones do not, sending may be disturbed, and other frames come and go; but nobody else polls
      the same candidate at the same time. */
  predicate Agrees(s: State, occupied: set<nat>, e: Event) {
    match e
    case Failed(nack, _) => nack ==> s.address !in occupied
    case Acknowledged => s.address in occupied
    case Received(f) => !(f.len == 1 && f.src == f.dst == s.address)
    case Other(_, _) => true
  }

  /** A run of the search: a poll is out before each of its events. */
  ghost predicate Search(s: State, occupied: set<nat>, events: seq<Event>, t: State)
    decreases |events|
  {
    if events == [] then s == t
    else Polling(s) && Agrees(s, occupied, events[0]) && Search(Step(s, events[0]), occupied, events[1..], t)
  }

  lemma {:induction false} SearchIsRun(s: State, occupied: set<nat>, events: seq<Event>, t: State)
    requires Inv(s) && Search(s, occupied, events, t)
    ensures Run(s, events, t)
    decreases |events|
  {
    if events != [] {
      StepKeepsInv(s, events[0]);
      SearchIsRun(Step(s, events[0]), occupied, events[1..], t);
    }
  }

  /** How often the poll of the `k`-th candidate is disturbed: fails, but not for want of an
      acknowledge. */
  ghost function Disturbances(s: State, events: seq<Event>, k: nat): nat
    requires Inv(s)
    decreases |events|
  {
    if events == [] then 0
    else
      StepKeepsInv(s, events[0]);
      (if Disturbs(events[0]) && s.index - 1 == k then 1 else 0) + Disturbances(Step(s, events[0]), events[1..], k)
  }

  lemma {:induction false} PastIsQuiet(s: State, events: seq<Event>, k: nat)
    requires Inv(s) && k < s.index - 1
    ensures Disturbances(s, events, k) == 0
    decreases |events|
  {
    if events != [] {
      StepKeepsInv(s, events[0]);
      PastIsQuiet(Step(s, events[0]), events[1..], k);
    }
  }

  /** The driver holds candidate `f`: nobody answered its poll, or it is the last. */
  predicate Holds(t: State, f: nat)
    requires f <= LAST
  {
    Inv(t) && t.address == CHOICES[f] && t.index == f + 1 && (!t.kiss || f == LAST)
  }

  /** The poll of the `k`-th candidate is not disturbed more often than it is retried. */
  ghost predicate Bearable(s: State, events: seq<Event>, k: nat)
    requires Inv(s)
  {
    Disturbances(s, events, k) <= 3
  }

  /** No poll from the present candidate to the `f`-th is disturbed more often than it is retried;
      the last needs no answer. */
  ghost predicate Calm(s: State, events: seq<Event>, f: nat)
    requires Inv(s)
  {
    && (s.index - 1 < LAST ==> Disturbances(s, events, s.index - 1) <= s.retries)
    && forall k: nat :: s.index <= k <= f && k < LAST ==> Bearable(s, events, k)
  }

  lemma AddressIsLast(s: State)
    requires Inv(s)
    ensures s.address == UNREGISTERED <==> s.index - 1 == LAST
  {
  }

  /** One event of the search: it goes on with the same candidate or the next, or it ends. */
  lemma SearchStep(s: State, occupied: set<nat>, e: Event)
    requires Polling(s) && Agrees(s, occupied, e)
    ensures var t, i := Step(s, e), s.index - 1;
            && Inv(t)
            && match e
               case Acknowledged =>
                 if i < LAST then Polling(t) && t.retries == RETRIES && t.index == s.index + 1 && CHOICES[i] in occupied
                 else !Polling(t) && Holds(t, i)
               case Failed(true, _) => !Polling(t) && Holds(t, i) && CHOICES[i] !in occupied
               case Failed(false, _) =>
                 if s.retries > 0 then Polling(t) && t.retries == s.retries - 1 && t.index == s.index
                 else !Polling(t) && t.index == s.index && t.kiss
               case _ => t == s
  {
    AddressIsLast(s);
    StepKeepsInv(s, e);
    if s.address != UNREGISTERED { PollKeepsInv(s.(sending := false)); }
  }

  predicate Disturbs(e: Event) { e.Failed? && !e.nack }

  lemma DisturbancesThen(s: State, e: Event, rest: seq<Event>, k: nat)
    requires Inv(s) && Inv(Step(s, e))
    ensures Disturbances(s, [e] + rest, k) ==
            (if Disturbs(e) && s.index - 1 == k then 1 else 0) + Disturbances(Step(s, e), rest, k)
  {
    assert ([e] + rest)[1..] == rest;
  }

  /** An event says nothing of the candidates behind the present one. */
  lemma BearableThen(s: State, e: Event, rest: seq<Event>)
    requires Inv(s) && Inv(Step(s, e))
    ensures forall k: nat :: k >= s.index ==> (Bearable(s, [e] + rest, k) <==> Bearable(Step(s, e), rest, k))
  {
    forall k: nat | k >= s.index ensures Bearable(s, [e] + rest, k) <==> Bearable(Step(s, e), rest, k) {
      DisturbancesThen(s, e, rest, k);
    }
  }

  lemma CalmSame(s: State, e: Event, rest: seq<Event>, f: nat)
    requires Inv(s) && (e.Received? || e.Other?) && Step(s, e) == s
    ensures Calm(s, [e] + rest, f) <==> Calm(s, rest, f)
  {
    DisturbancesThen(s, e, rest, s.index - 1);
    BearableThen(s, e, rest);
  }

  lemma CalmDisturbed(s: State, e: Event, rest: seq<Event>, f: nat)
    requires Inv(s) && Disturbs(e) && s.retries > 0
    requires var t := Step(s, e); Inv(t) && t.retries == s.retries - 1 && t.index == s.index
    ensures Calm(s, [e] + rest, f) <==> Calm(Step(s, e), rest, f)
  {
    DisturbancesThen(s, e, rest, s.index - 1);
    BearableThen(s, e, rest);
  }

  lemma CalmNext(s: State, e: Event, rest: seq<Event>, f: nat)
    requires Inv(s) && !Disturbs(e) && s.index - 1 < LAST && s.index <= f <= LAST
    requires var t := Step(s, e); Inv(t) && t.retries == RETRIES && t.index == s.index + 1
    ensures Calm(s, [e] + rest, f) <==> Calm(Step(s, e), rest, f)
  {
    DisturbancesThen(s, e, rest, s.index - 1);
    PastIsQuiet(Step(s, e), rest, s.index - 1);
    BearableThen(s, e, rest);
    var t := Step(s, e);
    assert t.index - 1 < LAST ==> (Bearable(t, rest, s.index) <==> Disturbances(t, rest, t.index - 1) <= t.retries);
  }

  lemma CalmEnd(s: State, e: Event, f: nat)
    requires Inv(s) && Inv(Step(s, e)) && s.index - 1 <= f <= LAST
    ensures Calm(s, [e], f) <==> s.index - 1 == LAST || !(Disturbs(e) && s.retries == 0)
  {
    assert [e] + [] == [e];
    DisturbancesThen(s, e, [], s.index - 1);
    BearableThen(s, e, []);
    assert forall k: nat :: k >= s.index ==> Bearable(Step(s, e), [], k);
  }

  lemma SearchEndsNow(s: State, occupied: set<nat>, e: Event)
    requires Polling(s) && Agrees(s, occupied, e) && !Polling(Step(s, e))
    ensures var f := FirstFree(occupied, s.index - 1); Holds(Step(s, e), f) <==> Calm(s, [e], f)
  {
    var i := s.index - 1;
    SearchStep(s, occupied, e);
    CalmEnd(s, e, FirstFree(occupied, i));
    if i == LAST || CHOICES[i] !in occupied {
      assert FirstFree(occupied, i) == i;
    }
  }

  lemma {:induction false} SearchEnds(s: State, occupied: set<nat>, events: seq<Event>, t: State)
    requires Polling(s) && Search(s, occupied, events, t) && !Polling(t)
    ensures var f := FirstFree(occupied, s.index - 1); Holds(t, f) <==> Calm(s, events, f)
    decreases |events|
  {
    var e, rest, i := events[0], events[1..], s.index - 1;
    var u, f := Step(s, e), FirstFree(occupied, i);
    assert events == [e] + rest;
    SearchStep(s, occupied, e);
    if Polling(u) {
      SearchEnds(u, occupied, rest, t);
      match e
      case Acknowledged => CalmNext(s, e, rest, f);
      case Failed(_, _) => CalmDisturbed(s, e, rest, f);
      case _ => CalmSame(s, e, rest, f);
    } else {
      assert rest == [] && t == u && [e] + [] == [e];
      SearchEndsNow(s, occupied, e);
    }
  }

  lemma CalmFromStart(s: State, events: seq<Event>, f: nat)
    requires Inv(s) && s.index == 1 && s.retries == RETRIES
    ensures Calm(s, events, f) <==> forall k: nat :: k <= f && k < LAST ==> Bearable(s, events, k)
  {
    assert Bearable(s, events, 0) <==> Disturbances(s, events, s.index - 1) <= RETRIES;
  }

  /** On every bus and in every run of the search that comes to an end: the driver ends up with the
      first free address of its list, or unregistered, if and only if no candidate up to that one,
      the last excepted, is disturbed more often than the driver retries. */
  lemma SettlesExactly(occupied: set<nat>, events: seq<Event>, t: State)
    requires Search(Initial(), occupied, events, t) && !Polling(t)
    ensures Inv(Initial()) && Run(Initial(), events, t)
    ensures var f := FirstFree(occupied, 0);
            Holds(t, f) <==> forall k: nat :: k <= f && k < LAST ==> Bearable(Initial(), events, k)
  {
    var s := Initial();
    SearchIsRun(s, occupied, events, t);
    SearchEnds(s, occupied, events, t);
    CalmFromStart(s, events, FirstFree(occupied, 0));
  }

  /** And a search can always come to an end: answered without a disturbance, it does so with the
      first free address. */
  lemma {:induction false} CanSettle(s: State, occupied: set<nat>) returns (events: seq<Event>, t: State)
    requires Polling(s)
    ensures Search(s, occupied, events, t) && !Polling(t) && Holds(t, FirstFree(occupied, s.index - 1))
    decreases LAST + 1 - s.index
  {
    var e := if s.address in occupied then Acknowledged else Failed(true, false);
    SearchStep(s, occupied, e);
    AddressIsLast(s);
    var u := Step(s, e);
    if Polling(u) {
      events, t := CanSettle(u, occupied);
      assert ([e] + events)[1..] == events;
      events := [e] + events;
    } else {
      events, t := [e], u;
    }
  }

  // ---------------------------------------------------------------------------------------
  // Which address that is
  // ---------------------------------------------------------------------------------------

  /** Players, then tuners, then recorders; what is none of them comes last. */
  function Rank(a: nat): nat {
    if a in {4, 8, 11} then 0 else if a in {3, 6, 7, 10} then 1 else if a in {1, 2, 9} then 2 else 3
  }

  predicate Before(a: nat, b: nat) { Rank(a) < Rank(b) || (Rank(a) == Rank(b) && a < b) }

  const CANDIDATES: set<nat> := {1, 2, 3, 4, 6, 7, 8, 11}

  lemma CandidatesAreRanked(i: nat, j: nat)
    requires i < j <= LAST
    ensures Before(CHOICES[i], CHOICES[j]) && CHOICES[i] in CANDIDATES && CHOICES[LAST] == 15
  {
  }

  lemma EveryCandidate(a: nat) returns (i: nat)
    requires a in CANDIDATES
    ensures i < LAST && CHOICES[i] == a
  {
    i := if a == 4 then 0 else if a == 8 then 1 else if a == 11 then 2 else if a == 3 then 3
         else if a == 6 then 4 else if a == 7 then 5 else if a == 1 then 6 else 7;
  }

  /** The address of the first free place: one that is free while every candidate before it is
      occupied, or 15 when all are occupied. */
  lemma FirstFreeIsLeast(occupied: set<nat>, f: nat)
    requires f == FirstFree(occupied, 0)
    ensures forall a :: a in CANDIDATES && Before(a, CHOICES[f]) ==> a in occupied
    ensures if CANDIDATES <= occupied then CHOICES[f] == 15 else CHOICES[f] in CANDIDATES && CHOICES[f] !in occupied
  {
    forall a | a in CANDIDATES && (Before(a, CHOICES[f]) || f == LAST) ensures a in occupied {
      var i := EveryCandidate(a);
      if f < i { CandidatesAreRanked(f, i); }
    }
    CandidatesAreRanked(if f < LAST then f else 0, LAST);
  }

  /** In every run of the search that ends without a disturbance too many: the address is free and
      every candidate before it, players first, then tuners, then recorders, is occupied; on an
      empty bus it is 4. */
  lemma SettlesByRank(occupied: set<nat>, events: seq<Event>, t: State)
    requires Search(Initial(), occupied, events, t) && !Polling(t) && Inv(Initial())
    requires forall k: nat :: k < LAST ==> Bearable(Initial(), events, k)
    ensures forall a :: a in CANDIDATES && Before(a, t.address) ==> a in occupied
    ensures if CANDIDATES <= occupied then t.address == 15 else t.address in CANDIDATES && t.address !in occupied
    ensures occupied == {} ==> t.address == 4
  {
    SettlesExactly(occupied, events, t);
    FirstFreeIsLeast(occupied, FirstFree(occupied, 0));
    if occupied == {} { assert 4 in CANDIDATES && 4 !in occupied; }
  }

  // ---------------------------------------------------------------------------------------
  // What goes out
  // ---------------------------------------------------------------------------------------

  /** Every event puts at most one frame on the wire, from the present address: what the rest of the
      driver asked for, the announcement of an address nobody answered for, a poll of the next
      candidate, or the last frame again. */
  lemma EveryFrame(s: State, e: Event)
    requires Inv(s)
    ensures var t := Step(s, e);
            && (t.wire == s.wire || (t.wire == s.wire + [t.frame] && t.frame.src == t.address && t.sending))
            && (e.Other? && !s.sending ==> t.wire == s.wire + [Frame(s.address, e.dst, e.len)] && t.retries == 3)
            && (e.Failed? && e.nack && s.kiss ==>
                  !t.kiss && t.wire == s.wire + if e.active then [Frame(s.address, 15, 5)] else [])
            && (e.Failed? && !(e.nack && s.kiss) && s.retries > 0 ==>
                  t.wire == s.wire + [Frame(s.address, s.frame.dst, s.frame.len)] && t.retries == s.retries - 1)
  {
    StepKeepsInv(s, e);
  }
}
