/** Which session's demultiplexer a tag leads to, and how sessions are registered and moved to
    another source. */
module PtiSource {
  import opened PtiInjector

  /** Loading the driver: no demultiplexer, and every tag leads to the session of its number. */
  const LOADED := Config([NONE, NONE, NONE, NONE], [0, 1, 2, 3])

  /** Session `source` gets a demultiplexer, and its own tag. */
  function NewSession(c: Setup, source: int, demux: int): (r: Setup) {
    if 0 <= source < TAG_COUNT then Config(c.demux[source := demux], c.demuxTag[source := source]) else c
  }

  /** The last tag below `n` that leads to the session and has a demultiplexer under its own number. */
  function OldSource(c: Setup, session: int, n: nat): (r: int)
    requires n <= TAG_COUNT
    ensures -1 <= r < n && (r > -1 ==> c.demuxTag[r] == session)
  {
    if n == 0 then -1
    else if c.demux[n - 1] != NONE && c.demuxTag[n - 1] == session then n - 1
    else OldSource(c, session, n - 1)
  }

  /** Tag `source` leads to `session` from now on; what led there before takes over its old session. */
  function SetSource(c: Setup, session: int, source: int): (r: Setup)
    requires 0 <= session < TAG_COUNT && 0 <= source < TAG_COUNT
  {
    var had, from := c.demuxTag[source], OldSource(c, session, TAG_COUNT);
    if had == session then c
    else
      var tags := c.demuxTag[source := session];
      Config(c.demux, if from > -1 then tags[from := had] else tags)
  }

  // ---------------------------------------------------------------------------------------
  // Every session keeps one tag
  // ---------------------------------------------------------------------------------------

  /** No two tags lead to the same session. */
  ghost predicate OneEach(c: Setup) {
    forall s, t :: 0 <= s < t < TAG_COUNT ==> c.demuxTag[s] != c.demuxTag[t]
  }

  predicate Leads(c: Setup, tag: int, session: int) { 0 <= tag < TAG_COUNT && c.demuxTag[tag] == session }

  lemma SomeTagLeads(c: Setup, session: int) returns (tag: int)
    requires OneEach(c) && 0 <= session < TAG_COUNT
    ensures Leads(c, tag, session)
  {
    var t := c.demuxTag;
    assert t[0] != t[1] && t[0] != t[2] && t[0] != t[3] && t[1] != t[2] && t[1] != t[3] && t[2] != t[3];
    tag := if t[0] == session then 0 else if t[1] == session then 1 else if t[2] == session then 2 else 3;
  }

  lemma {:induction false} OldSourceFinds(c: Setup, session: int, tag: int, n: nat)
    requires OneEach(c) && Leads(c, tag, session) && n <= TAG_COUNT
    ensures OldSource(c, session, n) == if tag < n && c.demux[tag] != NONE then tag else -1
  {
    if n > 0 {
      OldSourceFinds(c, session, tag, n - 1);
      assert n - 1 != tag ==> c.demuxTag[n - 1] != session;
    }
  }

  /** Moving a session to another source exchanges two tags and leaves one tag to each session, if
      and only if the session is there already or the tag that leads to it has a demultiplexer
      under its own number. */
  lemma SetSourceSwapsExactly(c: Setup, session: int, source: int, tag: int)
    requires OneEach(c) && Leads(c, tag, session) && 0 <= source < TAG_COUNT
    ensures var r := SetSource(c, session, source);
            && Leads(r, source, session) && r.demux == c.demux
            && (OneEach(r) <==> tag == source || c.demux[tag] != NONE)
            && (OneEach(r) ==> r.demuxTag == c.demuxTag[source := session][tag := c.demuxTag[source]])
  {
    OldSourceFinds(c, session, tag, TAG_COUNT);
    var r := SetSource(c, session, source);
    if tag != source {
      assert c.demuxTag[source] != session;
      if c.demux[tag] == NONE {
        assert r.demuxTag[source] == session && r.demuxTag[tag] == session;
      }
    }
  }

  /** Registering a session leaves one tag to each if and only if its own tag leads to it already. */
  lemma NewSessionKeepsExactly(c: Setup, source: int, demux: int)
    requires OneEach(c) && 0 <= source < TAG_COUNT
    ensures OneEach(NewSession(c, source, demux)) <==> Leads(c, source, source)
  {
    var tag := SomeTagLeads(c, source);
    var r := NewSession(c, source, demux);
    if tag != source {
      assert r.demuxTag[source] == source && r.demuxTag[tag] == source;
    }
  }

  // ---------------------------------------------------------------------------------------
  // Runs
  // ---------------------------------------------------------------------------------------

  datatype Event = Register(source: int, demux: int) | Move(session: int, source: int)

  predicate Proper(e: Event) {
    e.Move? ==> 0 <= e.session < TAG_COUNT && 0 <= e.source < TAG_COUNT
  }

  function Step(c: Setup, e: Event): Setup
    requires Proper(e)
  {
    match e
    case Register(source, demux) => NewSession(c, source, demux)
    case Move(session, source) => SetSource(c, session, source)
  }

  /** The step disturbs no other session. */
  ghost predicate Harmless(c: Setup, e: Event) {
    match e
    case Register(source, _) => 0 <= source < TAG_COUNT ==> Leads(c, source, source)
    case Move(session, source) => forall tag :: Leads(c, tag, session) ==> tag == source || c.demux[tag] != NONE
  }

  lemma StepKeepsExactly(c: Setup, e: Event)
    requires OneEach(c) && Proper(e)
    ensures OneEach(Step(c, e)) <==> Harmless(c, e)
  {
    match e
    case Register(source, demux) =>
      if 0 <= source < TAG_COUNT { NewSessionKeepsExactly(c, source, demux); }
    case Move(session, source) =>
      var tag := SomeTagLeads(c, session);
      SetSourceSwapsExactly(c, session, source, tag);
      assert forall t :: Leads(c, t, session) ==> t == tag;
  }

  /** There is one tag to each session in every state of the run. */
  ghost predicate Throughout(c: Setup, events: seq<Event>)
    requires forall e :: e in events ==> Proper(e)
    decreases |events|
  {
    OneEach(c) && (events != [] ==> Throughout(Step(c, events[0]), events[1..]))
  }

  ghost predicate HarmlessRun(c: Setup, events: seq<Event>)
    requires forall e :: e in events ==> Proper(e)
    decreases |events|
  {
    events == [] || (Harmless(c, events[0]) && HarmlessRun(Step(c, events[0]), events[1..]))
  }

  lemma {:induction false} EveryRunExactly(c: Setup, events: seq<Event>)
    requires OneEach(c) && forall e :: e in events ==> Proper(e)
    ensures Throughout(c, events) <==> HarmlessRun(c, events)
    decreases |events|
  {
    if events != [] {
      StepKeepsExactly(c, events[0]);
      if OneEach(Step(c, events[0])) { EveryRunExactly(Step(c, events[0]), events[1..]); }
    }
  }

  /** With a demultiplexer in all four sessions, sessions may be moved as one likes. */
  lemma {:induction false} MovesAreHarmless(c: Setup, events: seq<Event>)
    requires OneEach(c) && NONE !in c.demux && forall e :: e in events ==> Proper(e) && e.Move?
    ensures HarmlessRun(c, events)
    decreases |events|
  {
    if events != [] {
      var e := events[0];
      assert e in events;
      forall tag | Leads(c, tag, e.session) ensures c.demux[tag] != NONE { assert c.demux[tag] in c.demux; }
      StepKeepsExactly(c, e);
      MovesAreHarmless(Step(c, e), events[1..]);
    }
  }

  /** A single session registered and moved twice: two tags lead to it then, and none to session 2. */
  lemma LoneSessionStrays(demux: int)
    requires demux != NONE
    ensures var c := SetSource(NewSession(LOADED, 1, demux), 1, 0);
            OneEach(c) && SetSource(c, 1, 2).demuxTag == [1, 0, 1, 3]
  {
    var c := NewSession(LOADED, 1, demux);
    OldSourceFinds(c, 1, 1, TAG_COUNT);
    var d := SetSource(c, 1, 0);
    assert d.demuxTag == [1, 0, 2, 3] && d.demux == [NONE, demux, NONE, NONE];
    OldSourceFinds(d, 1, 0, TAG_COUNT);
  }

  /** After a move, whatever the injector hands over from the buffer of that source goes to the
      demultiplexer of the session. */
  lemma MovedIsReached(c: Setup, session: int, source: int, ps: seq<seq<Byte>>, i: nat)
    requires 0 <= session < TAG_COUNT && 0 <= source < TAG_COUNT && forall p :: p in ps ==> IsPacket(p)
    ensures var calls := Batch(SetSource(c, session, source), ps).calls;
            i < |calls| && calls[i].tag == source ==> calls[i].demux == c.demux[session]
  {
    BatchDeliversByTag(SetSource(c, session, source), ps, source);
  }

  // ---------------------------------------------------------------------------------------
  // The driver's own code
  // ---------------------------------------------------------------------------------------

  class Sessions {
    const demux: array<int>
    const demuxTag: array<int>

    ghost predicate Valid()
      reads demux, demuxTag
    {
      demux != demuxTag && Config(demux[..], demuxTag[..]).Valid()
    }

    ghost function Routes(): Setup
      requires Valid()
      reads demux, demuxTag
    {
      Config(demux[..], demuxTag[..])
    }

    constructor ()
      ensures Valid() && fresh(demux) && fresh(demuxTag) && Routes() == LOADED
    {
      demux := new int[TAG_COUNT](_ => NONE);
      demuxTag := new int[TAG_COUNT];
      new;
      for i := 0 to TAG_COUNT
        invariant forall t :: 0 <= t < i ==> demuxTag[t] == t
        invariant forall t :: 0 <= t < TAG_COUNT ==> demux[t] == NONE
      {
        demuxTag[i] := i;
      }
    }

    method GetNewSessionHandle(source: int, d: int) returns (r: int)
      requires Valid()
      modifies demux, demuxTag
      ensures Valid() && r == source && Routes() == NewSession(old(Routes()), source, d)
    {
      if source >= 0 && source < TAG_COUNT {
        demux[source] := d;
        demuxTag[source] := source;
      }
      r := source;
    }

    method MoveTo(session: int, source: int) returns (r: int)
      requires Valid() && 0 <= session < TAG_COUNT && 0 <= source < TAG_COUNT
      modifies demuxTag
      ensures Valid() && r == 1 && Routes() == SetSource(old(Routes()), session, source)
    {
      var oldSession := demuxTag[source];
      if oldSession == session { return 1; }
      var oldSource := -1;
      for i := 0 to TAG_COUNT
        invariant oldSource == OldSource(Routes(), session, i)
      {
        if demux[i] != NONE && demuxTag[i] == session { oldSource := i; }
      }
      demuxTag[source] := session;
      if oldSource > -1 { demuxTag[oldSource] := oldSession; }
      r := 1;
    }
  }
}
