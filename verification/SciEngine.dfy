/** The half-duplex engine of the smart card driver: writes, interrupts, reads and the line, as
    steps that may come in any order. The line carries both directions, so every byte sent comes
    back and has to be skipped. A read is not one step: it ends by finding the buffer empty and
    then setting both pointers back, and interrupts come in between. */
module SciEngine {
  import opened Atr

  const FIFO_SIZE := 16
  const BUFFER_SIZE := 1024

  /** Which interrupts are enabled: receive, and transmitter empty, and transmitter half empty. */
  datatype Mode = RxFull | RxFullTxEmpty | RxFullTxHalfEmpty

  /** A byte on its way through the interrupt handler; the same in both directions. */
  type Code = Byte -> Byte

  ghost predicate Involution(code: Code) { forall b :: code(code(b)) == b }

  function Coded(code: Code, s: seq<Byte>): (r: seq<Byte>)
    ensures |r| == |s|
  {
    seq(|s|, i requires 0 <= i < |s| => code(s[i]))
  }

  /** What a write left behind when the next one came: what it was to send, what the line carried,
      and what was thrown away with the FIFO. */
  datatype Exchange = Exchange(written: seq<Byte>, line: seq<Byte>, lost: seq<Byte>)

  /** Where a read is: none is under way, its bytes are copied, the buffer was found empty, the
      first of the two pointers is back at zero. */
  datatype Pc = Idle | Copied | FoundEmpty | HalfReset

  /** The driver: the bytes of the last write and how many went into the FIFO (`txW`), the bytes
      received since the read buffer was last empty and where the next read starts (`rxW`). The
      hardware: both FIFOs. What happened since the last write: the bytes on the line and the card's
      reply, the bytes reads returned and their places in the reply, how many places reads have
      passed over, how many bytes the read buffer has forgotten, and how long it was when found
      empty (`mark`). In all: the places passed over, and the exchanges before. */
  datatype State = State(
    mode: Mode, written: seq<Byte>, txW: nat, readBuf: seq<Byte>, rxW: nat,
    txFifo: seq<Byte>, rxFifo: seq<Byte>, pc: Pc,
    line: seq<Byte>, reply: seq<Byte>, got: seq<Byte>, places: seq<nat>, skipped: nat, gone: nat, mark: nat,
    passedOver: nat, past: seq<Exchange>)

  function Initial(): State { State(RxFull, [], 0, [], 0, [], [], Idle, [], [], [], [], 0, 0, 0, 0, []) }

  // ---------------------------------------------------------------------------------------
  // Steps
  // ---------------------------------------------------------------------------------------

  /** `Read` is the beginning of a read, `Go` each further step of it. */
  datatype Action = Write(data: seq<Byte>) | Interrupt | Shift | CardSends(b: Byte) | Read(length: nat) | Go

  function Min(a: nat, b: nat): nat { if a <= b then a else b }

  /** A write: it waits for the one before to be in the FIFO, and starts with both FIFOs empty. */
  function DoWrite(s: State, data: seq<Byte>): State {
    var written := data[..Min(|data|, BUFFER_SIZE)];
    State(if |written| <= FIFO_SIZE then RxFullTxEmpty else RxFullTxHalfEmpty, written, 0, [], 0, [], [], Idle,
          [], [], [], [], 0, 0, 0, s.passedOver, s.past + [Exchange(s.written, s.line, s.txFifo)])
  }

  /** The receiving half of the interrupt handler empties the receive FIFO. */
  function DoReceive(code: Code, s: State): State {
    s.(readBuf := s.readBuf + Coded(code, s.rxFifo), rxFifo := [])
  }

  /** `n` more bytes into the transmit FIFO; their echoes are skipped in advance. */
  function Hand(code: Code, s: State, n: nat): State
    requires s.txW + n <= |s.written|
  {
    s.(txFifo := s.txFifo + Coded(code, s.written[s.txW..s.txW + n]), txW := s.txW + n, rxW := s.rxW + n,
       mode := if s.txW + n == |s.written| then RxFull else s.mode)
  }

  /** How many bytes the transmitting half may hand over: a FIFO full when the FIFO is empty, half
      of one when it is half empty and that interrupt is enabled; or none at all. */
  function Room(s: State): Option<nat> {
    if s.mode != RxFull && s.txFifo == [] then Some(FIFO_SIZE)
    else if s.mode == RxFullTxHalfEmpty && |s.txFifo| <= FIFO_SIZE / 2 then Some(FIFO_SIZE / 2)
    else None
  }

  function DoTransmit(code: Code, s: State): State
    requires s.txW <= |s.written|
  {
    match Room(s)
    case None => s
    case Some(room) => Hand(code, s, Min(|s.written| - s.txW, room))
  }

  function DoInterrupt(code: Code, s: State): State
    requires s.txW <= |s.written|
  {
    DoTransmit(code, DoReceive(code, s))
  }

  /** The number of bytes a read returns: what there is, at most `length`, but always a whole
      buffer when more than a buffer is asked for. */
  function ReadCount(s: State, length: nat): nat
    requires s.rxW < |s.readBuf|
  {
    if length > BUFFER_SIZE then BUFFER_SIZE else Min(|s.readBuf| - s.rxW, length)
  }

  /** A read returns no more than was received: always, unless more than a buffer is asked for. */
  predicate ReadFits(s: State, length: nat) {
    length <= BUFFER_SIZE || s.rxW + BUFFER_SIZE <= |s.readBuf|
  }

  function Count(from: nat, n: nat): seq<nat> { seq(n, i => from + i) }

  /** A read copies its bytes out and moves on. If it moves on beyond what was received, the bytes
      it returns from there are none of the card's, and the places are passed over. */
  function DoCopy(s: State, length: nat): State
    requires s.rxW < |s.readBuf|
  {
    var n := ReadCount(s, length);
    var own := Min(n, |s.readBuf| - s.rxW);
    s.(got := s.got + s.readBuf[s.rxW..s.rxW + own], places := s.places + Count(|s.got| + s.skipped, own),
       rxW := s.rxW + n, skipped := s.skipped + (n - own), passedOver := s.passedOver + (n - own), pc := Copied)
  }

  /** The end of a read: the test, and the two pointers one after the other. What was received
      after the test is forgotten unread. */
  function DoGo(s: State): State
    requires s.pc == HalfReset ==> s.mark <= |s.readBuf|
  {
    match s.pc
    case Idle => s
    case Copied => if s.rxW == |s.readBuf| then s.(pc := FoundEmpty, mark := s.rxW) else s.(pc := Idle)
    case FoundEmpty => s.(pc := HalfReset, rxW := 0)
    case HalfReset =>
      var unread := |s.readBuf| - s.mark;
      s.(pc := Idle, readBuf := [], gone := s.gone + |s.readBuf|, skipped := s.skipped + unread,
         passedOver := s.passedOver + unread)
  }

  /** When a step can be taken. The calls of the user do not overlap, the card answers a write only
      when all of it was on the line, no FIFO overruns, and the read buffer holds what one exchange
      receives. */
  predicate Enabled(s: State, a: Action) {
    match a
    case Write(_) => s.txW == |s.written| && s.pc == Idle
    case Interrupt => s.txW <= |s.written| && |s.readBuf| + |s.rxFifo| <= BUFFER_SIZE
    case Shift => s.txFifo != [] && |s.rxFifo| < FIFO_SIZE
    case CardSends(_) => |s.line| == |s.written| && |s.rxFifo| < FIFO_SIZE
    case Read(_) => s.rxW < |s.readBuf| && s.mode != RxFullTxEmpty && s.pc == Idle
    case Go => s.pc != Idle && (s.pc == HalfReset ==> s.mark <= |s.readBuf|)
  }

  function Next(code: Code, s: State, a: Action): State
    requires Enabled(s, a)
  {
    match a
    case Write(data) => DoWrite(s, data)
    case Interrupt => DoInterrupt(code, s)
    case Shift => s.(txFifo := s.txFifo[1..], line := s.line + [s.txFifo[0]], rxFifo := s.rxFifo + [s.txFifo[0]])
    case CardSends(b) => s.(reply := s.reply + [b], rxFifo := s.rxFifo + [b])
    case Read(length) => DoCopy(s, length)
    case Go => DoGo(s)
  }

  ghost predicate Run(code: Code, s: State, actions: seq<Action>, t: State)
    decreases |actions|
  {
    if actions == [] then s == t
    else Enabled(s, actions[0]) && Run(code, Next(code, s, actions[0]), actions[1..], t)
  }

  // ---------------------------------------------------------------------------------------
  // What every state keeps
  // ---------------------------------------------------------------------------------------

  /** Sending: what is on the line and in the FIFO is, in order and once each, what was handed over. */
  ghost predicate Sending(code: Code, s: State) {
    && s.txW <= |s.written| <= BUFFER_SIZE && |s.txFifo| <= FIFO_SIZE
    && s.line + s.txFifo == Coded(code, s.written[..s.txW])
    && (s.mode == RxFull ==> s.txW == |s.written|)
    && (s.mode == RxFullTxEmpty ==> |s.written| <= FIFO_SIZE)
  }

  /** Receiving: the read buffer and the FIFO hold the echoes and then the reply, from `gone` on. */
  ghost predicate Receiving(code: Code, s: State) {
    && s.gone <= |s.line + s.reply| && |s.rxFifo| <= FIFO_SIZE
    && s.readBuf + Coded(code, s.rxFifo) == Coded(code, s.line + s.reply)[s.gone..]
    && (s.reply != [] ==> |s.line| == |s.written|)
  }

  /** Where the next read starts, however far the end of the last one has got. */
  function ReadFrom(s: State): nat { if s.pc == HalfReset then s.mark else s.rxW }

  /** What was read are bytes of the reply, in order; without places passed over, all of them. */
  ghost predicate Subsequence(got: seq<Byte>, places: seq<nat>, all: seq<Byte>, skipped: nat) {
    && |places| == |got|
    && (forall i :: 0 <= i < |got| ==> i <= places[i] < |all| && places[i] < |got| + skipped && got[i] == all[places[i]])
    && (forall i, j :: 0 <= i < j < |got| ==> places[i] < places[j])
    && (skipped == 0 ==> forall i :: 0 <= i < |got| ==> places[i] == i)
  }

  /** Reading: the echo of everything handed over is skipped. */
  ghost predicate Reading(code: Code, s: State) {
    && s.gone + ReadFrom(s) == s.txW + |s.got| + s.skipped && s.skipped <= s.passedOver
    && Subsequence(s.got, s.places, Coded(code, s.reply), s.skipped)
    && (s.pc != Idle ==> s.reply != [] && s.txW == |s.written|)
    && (s.pc in {FoundEmpty, HalfReset} ==> s.mark <= |s.readBuf|)
    && (s.pc == FoundEmpty ==> s.rxW == s.mark)
    && (s.pc == HalfReset ==> s.rxW == 0)
  }

  ghost predicate PastOk(code: Code, past: seq<Exchange>) {
    forall e :: e in past ==> e.line + e.lost == Coded(code, e.written)
  }

  ghost predicate Inv(code: Code, s: State) {
    Sending(code, s) && Receiving(code, s) && Reading(code, s) && PastOk(code, s.past)
  }

  lemma InitialInv(code: Code)
    ensures Inv(code, Initial())
  {
  }

  /** Nothing sent, received or read yet. */
  predicate Fresh(s: State) {
    && s.txW == s.rxW == s.gone == s.skipped == 0 && s.pc == Idle
    && s.readBuf == s.txFifo == s.rxFifo == s.line == s.reply == s.got == [] && s.places == []
  }

  lemma FreshIsFine(code: Code, s: State)
    requires Fresh(s) && s.mode != RxFull && |s.written| <= BUFFER_SIZE && (s.mode == RxFullTxEmpty ==> |s.written| <= FIFO_SIZE)
    ensures Sending(code, s) && Receiving(code, s) && Reading(code, s)
  {
  }

  lemma PastGrows(code: Code, past: seq<Exchange>, e: Exchange)
    requires PastOk(code, past) && e.line + e.lost == Coded(code, e.written)
    ensures PastOk(code, past + [e])
  {
  }

  lemma WriteKeepsInv(code: Code, s: State, data: seq<Byte>)
    requires Inv(code, s) && Enabled(s, Write(data))
    ensures Inv(code, DoWrite(s, data))
  {
    assert s.written[..s.txW] == s.written;
    FreshIsFine(code, DoWrite(s, data));
    PastGrows(code, s.past, Exchange(s.written, s.line, s.txFifo));
  }

  lemma CodedJoin(code: Code, a: seq<Byte>, b: seq<Byte>)
    ensures Coded(code, a + b) == Coded(code, a) + Coded(code, b)
  {
  }

  lemma ReceiveKeepsInv(code: Code, s: State)
    requires Inv(code, s)
    ensures Inv(code, DoReceive(code, s))
  {
  }

  lemma HandKeepsInv(code: Code, s: State, n: nat)
    requires Inv(code, s) && s.txW + n <= |s.written| && |s.txFifo| + n <= FIFO_SIZE
    ensures Inv(code, Hand(code, s, n))
  {
    var t := Hand(code, s, n);
    var old', more := s.written[..s.txW], s.written[s.txW..s.txW + n];
    assert s.written[..t.txW] == old' + more;
    CodedJoin(code, old', more);
    assert t.line + t.txFifo == (s.line + s.txFifo) + Coded(code, more);
  }

  lemma TransmitKeepsInv(code: Code, s: State)
    requires Inv(code, s)
    ensures Inv(code, DoTransmit(code, s))
  {
    if Room(s).Some? {
      HandKeepsInv(code, s, Min(|s.written| - s.txW, Room(s).value));
    }
  }

  lemma InterruptKeepsInv(code: Code, s: State)
    requires Inv(code, s) && Enabled(s, Interrupt)
    ensures Inv(code, DoInterrupt(code, s))
  {
    ReceiveKeepsInv(code, s);
    TransmitKeepsInv(code, DoReceive(code, s));
  }

  /** One more byte arrives, from the line or from the card. */
  lemma Arrives(code: Code, s: State, heard: seq<Byte>, b: Byte)
    requires s.gone <= |heard| && s.readBuf + Coded(code, s.rxFifo) == Coded(code, heard)[s.gone..]
    ensures s.readBuf + Coded(code, s.rxFifo + [b]) == Coded(code, heard + [b])[s.gone..]
  {
    CodedJoin(code, s.rxFifo, [b]);
    CodedJoin(code, heard, [b]);
    assert s.readBuf + (Coded(code, s.rxFifo) + Coded(code, [b])) == (s.readBuf + Coded(code, s.rxFifo)) + Coded(code, [b]);
  }

  lemma ShiftKeepsInv(code: Code, s: State)
    requires Inv(code, s) && Enabled(s, Shift)
    ensures Inv(code, Next(code, s, Shift))
  {
    var t := Next(code, s, Shift);
    assert t.line + t.txFifo == s.line + s.txFifo;
    assert |s.line| < s.txW;
    assert s.reply == [];
    Arrives(code, s, s.line + s.reply, s.txFifo[0]);
    assert t.line + t.reply == (s.line + s.reply) + [s.txFifo[0]];
  }

  lemma CardKeepsInv(code: Code, s: State, b: Byte)
    requires Inv(code, s) && Enabled(s, CardSends(b))
    ensures Inv(code, Next(code, s, CardSends(b)))
  {
    var t := Next(code, s, CardSends(b));
    Arrives(code, s, s.line + s.reply, b);
    assert t.line + t.reply == (s.line + s.reply) + [b];
    CodedJoin(code, s.reply, [b]);
    ReplyGrows(s.got, s.places, Coded(code, s.reply), s.skipped, Coded(code, [b]), 0);
  }

  /** Whenever a read goes ahead, all of the write was on the line, and the bytes it returns are
      the next bytes of the card's reply behind those passed over: never an echo. */
  lemma ReadReturnsReply(code: Code, s: State, n: nat)
    requires Inv(code, s) && s.pc == Idle && s.rxW < |s.readBuf| && s.rxW + n <= |s.readBuf|
    ensures s.reply != [] && |s.line| == |s.written| == s.txW && |s.got| + s.skipped + n <= |s.reply|
    ensures var from := |s.got| + s.skipped; s.readBuf[s.rxW..s.rxW + n] == Coded(code, s.reply)[from..from + n]
  {
    var heard := Coded(code, s.line + s.reply);
    var all := s.readBuf + Coded(code, s.rxFifo);
    assert |s.line| + |s.txFifo| == s.txW;
    assert |all| == |heard| - s.gone;
    assert s.reply != [];
    var k := s.gone + s.rxW;
    assert k == |s.line| + |s.got| + s.skipped;
    assert s.readBuf[s.rxW..s.rxW + n] == all[s.rxW..s.rxW + n];
    assert all[s.rxW..s.rxW + n] == heard[k..k + n];
    CodedJoin(code, s.line, s.reply);
    BehindFirst(Coded(code, s.line), Coded(code, s.reply), k, n);
  }

  lemma BehindFirst(x: seq<Byte>, y: seq<Byte>, k: nat, n: nat)
    requires |x| <= k && k + n <= |x| + |y|
    ensures (x + y)[k..k + n] == y[k - |x|..k - |x| + n]
  {
  }

  lemma FrontForgotten(front: seq<Byte>, back: seq<Byte>, heard: seq<Byte>, gone: nat)
    requires gone <= |heard| && front + back == heard[gone..]
    ensures gone + |front| <= |heard| && [] + back == heard[gone + |front|..]
  {
  }

  /** The next bytes of the reply behind those passed over, read. */
  lemma SubsequenceGrows(got: seq<Byte>, places: seq<nat>, all: seq<Byte>, skipped: nat, n: nat,
                         got': seq<Byte>, places': seq<nat>, skipped': nat)
    requires Subsequence(got, places, all, skipped) && |got| + skipped + n <= |all| && skipped <= skipped'
    requires got' == got + all[|got| + skipped..|got| + skipped + n] && places' == places + Count(|got| + skipped, n)
    ensures Subsequence(got', places', all, skipped')
  {
    var from := |got| + skipped;
    forall i | 0 <= i < |got'| ensures i <= places'[i] < |all| && places'[i] < |got'| + skipped && got'[i] == all[places'[i]] {
      if i >= |got| { assert places'[i] == from + (i - |got|); }
    }
  }

  lemma ReplyGrows(got: seq<Byte>, places: seq<nat>, all: seq<Byte>, skipped: nat, b: seq<Byte>, more: nat)
    requires Subsequence(got, places, all, skipped)
    ensures Subsequence(got, places, all + b, skipped + more)
  {
  }

  lemma CopyIsSubsequence(s: State, length: nat, all: seq<Byte>)
    requires s.rxW < |s.readBuf| && Subsequence(s.got, s.places, all, s.skipped)
    requires var own, from := Min(ReadCount(s, length), |s.readBuf| - s.rxW), |s.got| + s.skipped;
             from + own <= |all| && s.readBuf[s.rxW..s.rxW + own] == all[from..from + own]
    ensures var t := DoCopy(s, length); Subsequence(t.got, t.places, all, t.skipped)
  {
    var n, t := ReadCount(s, length), DoCopy(s, length);
    SubsequenceGrows(s.got, s.places, all, s.skipped, Min(n, |s.readBuf| - s.rxW), t.got, t.places, t.skipped);
  }

  lemma CopyKeepsReading(code: Code, s: State, length: nat)
    requires Inv(code, s) && Enabled(s, Read(length))
    ensures Reading(code, DoCopy(s, length))
  {
    ReadReturnsReply(code, s, Min(ReadCount(s, length), |s.readBuf| - s.rxW));
    CopyIsSubsequence(s, length, Coded(code, s.reply));
  }

  lemma CopyKeepsInv(code: Code, s: State, length: nat)
    requires Inv(code, s) && Enabled(s, Read(length))
    ensures Inv(code, DoCopy(s, length))
  {
    CopyKeepsReading(code, s, length);
  }

  lemma GoKeepsInv(code: Code, s: State)
    requires Inv(code, s) && s.pc != Idle
    ensures Inv(code, DoGo(s))
  {
    if s.pc == HalfReset {
      FrontForgotten(s.readBuf, Coded(code, s.rxFifo), Coded(code, s.line + s.reply), s.gone);
      var reply := Coded(code, s.reply);
      ReplyGrows(s.got, s.places, reply, s.skipped, [], |s.readBuf| - s.mark);
      assert reply + [] == reply;
    }
  }

  lemma StepKeepsInv(code: Code, s: State, a: Action)
    requires Inv(code, s) && Enabled(s, a)
    ensures Inv(code, Next(code, s, a))
  {
    match a
    case Write(data) => WriteKeepsInv(code, s, data);
    case Interrupt => InterruptKeepsInv(code, s);
    case Shift => ShiftKeepsInv(code, s);
    case CardSends(b) => CardKeepsInv(code, s, b);
    case Read(length) => CopyKeepsInv(code, s, length);
    case Go => GoKeepsInv(code, s);
  }

  lemma {:induction false} EveryRunKeepsInv(code: Code, s: State, actions: seq<Action>, t: State)
    requires Inv(code, s) && Run(code, s, actions, t)
    ensures Inv(code, t)
    decreases |actions|
  {
    if actions != [] {
      StepKeepsInv(code, s, actions[0]);
      EveryRunKeepsInv(code, Next(code, s, actions[0]), actions[1..], t);
    }
  }

  // ---------------------------------------------------------------------------------------
  // What a run from the start shows
  // ---------------------------------------------------------------------------------------

  lemma CodedTwice(code: Code, a: seq<Byte>)
    requires Involution(code)
    ensures Coded(code, Coded(code, a)) == a
  {
    forall i | 0 <= i < |a| ensures Coded(code, Coded(code, a))[i] == a[i] {
      assert code(code(a[i])) == a[i];
    }
  }

  lemma CodedPrefix(code: Code, a: seq<Byte>, b: seq<Byte>, c: seq<Byte>)
    requires a + b == Coded(code, c) && Involution(code)
    ensures Coded(code, a) == c[..|a|]
  {
    CodedJoin(code, a, b);
    CodedTwice(code, c);
  }

  /** In every run: the card has heard the written bytes in order and once each, as far as they
      were sent; the FIFO was never overfilled; and what reads returned of the card's are bytes of
      its reply, in order and once each, never an echo. */
  lemma EveryRunIsFaithful(code: Code, actions: seq<Action>, t: State)
    requires Involution(code) && Run(code, Initial(), actions, t)
    ensures Coded(code, t.line) <= t.written && |t.txFifo| <= 16
    ensures Subsequence(t.got, t.places, Coded(code, t.reply), t.skipped)
    ensures forall e :: e in t.past ==> WasHeard(code, e)
  {
    InitialInv(code);
    EveryRunKeepsInv(code, Initial(), actions, t);
    CodedPrefix(code, t.line, t.txFifo, t.written[..t.txW]);
    PastHeard(code, t.past);
  }

  /** The card heard the beginning of a write, and all of it exactly if nothing was thrown away. */
  predicate WasHeard(code: Code, e: Exchange) {
    Coded(code, e.line) <= e.written && (Coded(code, e.line) == e.written <==> e.lost == [])
  }

  lemma PastHeard(code: Code, past: seq<Exchange>)
    requires Involution(code) && PastOk(code, past)
    ensures forall e :: e in past ==> WasHeard(code, e)
  {
    forall e | e in past ensures WasHeard(code, e) {
      CodedPrefix(code, e.line, e.lost, e.written);
    }
  }

  // ---------------------------------------------------------------------------------------
  // When reads pass over bytes of the reply
  // ---------------------------------------------------------------------------------------

  /** A step is safe unless the handler stores a byte while a read sets the pointers back, or a read
      asks for more than a buffer of a buffer that is not full from its first byte. */
  predicate Safe(s: State, a: Action) {
    && (a.Interrupt? && s.pc in {FoundEmpty, HalfReset} ==> s.rxFifo == [])
    && (a.Read? ==> ReadFits(s, a.length))
  }

  ghost predicate SafeRun(code: Code, s: State, actions: seq<Action>)
    decreases |actions|
  {
    actions == [] || (Enabled(s, actions[0]) && Safe(s, actions[0]) && SafeRun(code, Next(code, s, actions[0]), actions[1..]))
  }

  /** No byte of any reply was passed over, and none is about to be. */
  predicate Intact(s: State) {
    s.passedOver == 0 && (s.pc in {FoundEmpty, HalfReset} ==> |s.readBuf| == s.mark)
  }

  lemma StepIsIntact(code: Code, s: State, a: Action)
    requires Inv(code, s) && Enabled(s, a)
    ensures Intact(Next(code, s, a)) <==> Intact(s) && Safe(s, a)
  {
  }

  lemma {:induction false} RunIsIntact(code: Code, s: State, actions: seq<Action>, t: State)
    requires Inv(code, s) && Run(code, s, actions, t)
    ensures Intact(t) <==> Intact(s) && SafeRun(code, s, actions)
    decreases |actions|
  {
    if actions != [] {
      StepKeepsInv(code, s, actions[0]);
      StepIsIntact(code, s, actions[0]);
      RunIsIntact(code, Next(code, s, actions[0]), actions[1..], t);
    }
  }

  /** In every run: no byte of a reply is passed over if and only if no interrupt with a received
      byte falls between the test and the reset at the end of a read, and no read asks for more than
      a buffer when there is less. What reads returned is then the beginning of the reply. */
  lemma RepliesIntactExactly(code: Code, actions: seq<Action>, t: State)
    requires Run(code, Initial(), actions, t)
    ensures Intact(t) <==> SafeRun(code, Initial(), actions)
    ensures Intact(t) ==> t.got <= Coded(code, t.reply)
  {
    InitialInv(code);
    RunIsIntact(code, Initial(), actions, t);
    EveryRunKeepsInv(code, Initial(), actions, t);
    if Intact(t) { NothingSkipped(t.got, t.places, Coded(code, t.reply)); }
  }

  lemma NothingSkipped(got: seq<Byte>, places: seq<nat>, all: seq<Byte>)
    requires Subsequence(got, places, all, 0)
    ensures got <= all
  {
    if got != [] {
      assert places[|got| - 1] == |got| - 1;
      assert got == all[..|got|];
    }
  }

  lemma Then(code: Code, s: State, a: Action, actions: seq<Action>, t: State)
    requires Enabled(s, a) && Run(code, Next(code, s, a), actions, t)
    ensures Run(code, s, [a] + actions, t)
  {
    assert ([a] + actions)[1..] == actions;
  }

  /** A reply byte received while the driver is idle: it arrives, and the handler stores it. */
  lemma Arrival(code: Code, s: State, b: Byte) returns (t: State)
    requires s.mode == RxFull && |s.line| == |s.written| == s.txW && s.rxFifo == [] && |s.readBuf| < BUFFER_SIZE
    ensures t == s.(reply := s.reply + [b], readBuf := s.readBuf + [code(b)])
    ensures Enabled(s, CardSends(b)) && Enabled(Next(code, s, CardSends(b)), Interrupt)
    ensures t == Next(code, Next(code, s, CardSends(b)), Interrupt)
  {
    var m := Next(code, s, CardSends(b));
    assert m.rxFifo == [b] && Coded(code, [b]) == [code(b)];
    t := Next(code, m, Interrupt);
  }

  lemma ThenArrival(code: Code, s: State, b: Byte, u: State, actions: seq<Action>, t: State)
    requires Enabled(s, CardSends(b)) && Enabled(Next(code, s, CardSends(b)), Interrupt)
    requires u == Next(code, Next(code, s, CardSends(b)), Interrupt) && Run(code, u, actions, t)
    ensures Run(code, s, [CardSends(b)] + ([Interrupt] + actions), t)
  {
    Then(code, Next(code, s, CardSends(b)), Interrupt, actions, t);
    Then(code, s, CardSends(b), [Interrupt] + actions, t);
  }

  lemma {:induction false} RunConcat(code: Code, s: State, a: seq<Action>, m: State, b: seq<Action>, t: State)
    requires Run(code, s, a, m) && Run(code, m, b, t)
    ensures Run(code, s, a + b, t)
    decreases |a|
  {
    if a == [] {
      assert a + b == b;
    } else {
      RunConcat(code, Next(code, s, a[0]), a[1..], m, b, t);
      Then(code, s, a[0], a[1..] + b, t);
      assert a + b == [a[0]] + (a[1..] + b);
    }
  }

  /** The driver has read the first byte of the reply and found the buffer empty. */
  function ReadOne(code: Code, b: Byte): State {
    Initial().(reply := [b], readBuf := [code(b)], got := [code(b)], places := [0], rxW := 1, mark := 1, pc := FoundEmpty)
  }

  lemma FirstByte(code: Code, b: Byte) returns (actions: seq<Action>)
    ensures Run(code, Initial(), actions, ReadOne(code, b))
  {
    var s0 := Initial();
    var s1 := Arrival(code, s0, b);
    var s2 := Next(code, s1, Read(1));
    assert s2 == s1.(got := [code(b)], places := [0], rxW := 1, pc := Copied);
    Then(code, s2, Go, [], ReadOne(code, b));
    Then(code, s1, Read(1), [Go], ReadOne(code, b));
    ThenArrival(code, s0, b, s1, [Read(1)] + [Go], ReadOne(code, b));
    actions := [CardSends(b)] + ([Interrupt] + ([Read(1)] + [Go]));
  }

  /** The second was stored and forgotten. */
  function ForgotOne(code: Code, b: Byte, c: Byte): State {
    Initial().(reply := [b, c], got := [code(b)], places := [0], mark := 1, gone := 2, skipped := 1, passedOver := 1)
  }

  lemma SecondByte(code: Code, b: Byte, c: Byte) returns (actions: seq<Action>)
    ensures Run(code, ReadOne(code, b), actions, ForgotOne(code, b, c))
  {
    var s3, s6 := ReadOne(code, b), ForgotOne(code, b, c);
    var s4 := Arrival(code, s3, c);
    assert s4.readBuf == [code(b), code(c)] && s4.reply == [b, c];
    var s5 := Next(code, s4, Go);
    Then(code, s5, Go, [], s6);
    Then(code, s4, Go, [Go], s6);
    ThenArrival(code, s3, c, s4, [Go] + [Go], s6);
    actions := [CardSends(c)] + ([Interrupt] + ([Go] + [Go]));
  }

  /** Such a run: the second of three bytes comes between the test and the reset of a read, and the
      next read returns the third. */
  lemma LostReply(code: Code, b: Byte, c: Byte, d: Byte) returns (actions: seq<Action>, t: State)
    ensures Run(code, Initial(), actions, t) && t.reply == [b, c, d] && t.got == [code(b), code(d)] && t.passedOver == 1
    ensures code(c) != code(d) ==> !(t.got <= Coded(code, t.reply))
  {
    var s6 := ForgotOne(code, b, c);
    var s7 := Arrival(code, s6, d);
    t := Next(code, s7, Read(1));
    assert t.got == [code(b)] + [code(d)] && t.reply == [b, c] + [d];
    Then(code, s7, Read(1), [], t);
    ThenArrival(code, s6, d, s7, [Read(1)], t);
    var one := FirstByte(code, b);
    var two := SecondByte(code, b, c);
    var three := [CardSends(d)] + ([Interrupt] + [Read(1)]);
    RunConcat(code, ReadOne(code, b), two, s6, three, t);
    RunConcat(code, Initial(), one, ReadOne(code, b), two + three, t);
    actions := one + (two + three);
    assert Coded(code, t.reply)[1] == code(c);
  }

  /** And one with a read of more than a buffer: of the 1024 bytes it returns, one was received. */
  lemma LongRead(code: Code, b: Byte) returns (actions: seq<Action>, t: State)
    ensures Run(code, Initial(), actions, t) && t.reply == [b] && t.got == [code(b)] && t.rxW == 1024 && t.passedOver == 1023
  {
    var s0 := Initial();
    var s1 := Arrival(code, s0, b);
    t := Next(code, s1, Read(BUFFER_SIZE + 1));
    assert t.got == [code(b)] && t.reply == [] + [b];
    Then(code, s1, Read(BUFFER_SIZE + 1), [], t);
    ThenArrival(code, s0, b, s1, [Read(BUFFER_SIZE + 1)], t);
    actions := [CardSends(b)] + ([Interrupt] + [Read(BUFFER_SIZE + 1)]);
  }

  /** A write is thrown away in part exactly when the next one comes before the FIFO is empty. */
  lemma NextWriteLosesFifo(code: Code, s: State, data: seq<Byte>)
    requires Inv(code, s) && Enabled(s, Write(data))
    ensures var e := DoWrite(s, data).past[|s.past|];
            e == Exchange(s.written, s.line, s.txFifo) && (e.line == Coded(code, s.written) <==> s.txFifo == [])
  {
    assert s.written[..s.txW] == s.written;
    if s.txFifo == [] {
      assert s.line + s.txFifo == s.line;
    }
  }

  /** Such a run: two writes with only an interrupt between them. */
  lemma EarlyWrite(code: Code, b: Byte, c: Byte) returns (actions: seq<Action>, t: State)
    ensures Run(code, Initial(), actions, t) && Exchange([b], [], [code(b)]) in t.past
  {
    var s1 := DoWrite(Initial(), [b]);
    assert [b][..1] == [b];
    var s2 := DoInterrupt(code, s1);
    assert s1.written[0..1] == [b] && s2.txFifo == [code(b)];
    t := DoWrite(s2, [c]);
    actions := [Write([b]), Interrupt, Write([c])];
    assert actions[1..] == [Interrupt, Write([c])] && actions[1..][1..] == [Write([c])] && actions[1..][1..][1..] == [];
    assert Run(code, s2, [Write([c])], t);
    assert Run(code, s1, [Interrupt, Write([c])], t);
    assert t.past[1] == Exchange([b], [], [code(b)]);
  }

  /** A read returns more than was received exactly when it asks for more than a buffer and the
      buffer is not full from its first byte. */
  lemma LongReadOutruns(s: State, length: nat)
    requires s.rxW < |s.readBuf| <= BUFFER_SIZE
    ensures s.rxW + ReadCount(s, length) > |s.readBuf| <==> length > 1024 && !(s.rxW == 0 && |s.readBuf| == 1024)
    ensures ReadFits(s, length) <==> s.rxW + ReadCount(s, length) <= |s.readBuf|
  {
  }

  // ---------------------------------------------------------------------------------------
  // Nothing gets stuck
  // ---------------------------------------------------------------------------------------

  /** An interrupt that finds the FIFO empty hands over the next bytes, as long as there are any. */
  lemma InterruptAdvances(code: Code, s: State)
    requires Inv(code, s) && Enabled(s, Interrupt) && s.txFifo == [] && s.txW < |s.written|
    ensures DoInterrupt(code, s).txW == s.txW + Min(|s.written| - s.txW, 16)
  {
  }

  lemma Cycle(code: Code, s: State) returns (t: State)
    requires Inv(code, s) && s.reply == [] && |s.line| < |s.written|
    ensures Inv(code, t) && t.reply == [] && t.written == s.written && |t.line| == |s.line| + 1
    ensures Enabled(s, Interrupt) && Enabled(Next(code, s, Interrupt), Shift)
    ensures t == Next(code, Next(code, s, Interrupt), Shift)
  {
    assert |s.readBuf| + |s.rxFifo| == |s.line| - s.gone;
    var m := DoInterrupt(code, s);
    assert |s.line| + |s.txFifo| == s.txW;
    if s.txFifo == [] {
      InterruptAdvances(code, s);
    }
    InterruptKeepsInv(code, s);
    assert |m.line| + |m.txFifo| == m.txW;
    assert m.txFifo != [] && m.rxFifo == [];
    ShiftKeepsInv(code, m);
    t := Next(code, m, Shift);
  }

  /** From every state, interrupts and the line alone bring the rest of the write to the card. */
  lemma {:induction false} WriteCanFinish(code: Code, s: State) returns (actions: seq<Action>, t: State)
    requires Inv(code, s) && s.reply == []
    ensures Run(code, s, actions, t) && t.written == s.written && t.line == Coded(code, s.written) && t.txFifo == []
    ensures forall a :: a in actions ==> a == Interrupt || a == Shift
    decreases |s.written| - |s.line|
  {
    assert |s.line| + |s.txFifo| == s.txW;
    if |s.line| < |s.written| {
      var m := Cycle(code, s);
      var rest;
      rest, t := WriteCanFinish(code, m);
      Then(code, Next(code, s, Interrupt), Shift, rest, t);
      Then(code, s, Interrupt, [Shift] + rest, t);
      actions := [Interrupt] + ([Shift] + rest);
    } else {
      actions, t := [], s;
      assert s.written[..s.txW] == s.written && s.line + s.txFifo == s.line;
    }
  }
}
