/** One smart card slot of the driver: its buffers and pointers, updated in place by the interrupt
    handler and by the read and write calls. */
module SciPort {
  import opened Atr
  import opened SciEngine

  /** A byte of an inverse card is complemented and reversed, in either direction. */
  function Turned(c: Convention, b: Byte): Byte { if c.Invert? then Inverse(b) else b }

  /** The handler turns bytes by its table, which comes to the same. */
  lemma HeardIsTurned(c: Convention, b: Byte)
    ensures Atr.Heard(c, b) == Turned(c, b)
  {
    if c == Invert { HeardInverted(b); }
  }

  function Coding(c: Convention): Code { b => Turned(c, b) }

  /** Turned twice, a byte is itself, so what the card hears is what was written. */
  lemma CodingIsInvolution(c: Convention)
    ensures Involution(Coding(c))
  {
    forall b ensures Coding(c)(Coding(c)(b)) == b {
      InverseTwice(b);
    }
  }

  type Ear = (Convention, Byte) -> Byte

  function Hearing(): Ear { (c, b) => Turned(c, b) }

  /** The bytes of the receive FIFO as the handler stores them, and the convention it then knows:
      until the answer to reset is complete it learns the convention from the bytes. */
  function Hears(ear: Ear, c: Convention, ready: bool, raw: seq<Byte>): (r: seq<Byte>)
    ensures |r| == |raw|
    decreases |raw|
  {
    if raw == [] then []
    else
      var d := if ready then c else Learn(c, raw[0]);
      [ear(d, raw[0])] + Hears(ear, d, ready, raw[1..])
  }

  function Learns(c: Convention, ready: bool, raw: seq<Byte>): Convention
    decreases |raw|
  {
    if raw == [] then c else Learns(if ready then c else Learn(c, raw[0]), ready, raw[1..])
  }

  lemma {:induction false} HearsOnward(ear: Ear, c: Convention, ready: bool, raw: seq<Byte>, b: Byte)
    ensures var c' := Learns(c, ready, raw); var d := if ready then c' else Learn(c', b);
            Learns(c, ready, raw + [b]) == d && Hears(ear, c, ready, raw + [b]) == Hears(ear, c, ready, raw) + [ear(d, b)]
    decreases |raw|
  {
    if raw == [] {
      assert raw + [b] == [b] && [b][1..] == [];
    } else {
      assert (raw + [b])[1..] == raw[1..] + [b];
      HearsOnward(ear, if ready then c else Learn(c, raw[0]), ready, raw[1..], b);
    }
  }

  /** Once the convention is known, or the answer complete, it does not change any more. */
  lemma {:induction false} KnownStays(ear: Ear, code: Code, c: Convention, ready: bool, raw: seq<Byte>)
    requires ready || c != NotDefined
    requires forall b :: ear(c, b) == code(b)
    ensures Learns(c, ready, raw) == c && Hears(ear, c, ready, raw) == Coded(code, raw)
    decreases |raw|
  {
    if raw != [] {
      KnownStays(ear, code, c, ready, raw[1..]);
      assert Coded(code, raw) == [code(raw[0])] + Coded(code, raw[1..]);
    }
  }

  lemma KnownHears(c: Convention, ready: bool, raw: seq<Byte>)
    requires ready || c != NotDefined
    ensures Learns(c, ready, raw) == c && Hears(Hearing(), c, ready, raw) == Coded(Coding(c), raw)
  {
    KnownStays(Hearing(), Coding(c), c, ready, raw);
  }

  lemma {:induction false} HearsAnswer(c: Convention, raw: seq<Byte>)
    ensures Hears(Hearing(), c, false, raw) == Atr.Receive(c, raw)
    decreases |raw|
  {
    if raw != [] {
      HeardIsTurned(Learn(c, raw[0]), raw[0]);
      HearsAnswer(Learn(c, raw[0]), raw[1..]);
    }
  }

  /** An answer to reset, received from the start and parsed, is the answer parsed as it came. */
  lemma AnswerIsHeard(raw: seq<Byte>)
    requires raw != [] && (raw[0] == 0x03 || raw[0] == 0x3B)
    ensures Parse(Hears(Hearing(), NotDefined, false, raw)) == Parse(raw)
  {
    HearsAnswer(NotDefined, raw);
    HandlerAndParserAgree(raw);
  }

  lemma Inner(a: seq<Byte>, r: nat, from: nat, to: nat)
    requires from <= to <= r <= |a|
    ensures a[from..to] == a[..r][from..to]
  {
  }

  lemma SliceWithin(a: seq<Byte>, r: nat, w: nat, own: nat, end: nat)
    requires w + own <= r <= |a| && w + own <= end <= |a|
    ensures a[w..end][..own] == a[..r][w..w + own]
  {
  }

  datatype Answer = WouldBlock | Count(n: nat)

  class Port {
    var convention: Convention
    var atrReady: bool
    var mode: Mode
    const writeBuf: array<Byte>
    var txR: nat
    var txW: nat
    const readBuf: array<Byte>
    var rxR: nat
    var rxW: nat
    var txFifo: seq<Byte>
    var rxFifo: seq<Byte>
    ghost var s: State

    ghost predicate Valid()
      reads this, writeBuf, readBuf
    {
      && writeBuf.Length == readBuf.Length == BUFFER_SIZE && writeBuf != readBuf
      && txW <= txR <= BUFFER_SIZE && rxR <= BUFFER_SIZE
      && s.mode == mode && s.written == writeBuf[..txR] && s.txW == txW
      && s.readBuf == readBuf[..rxR] && s.rxW == rxW
      && s.txFifo == txFifo && s.rxFifo == rxFifo
    }

    predicate Known()
      reads this
    {
      atrReady || convention != NotDefined
    }

    constructor ()
      ensures Valid() && s == Initial() && convention == NotDefined && !atrReady && fresh(writeBuf) && fresh(readBuf)
    {
      convention, atrReady := NotDefined, false;
      mode, txR, txW, rxR, rxW, txFifo, rxFifo := RxFull, 0, 0, 0, 0, [], [];
      writeBuf := new Byte[BUFFER_SIZE];
      readBuf := new Byte[BUFFER_SIZE];
      s := Initial();
    }

    /** One byte on its way into the read buffer. */
    method Decode(data: Byte, ghost ear: Ear) returns (b: Byte)
      requires ear == Hearing()
      modifies this`convention
      ensures convention == (if atrReady then old(convention) else Learn(old(convention), data))
      ensures b == ear(convention, data)
    {
      if !atrReady && convention == NotDefined {
        if data == 0x03 { convention := Invert; } else if data == 0x3B { convention := Uninvert; }
      }
      HeardIsTurned(convention, data);
      b := if convention == Invert then InversionAt(data) else data;
    }

    /** And one on its way into the FIFO. */
    method Encode(b: Byte, ghost code: Code) returns (data: Byte)
      requires code == Coding(convention)
      ensures data == code(b)
    {
      HeardIsTurned(convention, b);
      data := if convention == Invert then InversionAt(b) else b;
    }

    /** Bytes are taken from the FIFO until it is empty. */
    method Drain(ghost ear: Ear)
      requires readBuf.Length == BUFFER_SIZE && rxR + |rxFifo| <= BUFFER_SIZE && ear == Hearing()
      modifies this`convention, this`rxR, this`rxFifo, readBuf
      ensures convention == Learns(old(convention), atrReady, old(rxFifo)) && rxFifo == []
      ensures rxR == old(rxR) + |old(rxFifo)| <= BUFFER_SIZE
      ensures readBuf[..rxR] == old(readBuf[..rxR]) + Hears(ear, old(convention), atrReady, old(rxFifo))
    {
      ghost var c, start, all := convention, readBuf[..rxR], rxFifo;
      ghost var k, heard := 0, [];
      while rxFifo != []
        invariant k <= |all| && rxFifo == all[k..] && rxR == |start| + k && rxR + |rxFifo| <= BUFFER_SIZE
        invariant convention == Learns(c, atrReady, all[..k]) && heard == Hears(ear, c, atrReady, all[..k])
        invariant readBuf[..rxR] == start + heard
        decreases |rxFifo|
      {
        assert rxFifo[0] == all[k] && all[..k + 1] == all[..k] + [all[k]];
        HearsOnward(ear, c, atrReady, all[..k], all[k]);
        var data := rxFifo[0];
        rxFifo := rxFifo[1..];
        var b := Decode(data, ear);
        readBuf[rxR] := b;
        rxR, k, heard := rxR + 1, k + 1, heard + [b];
      }
      assert all[..k] == all;
    }

    /** The receiving half: the convention is learned from the bytes while it is not known. */
    method Receive()
      requires Valid() && rxR + |rxFifo| <= BUFFER_SIZE
      modifies this`convention, this`rxR, this`rxFifo, this`s, readBuf
      ensures Valid() && convention == Learns(old(convention), atrReady, old(rxFifo))
      ensures s == old(s).(readBuf := old(s).readBuf + Hears(Hearing(), old(convention), atrReady, old(rxFifo)), rxFifo := [])
      ensures old(Known()) ==> convention == old(convention) && s == DoReceive(Coding(convention), old(s))
    {
      if Known() { KnownHears(convention, atrReady, rxFifo); }
      Drain(Hearing());
      s := s.(readBuf := readBuf[..rxR], rxFifo := []);
    }

    /** `size` bytes from the write buffer into the FIFO. */
    method Load(size: nat, ghost code: Code)
      requires txW + size <= txR <= writeBuf.Length && code == Coding(convention)
      modifies this`txW, this`rxW, this`txFifo
      ensures txW == old(txW) + size && rxW == old(rxW) + size
      ensures txFifo == old(txFifo) + Coded(code, writeBuf[..][old(txW)..old(txW) + size])
    {
      ghost var start, from, mem := txFifo, txW, writeBuf[..];
      for i := 0 to size
        invariant txW == from + i && rxW == old(rxW) + i && from + size <= txR <= writeBuf.Length
        invariant txFifo == start + Coded(code, mem[from..from + i])
      {
        assert mem[from..from + i + 1] == mem[from..from + i] + [mem[from + i]];
        CodedJoin(code, mem[from..from + i], [mem[from + i]]);
        var data := Encode(writeBuf[txW], code);
        txFifo := txFifo + [data];
        txW, rxW := txW + 1, rxW + 1;
      }
    }

    method Transmit(size: nat)
      requires Valid() && txW + size <= txR
      modifies this`txW, this`rxW, this`txFifo, this`mode, this`s
      ensures Valid() && s == Hand(Coding(convention), old(s), size)
    {
      ghost var code, from := Coding(convention), txW;
      Load(size, code);
      if txR == txW { mode := RxFull; }
      Inner(writeBuf[..], txR, from, from + size);
      s := Hand(code, s, size);
    }

    /** The transmitting half. */
    method Send()
      requires Valid()
      modifies this`mode, this`txW, this`rxW, this`txFifo, this`s
      ensures Valid() && s == DoTransmit(Coding(convention), old(s))
    {
      var size;
      if txFifo == [] && mode != RxFull {
        if txR - txW > FIFO_SIZE { size := FIFO_SIZE; } else { size := txR - txW; }
        Transmit(size);
      } else if |txFifo| <= FIFO_SIZE / 2 && mode == RxFullTxHalfEmpty {
        if txR - txW > FIFO_SIZE / 2 { size := FIFO_SIZE / 2; } else { size := txR - txW; }
        Transmit(size);
      }
    }

    /** The interrupt handler. */
    method Handler()
      requires Valid() && Enabled(s, Interrupt)
      modifies this`convention, this`mode, this`txW, this`rxW, this`txFifo, this`rxR, this`rxFifo, this`s, readBuf
      ensures Valid() && convention == Learns(old(convention), atrReady, old(rxFifo))
      ensures readBuf[..rxR] == old(readBuf[..rxR]) + Hears(Hearing(), old(convention), atrReady, old(rxFifo))
      ensures old(Known()) ==> s == Next(Coding(convention), old(s), Interrupt)
    {
      Receive();
      Send();
    }

    /** The write call, not waiting. */
    method Write(data: seq<Byte>) returns (r: Answer)
      requires Valid() && s.pc == Idle
      modifies this`mode, this`txR, this`txW, this`rxR, this`rxW, this`txFifo, this`rxFifo, this`s, writeBuf
      ensures Valid() && (r.WouldBlock? <==> old(txW != txR))
      ensures r.WouldBlock? ==> s == old(s)
      ensures r.Count? ==> s == Next(Coding(convention), old(s), Action.Write(data)) && r.n == |s.written|
    {
      if txW != txR { return WouldBlock; }
      var count := if |data| <= BUFFER_SIZE then |data| else BUFFER_SIZE;
      s := DoWrite(s, data);
      forall k | 0 <= k < BUFFER_SIZE {
        writeBuf[k] := if k < count then data[k] else 0;
      }
      txFifo, rxFifo := [], [];
      txR, txW, rxR, rxW := count, 0, 0, 0;
      mode := if count <= FIFO_SIZE then RxFullTxEmpty else RxFullTxHalfEmpty;
      assert writeBuf[..txR] == data[..count];
      r := Count(count);
    }

    /** The read call, not waiting, up to the copy: it says how many bytes it returns, and gives
        those that lie in the read buffer. */
    method BeginRead(length: nat) returns (r: Answer, buffer: seq<Byte>)
      requires Valid() && s.pc == Idle
      modifies this`rxW, this`s
      ensures Valid() && (r.WouldBlock? <==> old(rxW >= rxR || mode == RxFullTxEmpty))
      ensures r.WouldBlock? ==> s == old(s)
      ensures r.Count? ==> s == Next(Coding(convention), old(s), Action.Read(length)) && r.n == ReadCount(old(s), length)
      ensures r.Count? ==> var own := Min(r.n, |old(s).readBuf| - old(s).rxW);
              own <= |buffer| <= r.n && s.got == old(s).got + buffer[..own]
    {
      if rxW >= rxR || mode == RxFullTxEmpty { return WouldBlock, []; }
      var n := rxR - rxW;
      if n > length { n := length; }
      if length > BUFFER_SIZE { n := BUFFER_SIZE; }
      var end := if rxW + n <= BUFFER_SIZE then rxW + n else BUFFER_SIZE;
      buffer := readBuf[rxW..end];
      ghost var own := Min(n, rxR - rxW);
      SliceWithin(readBuf[..], rxR, rxW, own, end);
      assert buffer == readBuf[..][rxW..end] && s.readBuf == readBuf[..][..rxR];
      s := DoCopy(s, length);
      rxW := rxW + n;
      r := Count(n);
    }

    /** The test at the end of a read. */
    method TestEmpty() returns (empty: bool)
      requires Valid() && s.pc == Copied
      modifies this`s
      ensures Valid() && s == Next(Coding(convention), old(s), Go) && empty == (s.pc == FoundEmpty)
    {
      empty := rxW == rxR;
      s := DoGo(s);
    }

    /** And the two assignments that follow if the buffer was found empty. */
    method ResetStart()
      requires Valid() && s.pc == FoundEmpty
      modifies this`rxW, this`s
      ensures Valid() && s == Next(Coding(convention), old(s), Go)
    {
      rxW := 0;
      s := DoGo(s);
    }

    method ResetEnd()
      requires Valid() && s.pc == HalfReset && s.mark <= |s.readBuf|
      modifies this`rxR, this`s
      ensures Valid() && s == Next(Coding(convention), old(s), Go)
    {
      rxR := 0;
      s := DoGo(s);
    }
  }
}
