/** The static variables of the CEC driver and the functions that update them. */
module CecDriver {
  import opened Cec

  /** The first byte of a frame: source and destination. */
  type Header = h: nat | h < 256

  function Pack(src: nat, dst: nat): Header
    requires src < 16 && dst < 16
  {
    src * 16 + dst
  }

  lemma PackRoundTrip(src: nat, dst: nat)
    requires src < 16 && dst < 16
    ensures Pack(src, dst) / 16 == src && Pack(src, dst) % 16 == dst
  {
  }

  class Driver {
    var isFirstKiss: bool
    var index: nat
    var address: nat
    var isSending: bool
    var header: Header
    var size: nat
    var retries: nat
    ghost var s: State

    ghost predicate Valid()
      reads this
    {
      && s.kiss == isFirstKiss && s.index == index && s.address == address < 16
      && s.sending == isSending && s.retries == retries
      && s.frame.src < 16 && s.frame.dst < 16 && header == Pack(s.frame.src, s.frame.dst) && size == s.frame.len
    }

    constructor ()
      ensures Valid() && s == Boot()
    {
      isFirstKiss, index, address, isSending, size, retries := false, 0, 0x4, false, 0, RETRIES;
      header := Pack(0, 0);
      s := Boot();
    }

    /** The driver comes up: the first candidate is polled. */
    method WorkerInit()
      requires Valid() && s == Boot()
      modifies this
      ensures Valid() && s == Initial()
    {
      SendPingWithAutoIncrement();
    }

    /** Sends a frame whose destination is in `first`; not while another is being sent. */
    method SendMessageWithRetry(len: nat, first: Header, retry: nat) returns (ok: bool)
      requires Valid()
      modifies this
      ensures Valid() && s == Send(old(s), first % 16, len, retry) && ok == !old(isSending)
    {
      if isSending { return false; }
      size, isSending, retries := len, true, retry;
      header := Pack(address, first % 16);
      s := Send(s, first % 16, len, retry);
      return true;
    }

    method SendPingWithAutoIncrement()
      requires Valid() && index <= LAST
      modifies this
      ensures Valid() && s == Poll(old(s))
    {
      isFirstKiss := true;
      address := CHOICES[index];
      index := index + 1;
      s := s.(kiss := true, address := address, index := index, taken := s.taken + [address]);
      PackRoundTrip(address, address);
      var _ := SendMessageWithRetry(1, Pack(address, address), RETRIES);
    }

    method ParseRawMessage(first: Header, len: nat)
      requires Valid() && Inv(s)
      modifies this
      ensures Valid() && s == Parse(old(s), Frame(first / 16, first % 16, len))
    {
      if len == 1 && first / 16 == first % 16 == address && address != UNREGISTERED {
        PollKeepsInv(s);
        SendPingWithAutoIncrement();
      }
    }

    /** The interrupt for a frame that could not be sent. */
    method OnSendError(nack: bool, active: bool)
      requires Valid()
      modifies this
      ensures Valid() && s == SendError(old(s), nack, active)
    {
      isSending := false;
      s := s.(sending := false);
      PackRoundTrip(s.frame.src, s.frame.dst);
      if isFirstKiss && nack {
        isFirstKiss := false;
        s := s.(kiss := false);
        if active {
          PackRoundTrip(address, BROADCAST);
          var _ := SendMessageWithRetry(5, Pack(address, BROADCAST), RETRIES);
        }
      } else if retries > 0 {
        var _ := SendMessageWithRetry(size, header, retries - 1);
      }
    }

    /** The interrupt for a frame that was sent and acknowledged. */
    method OnSent()
      requires Valid() && Inv(s)
      modifies this
      ensures Valid() && s == Sent(old(s))
    {
      isSending := false;
      s := s.(sending := false);
      PackRoundTrip(s.frame.src, s.frame.dst);
      ParseRawMessage(header, size);
    }
  }
}
