/** The WiFi module driver (wifi.c): a cyclic receive buffer filled by the USART
    receive interrupt, and a transmit side that writes one byte at a time, each time
    raising `tx_in_progress` and waiting for the transmit-complete interrupt to clear
    it. Commands go out as text lines ended by CR LF. */
module Wifi {
  import opened Bytes
  import opened Ring

  const CR: Byte := 13
  const LF: Byte := 10

  /** The line `wifi_send_cmd(cmd, size)` writes: the first `size` bytes of `cmd` (none
      when `size <= 0`), then CR LF. */
  function CommandLine(cmd: seq<Byte>, size: int): (r: seq<Byte>)
    requires size <= |cmd|
    ensures |r| == (if size > 0 then size else 0) + 2
    ensures r[|r| - 2..] == [CR, LF]
  {
    (if size > 0 then cmd[..size] else []) + [CR, LF]
  }

  /** How the module reads a line: the bytes before the first CR LF and what follows
      it, or None when no CR LF is there yet. */
  function SplitLine(s: seq<Byte>): (r: Option<(seq<Byte>, seq<Byte>)>)
    ensures r.Some? ==> r.value.0 + [CR, LF] + r.value.1 == s
    decreases |s|
  {
    if |s| < 2 then None
    else if s[0] == CR && s[1] == LF then Some(([], s[2..]))
    else match SplitLine(s[1..])
      case None => None
      case Some(p) => Some(([s[0]] + p.0, p.1))
  }

  /** No CR LF pair occurs inside `t`. */
  predicate NoLineBreak(t: seq<Byte>)
  {
    forall k :: 0 <= k < |t| - 1 ==> !(t[k] == CR && t[k + 1] == LF)
  }

  /** Round trip: a command without an embedded CR LF is read back whole, and the
      bytes after its line are left for the next one. */
  lemma {:induction false} SplitCommandLine(t: seq<Byte>, rest: seq<Byte>)
    requires NoLineBreak(t) && !(t != [] && t[|t| - 1] == CR)
    ensures SplitLine(t + [CR, LF] + rest) == Some((t, rest))
    decreases |t|
  {
    var s := t + [CR, LF] + rest;
    if t == [] {
      assert s[2..] == rest;
    } else {
      assert s[1..] == t[1..] + [CR, LF] + rest;
      assert !(s[0] == CR && s[1] == LF) by {
        if |t| == 1 { assert t[0] != CR; } else { assert !(t[0] == CR && t[1] == LF); }
      }
      forall k | 0 <= k < |t[1..]| - 1
        ensures !(t[1..][k] == CR && t[1..][k + 1] == LF)
      {
        assert t[1..][k] == t[k + 1] && t[1..][k + 1] == t[k + 2];
      }
      SplitCommandLine(t[1..], rest);
      assert [t[0]] + t[1..] == t;
    }
  }

  /** The command `wifi_send_cmd` transmits is what the module reads back as one line,
      provided the transmitted bytes hold no line break of their own. */
  lemma CommandLineReadBack(cmd: seq<Byte>, size: int, rest: seq<Byte>)
    requires size <= |cmd|
    requires var t := if size > 0 then cmd[..size] else []; NoLineBreak(t) && !(t != [] && t[|t| - 1] == CR)
    ensures SplitLine(CommandLine(cmd, size) + rest) == Some((if size > 0 then cmd[..size] else [], rest))
  {
    SplitCommandLine(if size > 0 then cmd[..size] else [], rest);
  }

  class WifiPort {
    /** `incoming`, the cyclic buffer the receive interrupt fills. */
    const incoming: CyclicBuffer
    /** `tx_in_progress`: a byte has been handed to the USART and not yet sent. */
    var txInProgress: bool
    /** The bytes written to the USART data register, oldest first. */
    var uart: seq<Byte>

    ghost predicate Valid()
      reads this, incoming, incoming.buffer
    {
      incoming.Valid()
    }

    constructor ()
      ensures Valid() && fresh(incoming) && fresh(incoming.buffer)
      ensures incoming.contents == [] && !txInProgress && uart == []
    {
      incoming := new CyclicBuffer();
      txInProgress := false;
      uart := [];
    }

    /** The transmit-complete interrupt. */
    method TxComplete()
      modifies this`txInProgress
      ensures !txInProgress
    {
      txInProgress := false;
    }

    /** `_send_byte`: raises `tx_in_progress`, writes the data register, and returns once
        the transmit-complete interrupt has cleared the flag, so no byte is ever written
        while the previous one is still going out. */
    method SendByte(c: Byte)
      requires !txInProgress
      modifies this`txInProgress, this`uart
      ensures !txInProgress
      ensures uart == old(uart) + [c]
    {
      txInProgress := true;
      uart := uart + [c];
      // the USART shifts the byte out and raises the transmit-complete interrupt,
      // which ends the wait in `_wait_until_tx_complete`
      TxComplete();
    }

    /** `wifi_send_cmd`: the first `size` bytes of `cmd`, then CR LF. */
    method SendCmd(cmd: seq<Byte>, size: int)
      requires size <= |cmd| && !txInProgress
      modifies this`txInProgress, this`uart
      ensures !txInProgress
      ensures uart == old(uart) + CommandLine(cmd, size)
    {
      var b := 0;
      while b < size
        invariant 0 <= b <= (if size > 0 then size else 0)
        invariant !txInProgress
        invariant uart == old(uart) + cmd[..b]
      {
        assert cmd[..b + 1] == cmd[..b] + [cmd[b]];
        SendByte(cmd[b]);
        b := b + 1;
      }
      assert cmd[..b] == if size > 0 then cmd[..size] else [];
      SendByte(CR);
      SendByte(LF);
    }

    /** The receive interrupt, storing the byte read from the data register. */
    method RxInterrupt(b: Byte)
      requires Valid()
      modifies incoming`tail, incoming`contents, incoming.buffer
      ensures Valid()
      ensures incoming.contents == AfterPush(old(incoming.contents), b)
    {
      incoming.Push(b);
    }

    /** `wifi_receive_byte` (through `_receive_byte`): the oldest unread byte, which must
        be there (the source spins until the interrupt has stored one). */
    method ReceiveByte() returns (b: Byte)
      requires Valid() && incoming.contents != []
      modifies incoming`head, incoming`contents
      ensures Valid()
      ensures b == old(incoming.contents)[0]
      ensures incoming.contents == old(incoming.contents)[1..]
    {
      b := incoming.Pop();
    }
  }
}
