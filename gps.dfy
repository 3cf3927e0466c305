/** The GPS driver's receive side (gps.c): the USART receive interrupt fills a cyclic
    buffer, and `gps_receive` hands every buffered byte to the NMEA parser. The parser
    itself is not part of this model: the driver's view of it is the sequence of bytes
    it has been handed, in order. */
module Gps {
  import opened Bytes
  import opened Ring

  class GpsReceiver {
    /** `incoming`, the cyclic buffer the interrupt fills. */
    const incoming: CyclicBuffer
    /** The bytes passed to `nmea_parse` so far, oldest first. */
    var parsed: seq<Byte>

    ghost predicate Valid()
      reads this, incoming, incoming.buffer
    {
      incoming.Valid()
    }

    /** The statically initialised driver: `{0, 0, {0}}`, nothing parsed yet. */
    constructor ()
      ensures Valid() && fresh(incoming) && fresh(incoming.buffer)
      ensures incoming.contents == [] && parsed == []
    {
      incoming := new CyclicBuffer();
      parsed := [];
    }

    /** The receive interrupt, storing the byte read from the data register. */
    method RxInterrupt(b: Byte)
      requires Valid()
      modifies incoming`tail, incoming`contents, incoming.buffer
      ensures Valid()
      ensures incoming.contents == AfterPush(old(incoming.contents), b)
    {
      incoming.Push(b);
    }

    /** `_receive_byte`: the oldest unread byte, which must be there (the source spins
        until the interrupt has stored one). */
    method ReceiveByte() returns (b: Byte)
      requires Valid() && incoming.contents != []
      modifies incoming`head, incoming`contents
      ensures Valid()
      ensures b == old(incoming.contents)[0]
      ensures incoming.contents == old(incoming.contents)[1..]
    {
      b := incoming.Pop();
    }

    /** `gps_receive`: drains the buffer into the parser, oldest byte first, and returns
        with `head == tail`. */
    method Receive()
      requires Valid()
      modifies this`parsed, incoming`head, incoming`contents
      ensures Valid()
      ensures parsed == old(parsed) + old(incoming.contents)
      ensures incoming.contents == [] && incoming.head == incoming.tail
    {
      while incoming.DataAvailable()
        invariant Valid()
        invariant parsed + incoming.contents == old(parsed) + old(incoming.contents)
        decreases |incoming.contents|
      {
        ghost var q := incoming.contents;
        var b := ReceiveByte();
        assert q == [b] + incoming.contents;
        parsed := parsed + [b];
      }
    }

    /** Bytes that arrive while fewer than 256 are unread all reach the parser, in
        arrival order, at the next `gps_receive`. */
    method ArriveThenReceive(bs: seq<Byte>)
      requires Valid() && |incoming.contents| + |bs| <= 255
      modifies this`parsed, incoming`head, incoming`tail, incoming`contents, incoming.buffer
      ensures Valid() && incoming.contents == []
      ensures parsed == old(parsed) + old(incoming.contents) + bs
    {
      ghost var q := incoming.contents;
      var i := 0;
      while i < |bs|
        invariant 0 <= i <= |bs|
        invariant Valid() && parsed == old(parsed)
        invariant incoming.contents == AfterPushes(q, bs[..i])
      {
        assert bs[..i + 1][..i] == bs[..i];
        RxInterrupt(bs[i]);
        i := i + 1;
      }
      assert bs[..i] == bs;
      AfterPushesBelowCapacity(q, bs);
      Receive();
    }
  }
}
