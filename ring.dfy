/** The cyclic receive buffer of the serial drivers (xbee.c:352-379, gps.c:13-35,
    wifi.c:32-54): the receive interrupt stores each incoming byte at `tail` and
    advances it, the main loop reads at `head` and advances it; both indices are
    8-bit and wrap at 256. Nothing tells "full" from "empty": a push onto 255
    unread bytes brings `tail` back onto `head`, and the reader then sees nothing. */
module Ring {
  import opened Bytes

  /** Slots of the buffer: one per value of an 8-bit index (the source declares one
      fewer, see StoreAsWritten). */
  const SLOTS := 256

  /** What the reader sees after the interrupt stores `b` behind the unread bytes `q`:
      the last `(|q| + 1) mod 256` of the bytes written so far, so the new byte is
      visible unless the count wraps to 0. */
  function AfterPush(q: seq<Byte>, b: Byte): (r: seq<Byte>)
    requires |q| < SLOTS
    ensures |r| == (|q| + 1) % 256
  {
    if |q| < 255 then q + [b] else []
  }

  /** The bytes the reader sees after a push are the newest of the old unread bytes and
      the pushed one: a suffix of `q + [b]`. */
  lemma PushKeepsNewest(q: seq<Byte>, b: Byte)
    requires |q| < SLOTS
    ensures AfterPush(q, b) == (q + [b])[|q| + 1 - |AfterPush(q, b)|..]
  {
  }

  class CyclicBuffer {
    var head: Byte
    var tail: Byte
    const buffer: array<Byte>
    /** The unread bytes, oldest first. */
    ghost var contents: seq<Byte>

    ghost predicate Valid()
      reads this, buffer
    {
      && buffer.Length == SLOTS
      && |contents| == Count()
      && forall k :: 0 <= k < |contents| ==> contents[k] == buffer[(head + k) % 256]
    }

    /** Number of unread bytes: `tail - head` in 8-bit arithmetic. */
    function Count(): (n: nat)
      reads this
      ensures n < SLOTS
      ensures n == 0 <==> head == tail
    {
      (tail - head) % 256
    }

    /** The zero-initialised buffer `{0, 0, {0}}`. */
    constructor ()
      ensures Valid() && fresh(buffer)
      ensures head == 0 && tail == 0 && contents == []
    {
      head, tail := 0, 0;
      buffer := new Byte[SLOTS](_ => 0);
      contents := [];
    }

    /** `_data_available`: some byte is unread exactly when the indices differ. */
    function DataAvailable(): (r: bool)
      reads this, buffer
      requires Valid()
      ensures r <==> head != tail
      ensures r <==> contents != []
    {
      head != tail
    }

    /** `_peek_byte`: the oldest unread byte, left in place. */
    function Peek(): (b: Byte)
      reads this, buffer
      requires Valid() && head != tail
      ensures b == contents[0]
    {
      buffer[head]
    }

    /** The receive interrupt, `buffer[tail++] = UDR`. */
    method Push(b: Byte)
      requires Valid()
      modifies this`tail, this`contents, buffer
      ensures Valid()
      ensures tail == (old(tail) + 1) % 256
      ensures buffer[..] == old(buffer[..])[old(tail) := b]
      ensures contents == AfterPush(old(contents), b)
    {
      ghost var q := contents;
      ghost var t := tail;
      assert t == (head + |q|) % 256;
      buffer[tail] := b;
      tail := (tail + 1) % 256;
      contents := AfterPush(q, b);
      if |q| < 255 {
        assert tail == (head + |q| + 1) % 256;
        forall k | 0 <= k < |contents|
          ensures contents[k] == buffer[(head + k) % 256]
        {
          if k < |q| {
            assert (head + k) % 256 != t;
          }
        }
      } else {
        assert tail == head;
      }
    }

    /** `_receive_byte` (without the spin: the caller must know a byte is there):
        returns the oldest unread byte and advances `head`. */
    method Pop() returns (b: Byte)
      requires Valid() && contents != []
      modifies this`head, this`contents
      ensures Valid()
      ensures head == (old(head) + 1) % 256
      ensures b == old(contents)[0]
      ensures contents == old(contents)[1..]
    {
      ghost var q, h := contents, head;
      b := buffer[head];
      head := (head + 1) % 256;
      contents := q[1..];
      CountAfterRead(h, tail, |q|);
      ViewAfterRead(q, buffer, h);
    }
  }

  /** Advancing `head` past one of `n > 0` unread bytes leaves `n - 1`. */
  lemma CountAfterRead(h: Byte, t: Byte, n: nat)
    requires n == (t - h) % 256 && n > 0
    ensures (t - (h + 1) % 256) % 256 == n - 1
  {
    if h == 255 {
      assert (t - (h + 1) % 256) % 256 == t;
    } else {
      assert (h + 1) % 256 == h + 1;
    }
  }

  /** Advancing `head` past the oldest unread byte leaves the others where they were. */
  lemma ViewAfterRead(q: seq<Byte>, buffer: array<Byte>, h: Byte)
    requires buffer.Length == SLOTS && q != []
    requires forall k :: 0 <= k < |q| ==> q[k] == buffer[(h + k) % 256]
    ensures forall k :: 0 <= k < |q[1..]| ==> q[1..][k] == buffer[((h + 1) % 256 + k) % 256]
  {
    forall k | 0 <= k < |q[1..]|
      ensures q[1..][k] == buffer[((h + 1) % 256 + k) % 256]
    {
      assert q[1..][k] == q[k + 1];
      ModAddMod(h as int + 1, k);
    }
  }

  // ---------------------------------------------------------------------------
  // The buffer as a queue: what a run of interrupts and reads delivers

  datatype Op = Put(b: Byte) | Take

  /** The bytes the interrupt delivers in `ops`, in order. */
  function Delivered(ops: seq<Op>): (r: seq<Byte>)
    ensures |r| <= |ops|
  {
    if ops == [] then []
    else (match ops[0] case Put(b) => [b] case Take => []) + Delivered(ops[1..])
  }

  /** Runs `ops` on the unread bytes `q`: the bytes the reads return and those left
      unread, or None when a read finds nothing (the source would block there). */
  function Replay(q: seq<Byte>, ops: seq<Op>): Option<(seq<Byte>, seq<Byte>)>
    requires |q| < SLOTS
    decreases |ops|
  {
    if ops == [] then Some(([], q))
    else match ops[0]
      case Put(b) => Replay(AfterPush(q, b), ops[1..])
      case Take =>
        if q == [] then None
        else match Replay(q[1..], ops[1..])
          case None => None
          case Some(r) => Some(([q[0]] + r.0, r.1))
  }

  /** No delivery in `ops` finds 255 bytes still unread. */
  ghost predicate NeverFull(q: seq<Byte>, ops: seq<Op>)
    requires |q| < SLOTS
    decreases |ops|
  {
    ops == [] ||
    match ops[0]
      case Put(b) => |q| < 255 && NeverFull(q + [b], ops[1..])
      case Take => q == [] || NeverFull(q[1..], ops[1..])
  }

  /** FIFO: as long as the buffer never fills, the bytes read followed by the bytes
      still unread are exactly the bytes that were unread plus those delivered, in
      delivery order. */
  lemma {:induction false} ReplayIsFifo(q: seq<Byte>, ops: seq<Op>)
    requires |q| < SLOTS && NeverFull(q, ops) && Replay(q, ops).Some?
    ensures Replay(q, ops).value.0 + Replay(q, ops).value.1 == q + Delivered(ops)
    decreases |ops|
  {
    if ops != [] {
      match ops[0]
      case Put(b) =>
        ReplayIsFifo(q + [b], ops[1..]);
      case Take =>
        ReplayIsFifo(q[1..], ops[1..]);
        var r := Replay(q[1..], ops[1..]).value;
        assert Replay(q, ops).value == ([q[0]] + r.0, r.1);
        assert Delivered(ops) == Delivered(ops[1..]);
        calc {
          [q[0]] + r.0 + r.1;
          [q[0]] + (r.0 + r.1);
          [q[0]] + (q[1..] + Delivered(ops));
          q + Delivered(ops);
        }
    }
  }

  /** What the reader sees after the interrupt delivers `bs` one by one onto `q`. */
  function AfterPushes(q: seq<Byte>, bs: seq<Byte>): (r: seq<Byte>)
    requires |q| < SLOTS
    ensures |r| < SLOTS
    decreases |bs|
  {
    if bs == [] then q else AfterPush(AfterPushes(q, bs[..|bs| - 1]), bs[|bs| - 1])
  }

  /** Below capacity nothing is lost: as long as at most 255 bytes are unread, each
      delivery is appended behind the unread bytes. */
  lemma {:induction false} AfterPushesBelowCapacity(q: seq<Byte>, bs: seq<Byte>)
    requires |q| + |bs| <= 255
    ensures AfterPushes(q, bs) == q + bs
    decreases |bs|
  {
    if bs != [] {
      var n := |bs| - 1;
      AfterPushesBelowCapacity(q, bs[..n]);
      assert q + bs[..n] + [bs[n]] == q + bs;
    }
  }

  /** Overflow goes undetected: delivering bytes into the empty buffer without reading
      leaves only the bytes since the last multiple of 256 visible, so the 256th
      delivery makes all unread bytes vanish. */
  lemma {:induction false} UnreadAfterDeliveries(bs: seq<Byte>)
    ensures AfterPushes([], bs) == bs[|bs| - |bs| % 256..]
    decreases |bs|
  {
    if bs != [] {
      var n := |bs| - 1;
      UnreadAfterDeliveries(bs[..n]);
      var m := n - n % 256;
      assert AfterPushes([], bs[..n]) == bs[m..n];
      if n % 256 < 255 {
        assert (n + 1) % 256 == n % 256 + 1;
        assert bs[m..n] + [bs[n]] == bs[m..];
      } else {
        assert (n + 1) % 256 == 0;
      }
    }
  }

  // ---------------------------------------------------------------------------
  // The buffer as written: `uint8_t buffer[0xFF]` indexed by an 8-bit `tail`

  const SLOTS_AS_WRITTEN := 0xFF

  /** The receive interrupt as written, `buffer[tail++] = UDR` into 0xFF slots: the new
      slots and tail, or None when `tail` indexes past the array (undefined in C). */
  function StoreAsWritten(slots: seq<Byte>, tail: Byte, b: Byte): (r: Option<(seq<Byte>, Byte)>)
    requires |slots| == SLOTS_AS_WRITTEN
    ensures r.Some? <==> tail < SLOTS_AS_WRITTEN
    ensures r.Some? ==> |r.value.0| == SLOTS_AS_WRITTEN && r.value.0[tail] == b
  {
    if tail < |slots| then Some((slots[tail := b], (tail + 1) % 256)) else None
  }

  /** Deliveries of `bs`, one interrupt each, as written. */
  function StoresAsWritten(slots: seq<Byte>, tail: Byte, bs: seq<Byte>): Option<(seq<Byte>, Byte)>
    requires |slots| == SLOTS_AS_WRITTEN
    decreases |bs|
  {
    if bs == [] then Some((slots, tail))
    else match StoresAsWritten(slots, tail, bs[..|bs| - 1])
      case None => None
      case Some(r) =>
        if |r.0| == SLOTS_AS_WRITTEN then StoreAsWritten(r.0, r.1, bs[|bs| - 1]) else None
  }

  /** From the initial `tail == 0`, the first 255 deliveries stay inside the array, and the
      256th writes `buffer[255]`, one past its end, whatever is read in between. */
  lemma {:induction false} StoresAsWrittenOverrun(slots: seq<Byte>, bs: seq<Byte>)
    requires |slots| == SLOTS_AS_WRITTEN
    ensures StoresAsWritten(slots, 0, bs).Some? <==> |bs| <= 255
    ensures StoresAsWritten(slots, 0, bs).Some? ==>
              |StoresAsWritten(slots, 0, bs).value.0| == SLOTS_AS_WRITTEN &&
              StoresAsWritten(slots, 0, bs).value.1 == |bs|
    decreases |bs|
  {
    if bs != [] {
      StoresAsWrittenOverrun(slots, bs[..|bs| - 1]);
    }
  }
}
