/** What `xbee_receive` (xbee.c:115-148) does with the bytes waiting in the receive
    buffer, as functions of those bytes: resynchronise on the start delimiter, read
    the 16-bit length, peek the frame type and hand the frame to its decoder; each
    decoder reads a fixed number of bytes and acts only when the checksum holds. */
module Incoming {
  import opened Bytes
  import opened Frames

  /** The bytes left after the resynchronising loop at xbee.c:120-122 has dropped
      everything before the next start delimiter. */
  function SkipToStart(s: seq<Byte>): (t: seq<Byte>)
    ensures |t| <= |s| && t == s[|s| - |t|..]
    ensures t == [] || t[0] == START
    ensures forall k :: 0 <= k < |s| - |t| ==> s[k] != START
  {
    if s == [] || s[0] == START then s else SkipToStart(s[1..])
  }

  lemma {:induction false} SkipPastGarbage(g: seq<Byte>, s: seq<Byte>)
    requires START !in g
    ensures SkipToStart(g + s) == SkipToStart(s)
    decreases |g|
  {
    if g != [] {
      assert (g + s)[1..] == g[1..] + s;
      SkipPastGarbage(g[1..], s);
    } else {
      assert g + s == s;
    }
  }

  /** Bytes `_receive_rx(size)` reads: frame type, 8 address bytes, 2 network-address
      bytes, options, `size - 12` payload bytes (none when size <= 12) and the checksum. */
  function RxReadCount(size: nat): nat
  {
    RX_OVERHEAD + 1 + (if size > RX_OVERHEAD then size - RX_OVERHEAD else 0)
  }

  /** Bytes `_receive_at(size)` reads: frame type, id, two command letters, status, one
      data byte when `size - 5 > 0`, and the checksum. */
  function AtReadCount(size: nat): nat
  {
    6 + (if size > 5 then 1 else 0)
  }

  /** Bytes `_receive_modem` reads: frame type, status, checksum. */
  const MODEM_READ_COUNT := 3

  /** An AT response as handed to the registered handler: frame id, status, data byte. */
  datatype AtReply = AtReply(id: Byte, status: Byte, data: Byte)

  /** What a frame makes happen: the RX handler is called, or an AT handler lookup. */
  datatype Event = Delivered(frame: RxFrame) | Replied(reply: AtReply)

  /** The frame `_receive_rx(size)` builds from the bytes `s` it read, when the checksum holds. */
  function DecodeRx(size: nat, s: seq<Byte>): (r: Option<RxFrame>)
    requires |s| == RxReadCount(size)
    ensures r.Some? <==> Sum(s) % 256 == 0xFF
  {
    Pow256Values();
    if Sum(s) % 256 == 0xFF
    then Some(RxFrame(size, BeValue(s[1..9]), BeValue(s[9..11]), s[11], s[12..|s| - 1]))
    else None
  }

  /** The reply `_receive_at(size)` passes on from the bytes `s` it read, when the checksum holds. */
  function DecodeAt(size: nat, s: seq<Byte>): (r: Option<AtReply>)
    requires |s| == AtReadCount(size)
    ensures r.Some? <==> Sum(s) % 256 == 0xFF
  {
    if Sum(s) % 256 == 0xFF
    then Some(AtReply(s[1], s[4], if size > 5 then s[5] else 0))
    else None
  }

  function RxEvents(r: Option<RxFrame>): seq<Event>
  {
    if r.Some? then [Delivered(r.value)] else []
  }

  function AtEvents(r: Option<AtReply>): seq<Event>
  {
    if r.Some? then [Replied(r.value)] else []
  }

  /** One pass of the outer loop of `xbee_receive` over the unread bytes: Stall when a
      read finds nothing (the source would block), Drained when only bytes before any
      start delimiter were left, else the events and the bytes still unread. */
  datatype StepResult = Stall | Drained | Advance(events: seq<Event>, rest: seq<Byte>)

  /** `_receive_rx(size)` on the bytes `body` that follow the length field. */
  function RxStep(size: nat, body: seq<Byte>): (r: StepResult)
    ensures r.Advance? ==> |r.rest| < |body| && r.rest == body[|body| - |r.rest|..]
  {
    var n := RxReadCount(size);
    if |body| < n then Stall else Advance(RxEvents(DecodeRx(size, body[..n])), body[n..])
  }

  /** `_receive_at(size)` on the bytes `body` that follow the length field. */
  function AtStep(size: nat, body: seq<Byte>): (r: StepResult)
    ensures r.Advance? ==> |r.rest| < |body| && r.rest == body[|body| - |r.rest|..]
  {
    var n := AtReadCount(size);
    if |body| < n then Stall else Advance(AtEvents(DecodeAt(size, body[..n])), body[n..])
  }

  /** `_receive_modem` on the bytes `body` that follow the length field. */
  function ModemStep(body: seq<Byte>): (r: StepResult)
    ensures r.Advance? ==> |r.rest| < |body| && r.rest == body[|body| - |r.rest|..]
  {
    if |body| < MODEM_READ_COUNT then Stall else Advance([], body[MODEM_READ_COUNT..])
  }

  /** The switch on the peeked frame type; an unknown type, or the start delimiter
      again, consumes nothing more. */
  function FrameStep(size: nat, body: seq<Byte>): (r: StepResult)
    requires body != []
    ensures r.Advance? ==> |r.rest| <= |body| && r.rest == body[|body| - |r.rest|..]
  {
    if body[0] == RX_PACKET then RxStep(size, body)
    else if body[0] == AT_RESPONSE then AtStep(size, body)
    else if body[0] == MODEM_STATUS then ModemStep(body)
    else Advance([], body)
  }

  /** A pass from a start delimiter: read it and the two length bytes, then switch. */
  function StepAt(t: seq<Byte>): (r: StepResult)
    requires t != [] && t[0] == START
    ensures r.Advance? ==> |r.rest| < |t| && r.rest == t[|t| - |r.rest|..]
  {
    if |t| < 4 then Stall else FrameStep(BeValue(t[1..3]), t[3..])
  }

  function Step(s: seq<Byte>): (r: StepResult)
    ensures r.Advance? ==> |r.rest| < |s| && r.rest == s[|s| - |r.rest|..]
  {
    var t := SkipToStart(s);
    if t == [] then Drained else StepAt(t)
  }

  /** Bytes before the next start delimiter make no difference to a pass. */
  lemma StepSkipsGarbage(g: seq<Byte>, s: seq<Byte>)
    requires START !in g
    ensures Step(g + s) == Step(s)
  {
    SkipPastGarbage(g, s);
  }

  /** All passes until the buffer is empty: the events in order, or None when some
      read would block. Bytes without a 0x7E make nothing happen. */
  function Dispatch(s: seq<Byte>): (r: Option<seq<Event>>)
    ensures START !in s ==> r == Some([])
    decreases |s|
  {
    if s == [] then Some([])
    else match Step(s)
      case Stall => None
      case Drained => Some([])
      case Advance(events, rest) =>
        match Dispatch(rest)
          case None => None
          case Some(more) => Some(events + more)
  }

  /** A pass of the loop on bytes that hold whole frames: it does not block; when it
      finds no delimiter nothing more happens, and otherwise its events come first and
      the bytes it leaves still hold whole frames. */
  lemma DispatchUnfold(s: seq<Byte>)
    requires s != [] && Dispatch(s).Some?
    ensures !Step(s).Stall?
    ensures Dispatch(PassRest(s)).Some?
    ensures Dispatch(s).value == PassEvents(s) + Dispatch(PassRest(s)).value
  {
    if Step(s).Drained? {
      assert PassEvents(s) + [] == [];
    }
  }

  /** The events of a pass that does not block: none when no delimiter was left. */
  function PassEvents(s: seq<Byte>): seq<Event>
    requires !Step(s).Stall?
  {
    if Step(s).Advance? then Step(s).events else []
  }

  /** The bytes a pass that does not block leaves unread: none when no delimiter was left. */
  function PassRest(s: seq<Byte>): (r: seq<Byte>)
    requires !Step(s).Stall?
    ensures |r| < |s| || s == []
  {
    if Step(s).Advance? then Step(s).rest else []
  }

  /** A pass in two halves: the skip to a delimiter, then the frame read from there. */
  lemma PassFromSkip(s: seq<Byte>)
    requires !Step(s).Stall?
    ensures var t := SkipToStart(s);
      && (t == [] ==> PassRest(s) == [] && PassEvents(s) == [])
      && (t != [] ==> StepAt(t).Advance? && PassRest(s) == StepAt(t).rest
                      && PassEvents(s) == StepAt(t).events)
  {
  }

  /** Garbage before a frame delimiter (trailing bytes of a frame that was not read to
      its end, for instance) is dropped without effect. */
  lemma DispatchSkipsGarbage(g: seq<Byte>, s: seq<Byte>)
    requires START !in g
    ensures Dispatch(g + s) == Dispatch(s)
  {
    if g == [] {
      assert g + s == s;
    } else {
      StepSkipsGarbage(g, s);
    }
  }

  /** A pass that makes nothing happen adds nothing to what follows. */
  lemma DispatchAfterEmptyPass(s: seq<Byte>, rest: seq<Byte>)
    requires s != [] && Step(s) == Advance([], rest)
    ensures Dispatch(s) == Dispatch(rest)
  {
    if Dispatch(rest).Some? {
      var none: seq<Event> := [];
      assert none + Dispatch(rest).value == Dispatch(rest).value;
    }
  }

  /** A pass that consumes everything yields its events and nothing more. */
  lemma DispatchOfOneStep(s: seq<Byte>, events: seq<Event>)
    requires s != [] && Step(s) == Advance(events, [])
    ensures Dispatch(s) == Some(events)
  {
    assert events + [] == events;
  }

  /** Round trip through the dispatcher: a well-formed RX packet from the radio reaches
      the RX handler with the source address, network address, options and payload it
      was sent with, and its length field as `size`. */
  lemma RxPacketDelivered(address: Uint64, nwAddress: Uint16, options: Byte, data: seq<Byte>)
    requires RX_OVERHEAD + |data| < 0x1_0000
    ensures Dispatch(WireFrame(RxPacketBody(address, nwAddress, options, data)))
         == Some([Delivered(RxFrame(RX_OVERHEAD + |data|, address, nwAddress, options, data))])
  {
    var body := RxPacketBody(address, nwAddress, options, data);
    var s := WireFrame(body);
    WireFrameShape(body);
    var size := |body|;
    var b := s[3..];
    var frame := RxFrame(size, address, nwAddress, options, data);
    assert b == body + [b[|b| - 1]];
    assert b[0] == RX_PACKET;
    assert RxReadCount(size) == |b|;
    assert b[..|b|] == b;
    Pow256Values();
    assert b[1..9] == body[1..9] == BeBytes(address, 8);
    assert b[9..11] == body[9..11] == BeBytes(nwAddress, 2);
    BeValueOfBeBytes(address, 8);
    BeValueOfBeBytes(nwAddress, 2);
    assert b[12..|b| - 1] == body[12..] == data;
    assert DecodeRx(size, b) == Some(frame);
    assert RxStep(size, b) == Advance([Delivered(frame)], []);
    assert StepAt(s) == FrameStep(size, b);
    DispatchOfOneStep(s, [Delivered(frame)]);
  }

  /** Checksum rejection: corrupting any byte of an RX packet after its frame type
      (address, options, payload or the checksum itself) makes the frame fail
      validation, so the RX handler is not called. */
  lemma CorruptRxPacketDropped(address: Uint64, nwAddress: Uint16, options: Byte, data: seq<Byte>,
                               i: nat, v: Byte)
    requires RX_OVERHEAD + |data| < 0x1_0000
    requires 4 <= i < |WireFrame(RxPacketBody(address, nwAddress, options, data))|
    requires v != WireFrame(RxPacketBody(address, nwAddress, options, data))[i]
    ensures Dispatch(WireFrame(RxPacketBody(address, nwAddress, options, data))[i := v]) == Some([])
  {
    var body := RxPacketBody(address, nwAddress, options, data);
    var s0 := WireFrame(body);
    WireFrameShape(body);
    var s := s0[i := v];
    var size := |body|;
    var b0 := s0[3..];
    var b := s[3..];
    assert b == b0[i - 3 := v];
    ChangedByteBreaksChecksum(b0, i - 3, v);
    assert s[1..3] == s0[1..3];
    assert b[0] == b0[0] == RX_PACKET;
    assert RxReadCount(size) == |b|;
    assert b[..|b|] == b;
    assert RxStep(size, b) == Advance([], []);
    assert StepAt(s) == FrameStep(size, b);
    DispatchOfOneStep(s, []);
  }

  /** An unknown frame type is skipped safely only when no start delimiter hides in its
      body or checksum: after one, the next frame is dispatched as if alone. */
  lemma UnknownFrameSkipped(body: seq<Byte>, next: seq<Byte>)
    requires 0 < |body| < 0x1_0000
    requires body[0] !in {RX_PACKET, AT_RESPONSE, MODEM_STATUS}
    requires START !in WireFrame(body)[3..]
    ensures Dispatch(WireFrame(body) + next) == Dispatch(next)
  {
    var w := WireFrame(body);
    WireFrameShape(body);
    var s := w + next;
    var g := w[3..];
    assert s[3..] == g + next;
    assert s[1..3] == w[1..3];
    assert s[3] == body[0];
    assert StepAt(s) == FrameStep(|body|, g + next) == Advance([], g + next);
    DispatchAfterEmptyPass(s, g + next);
    DispatchSkipsGarbage(g, next);
  }

  /** Round trip for AT responses carrying at most one data byte (the AI answer, for
      one): the reply reaches the handler lookup with its id, status and data byte. */
  lemma AtResponseReplied(id: Byte, ch1: Byte, ch2: Byte, status: Byte, data: seq<Byte>)
    requires |data| <= 1
    ensures Dispatch(WireFrame(AtResponseBody(id, ch1, ch2, status, data)))
         == Some([Replied(AtReply(id, status, if data == [] then 0 else data[0]))])
  {
    var body := AtResponseBody(id, ch1, ch2, status, data);
    var s := WireFrame(body);
    WireFrameShape(body);
    var size := |body|;
    var b := s[3..];
    var reply := AtReply(id, status, if data == [] then 0 else data[0]);
    assert b == body + [b[|b| - 1]];
    assert AtReadCount(size) == |b|;
    assert b[..|b|] == b;
    assert DecodeAt(size, b) == Some(reply);
    assert AtStep(size, b) == Advance([Replied(reply)], []);
    assert StepAt(s) == FrameStep(size, b);
    DispatchOfOneStep(s, [Replied(reply)]);
  }

  /** `_receive_at` reads one data byte however many the response carries: with two,
      the second is taken for the checksum, the reply is lost unless the real checksum
      byte is 0, and that byte is then skipped as garbage. */
  lemma TwoByteAtDataLost(id: Byte, ch1: Byte, ch2: Byte, status: Byte, data: seq<Byte>)
    requires |data| == 2
    requires WireFrame(AtResponseBody(id, ch1, ch2, status, data))[10] !in {0, START}
    ensures Dispatch(WireFrame(AtResponseBody(id, ch1, ch2, status, data))) == Some([])
  {
    var s := WireFrame(AtResponseBody(id, ch1, ch2, status, data));
    TwoByteAtStep(id, ch1, ch2, status, data);
    StepLeavingGarbage(s, s[10]);
  }

  /** A pass that makes nothing happen and leaves one byte other than the delimiter
      makes nothing happen overall. */
  lemma StepLeavingGarbage(s: seq<Byte>, c: Byte)
    requires s != [] && Step(s) == Advance([], [c]) && c != START
    ensures Dispatch(s) == Some([])
  {
    DispatchAfterEmptyPass(s, [c]);
  }

  /** The pass of TwoByteAtDataLost: the checksum test fails and one byte is left. */
  lemma TwoByteAtStep(id: Byte, ch1: Byte, ch2: Byte, status: Byte, data: seq<Byte>)
    requires |data| == 2
    requires WireFrame(AtResponseBody(id, ch1, ch2, status, data))[10] != 0
    ensures var s := WireFrame(AtResponseBody(id, ch1, ch2, status, data));
      Step(s) == Advance([], [s[10]])
  {
    var body := AtResponseBody(id, ch1, ch2, status, data);
    var s := WireFrame(body);
    WireFrameShape(body);
    var b := s[3..];
    var cs := s[10];
    assert b == body + [cs];
    assert b[..7] == body;
    assert b[7..] == [cs];
    assert DecodeAt(7, body) == None by {
      SumAppendByte(body, cs);
    }
    assert AtStep(7, b) == Advance([], [cs]);
    assert StepAt(s) == FrameStep(7, b);
    assert SkipToStart(s) == s;
  }

  // ---------------------------------------------------------------------------
  // The AT correlation table and what the handlers do

  /** An entry of `at_handlers`: the NULL entry of a never-used id, the AI handler of
      `_check_ai`, or some other callback outside this model (told apart by a tag). */
  datatype AtHandler = Null | AiHandler | Callback(tag: nat)

  /** One call `at_handlers[id](status, data)`. */
  datatype AtCall = AtCall(handler: AtHandler, status: Byte, data: Byte)

  /** One entry per value of the 8-bit frame id (the source declares one fewer, see
      Xbee.StoreHandlerAsWritten). */
  const AT_TABLE_SLOTS := 256

  /** The frames the events hand to the RX handler, in order. */
  function Deliveries(events: seq<Event>): seq<RxFrame>
  {
    if events == [] then []
    else
      var last := events[|events| - 1];
      Deliveries(events[..|events| - 1]) + (if last.Delivered? then [last.frame] else [])
  }

  /** The handler calls the events make with handler table `table`; a reply whose id
      holds no handler is dropped. */
  function Calls(events: seq<Event>, table: seq<AtHandler>): seq<AtCall>
    requires |table| == AT_TABLE_SLOTS
  {
    if events == [] then []
    else
      var last := events[|events| - 1];
      Calls(events[..|events| - 1], table) +
        (if last.Replied? && table[last.reply.id] != Null
         then [AtCall(table[last.reply.id], last.reply.status, last.reply.data)]
         else [])
  }

  /** The handler calls as written at xbee.c:277: the entry of the reply's id is called
      whether or not a handler was ever stored there. */
  function CallsAsWritten(events: seq<Event>, table: seq<AtHandler>): (calls: seq<AtCall>)
    requires |table| == AT_TABLE_SLOTS
    ensures |Calls(events, table)| <= |calls|
  {
    if events == [] then []
    else
      var last := events[|events| - 1];
      CallsAsWritten(events[..|events| - 1], table) +
        (if last.Replied? then [AtCall(table[last.reply.id], last.reply.status, last.reply.data)] else [])
  }

  /** A valid AT response whose id was never registered (a reply to a command sent by
      someone else, or a corrupted id that still sums right) makes the code as written
      call through the NULL entry, and the corrected dispatcher drop it. */
  lemma UnregisteredReplyCallsNull(reply: AtReply, table: seq<AtHandler>)
    requires |table| == AT_TABLE_SLOTS && table[reply.id] == Null
    ensures CallsAsWritten([Replied(reply)], table) == [AtCall(Null, reply.status, reply.data)]
    ensures Calls([Replied(reply)], table) == []
  {
    assert [Replied(reply)][..0] == [];
  }

  /** Where every reply carries a registered id, dropping unregistered ones changes nothing. */
  lemma {:induction false} CallsAgreeWhenRegistered(events: seq<Event>, table: seq<AtHandler>)
    requires |table| == AT_TABLE_SLOTS
    requires forall k :: 0 <= k < |events| && events[k].Replied? ==> table[events[k].reply.id] != Null
    ensures Calls(events, table) == CallsAsWritten(events, table)
    decreases |events|
  {
    if events != [] {
      CallsAgreeWhenRegistered(events[..|events| - 1], table);
    }
  }

  /** `_handle_ai_response`: `ai_response` takes the reported value only on status OK. */
  function AiUpdate(ai: Byte, status: Byte, response: Byte): (next: Byte)
    ensures next != ai ==> status == AT_OK && next == response
  {
    if status == AT_OK then response else ai
  }

  /** `ai_response` after the calls `calls`; only the AI handler touches it. */
  function AiAfter(ai: Byte, calls: seq<AtCall>): Byte
  {
    if calls == [] then ai
    else
      var last := calls[|calls| - 1];
      var before := AiAfter(ai, calls[..|calls| - 1]);
      if last.handler == AiHandler then AiUpdate(before, last.status, last.data) else before
  }

  lemma {:induction false} DeliveriesAppend(a: seq<Event>, b: seq<Event>)
    ensures Deliveries(a + b) == Deliveries(a) + Deliveries(b)
    decreases |b|
  {
    if b == [] {
      assert a + b == a;
    } else {
      var n := |b| - 1;
      assert (a + b)[..|a + b| - 1] == a + b[..n];
      DeliveriesAppend(a, b[..n]);
    }
  }

  lemma {:induction false} CallsAppend(a: seq<Event>, b: seq<Event>, table: seq<AtHandler>)
    requires |table| == AT_TABLE_SLOTS
    ensures Calls(a + b, table) == Calls(a, table) + Calls(b, table)
    decreases |b|
  {
    if b == [] {
      assert a + b == a;
    } else {
      var n := |b| - 1;
      assert (a + b)[..|a + b| - 1] == a + b[..n];
      CallsAppend(a, b[..n], table);
    }
  }

  lemma {:induction false} AiAfterAppend(ai: Byte, a: seq<AtCall>, b: seq<AtCall>)
    ensures AiAfter(ai, a + b) == AiAfter(AiAfter(ai, a), b)
    decreases |b|
  {
    if b == [] {
      assert a + b == a;
    } else {
      var n := |b| - 1;
      assert (a + b)[..|a + b| - 1] == a + b[..n];
      AiAfterAppend(ai, a, b[..n]);
    }
  }

  /** An RX packet hands over its frame, when valid, and calls no AT handler. */
  lemma RxEventsEffect(r: Option<RxFrame>, table: seq<AtHandler>)
    requires |table| == AT_TABLE_SLOTS
    ensures Deliveries(RxEvents(r)) == (if r.Some? then [r.value] else [])
    ensures Calls(RxEvents(r), table) == []
  {
    if r.Some? {
      assert RxEvents(r)[..0] == [];
    }
  }

  /** An AT response hands no frame over, and calls the handler of its id when valid
      and registered. */
  lemma AtEventsEffect(r: Option<AtReply>, table: seq<AtHandler>)
    requires |table| == AT_TABLE_SLOTS
    ensures Deliveries(AtEvents(r)) == []
    ensures Calls(AtEvents(r), table)
         == (if r.Some? && table[r.value.id] != Null
             then [AtCall(table[r.value.id], r.value.status, r.value.data)] else [])
  {
    if r.Some? {
      assert AtEvents(r)[..0] == [];
    }
  }

  /** `ai_response` after a single call. */
  lemma AiAfterOne(ai: Byte, call: AtCall)
    ensures AiAfter(ai, [call]) == (if call.handler == AiHandler then AiUpdate(ai, call.status, call.data) else ai)
  {
    assert [call][..0] == [];
  }

  /** Association progress: with the AI handler registered under `id`, an OK answer to
      AI reporting "joined" sets `ai_response` to success; a non-OK status leaves the
      value `_check_ai` set, so the wait goes on. */
  lemma AiAnswerSetsResponse(id: Byte, status: Byte, value: Byte, table: seq<AtHandler>)
    requires |table| == AT_TABLE_SLOTS && table[id] == AiHandler
    ensures var events := Dispatch(WireFrame(AtResponseBody(id, 'A' as Byte, 'I' as Byte, status, [value])));
      && events.Some?
      && AiAfter(AI_SCANNING, Calls(events.value, table)) == (if status == AT_OK then value else AI_SCANNING)
  {
    AtResponseReplied(id, 'A' as Byte, 'I' as Byte, status, [value]);
    AiReplyCall(id, status, value, table);
  }

  /** The AI handler called once with the reply. */
  lemma AiReplyCall(id: Byte, status: Byte, value: Byte, table: seq<AtHandler>)
    requires |table| == AT_TABLE_SLOTS && table[id] == AiHandler
    ensures var calls := Calls([Replied(AtReply(id, status, value))], table);
      && calls == [AtCall(AiHandler, status, value)]
      && AiAfter(AI_SCANNING, calls) == (if status == AT_OK then value else AI_SCANNING)
  {
    var events := [Replied(AtReply(id, status, value))];
    assert events[..0] == [];
    var calls := [AtCall(AiHandler, status, value)];
    assert calls[..0] == [];
  }
}
