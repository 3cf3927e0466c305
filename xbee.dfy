/** The XBee driver of xbee.c: the transmit side (`xbee_send`, `_send_at` and the
    checksum helpers), the receive side (`xbee_receive` and its per-type decoders over
    the interrupt-fed buffer), the AT correlation table and the association loop. */
module Xbee {
  import opened Bytes
  import opened Frames
  import opened Ring
  import opened Incoming

  // ---------------------------------------------------------------------------
  // AT frame ids

  /** The frame id `_send_at` uses when `at_handler_id` is `c`: the spin at xbee.c:235
      turns 0 into 1, any other value is used as it is. */
  function AllocatedId(c: Byte): (id: Byte)
    ensures id != 0
    ensures c != 0 ==> id == c
  {
    if c == 0 then 1 else c
  }

  /** `at_handler_id` after one `_send_at`: the id used, plus one in 8 bits. It is never
      1, and it is 0, which the next call skips, exactly after id 255. */
  function NextCounter(c: Byte): (next: Byte)
    ensures next != 1
    ensures next == 0 <==> AllocatedId(c) == 255
  {
    (AllocatedId(c) + 1) % 256
  }

  /** `at_handler_id` after `k` AT commands. */
  function CounterAfter(c: Byte, k: nat): Byte
  {
    if k == 0 then c else NextCounter(CounterAfter(c, k - 1))
  }

  /** Frame ids cycle through 1..255, skipping 0: the `k`-th command after counter `c`
      uses id `(AllocatedId(c) - 1 + k) mod 255 + 1`. */
  lemma {:induction false} IdsCycle(c: Byte, k: nat)
    ensures AllocatedId(CounterAfter(c, k)) == (AllocatedId(c) - 1 + k) % 255 + 1
  {
    if k > 0 {
      IdsCycle(c, k - 1);
      var x := AllocatedId(c) - 1 + k - 1;
      Mod255Step(x);
    }
  }

  /** One step of a count modulo 255. */
  lemma Mod255Step(x: nat)
    ensures (x + 1) % 255 == if x % 255 == 254 then 0 else x % 255 + 1
  {
    var q, r := x / 255, x % 255;
    if r == 254 {
      DivUnique(x + 1, 255, q + 1, 0);
    } else {
      DivUnique(x + 1, 255, q, r + 1);
    }
  }

  /** A handler stays in its slot while fewer than 255 further commands are sent: the
      ids of any 255 consecutive commands are pairwise distinct. */
  lemma PendingIdsDistinct(c: Byte, j: nat, k: nat)
    requires j < k < j + 255
    ensures AllocatedId(CounterAfter(c, j)) != AllocatedId(CounterAfter(c, k))
  {
    IdsCycle(c, j);
    IdsCycle(c, k);
  }

  /** The AI commands `n` association attempts send, the counter starting at `c`: one
      `7E 00 04 08 id 'A' 'I' cs` frame per attempt, each under the next frame id. */
  function AiCommands(c: Byte, n: nat): (r: seq<Byte>)
    ensures |r| == 8 * n
  {
    if n == 0 then []
    else AiCommands(c, n - 1) + AtCommandBytes(AllocatedId(CounterAfter(c, n - 1)), 'A' as Byte, 'I' as Byte)
  }

  /** Round `k` of the AI commands is the frame `7E 00 04 08 id 'A' 'I' cs` whose id is
      the `k`-th allocated frame id (see IdsCycle). */
  lemma {:induction false} AiCommandOfRound(c: Byte, n: nat, k: nat)
    requires k < n
    ensures AiCommands(c, n)[8 * k..8 * k + 8] == AtCommandBytes(AllocatedId(CounterAfter(c, k)), 'A' as Byte, 'I' as Byte)
    ensures AiCommands(c, n)[8 * k + 4] == AllocatedId(CounterAfter(c, k))
  {
    var id := AllocatedId(CounterAfter(c, k));
    var f := AtCommandBytes(id, 'A' as Byte, 'I' as Byte);
    var before := AiCommands(c, n - 1);
    var last := AtCommandBytes(AllocatedId(CounterAfter(c, n - 1)), 'A' as Byte, 'I' as Byte);
    assert AiCommands(c, n) == before + last;
    if k < n - 1 {
      AiCommandOfRound(c, n - 1, k);
      SliceOfAppendLeft(before, last, 8 * k, 8 * k + 8);
    } else {
      SliceOfAppendRight(before, last);
    }
    AtCommandBytesAre(id, 'A' as Byte, 'I' as Byte);
    assert AiCommands(c, n)[8 * k + 4] == f[4];
  }

  /** One more AI command after those of `n` rounds. */
  lemma AiCommandsNext(u0: seq<Byte>, c: Byte, n: nat, u: seq<Byte>)
    requires u == u0 + AiCommands(c, n)
    ensures u + AtCommandBytes(AllocatedId(CounterAfter(c, n)), 'A' as Byte, 'I' as Byte) == u0 + AiCommands(c, n + 1)
  {
    ConcatAssoc(u0, AiCommands(c, n), AtCommandBytes(AllocatedId(CounterAfter(c, n)), 'A' as Byte, 'I' as Byte));
  }

  /** The handler store as written, `at_handlers[id] = handler` into the 0xFF-entry
      table: the new table, or None when `id` indexes past its end. */
  function StoreHandlerAsWritten(table: seq<AtHandler>, id: Byte, h: AtHandler): (r: Option<seq<AtHandler>>)
    requires |table| == 0xFF
    ensures r.Some? <==> id < 0xFF
  {
    if id < |table| then Some(table[id := h]) else None
  }

  /** From the initial `at_handler_id == 0`, the 255th AT command (and every 255th one
      after it) gets id 255, and its handler is stored one past the end of the table
      as written. */
  lemma HandlerStoreOverrun(table: seq<AtHandler>, h: AtHandler, k: nat)
    requires |table| == 0xFF && k % 255 == 254
    ensures AllocatedId(CounterAfter(0, k)) == 255
    ensures StoreHandlerAsWritten(table, AllocatedId(CounterAfter(0, k)), h) == None
  {
    IdsCycle(0, k);
  }

  // ---------------------------------------------------------------------------
  // The length and address reads as written

  /** The two orders a C compiler may evaluate the two unsequenced `_receive_byte()` calls
      of xbee.c:133 and xbee.c:179 in. */
  datatype Order = LeftFirst | RightFirst

  /** `uint8_t size` as computed at xbee.c:133 from the length bytes `msb`, `lsb` in wire
      order: the call evaluated first gets `msb`, and the 16-bit value is cut to 8 bits. */
  function SizeAsWritten(msb: Byte, lsb: Byte, order: Order): (size: Byte)
    ensures order == LeftFirst ==> size == BeValue([msb, lsb]) % 256
    ensures order == RightFirst ==> size == msb
  {
    BeValuePair(msb, lsb);
    var shifted := if order == LeftFirst then msb else lsb;
    var masked := if order == LeftFirst then lsb else msb;
    (shifted * 256 + masked) % 256
  }

  /** The size is right only for frames under 256 bytes read left to right; read right
      to left every frame under 256 bytes gets size 0 (an AT response of 6 bytes, say),
      and read left to right a 256-byte RX packet gets size 0 too. */
  lemma SizeAsWrittenWrong(n: Uint16)
    ensures SizeAsWritten(n / 256, n % 256, LeftFirst) == n <==> n < 256
    ensures SizeAsWritten(n / 256, n % 256, RightFirst) == n <==> n == 0
    ensures SizeAsWritten(0, 6, RightFirst) == 0
    ensures SizeAsWritten(1, 0, LeftFirst) == 0
  {
    BeValuePair(n / 256, n % 256);
  }

  /** The counter of the address loop at xbee.c:174 after `k` steps of `i -= 8` on a
      `uint8_t` starting at 56. */
  function ShiftAfter(k: nat): Byte
  {
    if k == 0 then 56 else (ShiftAfter(k - 1) - 8) % 256
  }

  /** The loop condition `i >= 0` holds for every `uint8_t`: the counter never goes
      negative but wraps, to 248 after the eighth byte (and after every 32 more), and
      cycles with period 32, so the loop keeps reading bytes for ever. */
  lemma ShiftAfterWraps(k: nat)
    ensures ShiftAfter(k + 32) == ShiftAfter(k)
    ensures k % 32 == 8 ==> ShiftAfter(k) == 248
  {
    ShiftAfterFormula(k);
    ShiftAfterFormula(k + 32);
    var x := 56 - 8 * k;
    assert 56 - 8 * (k + 32) == x - 256;
    DivUnique(x - 256, 256, x / 256 - 1, x % 256);
    if k % 32 == 8 {
      var m := k / 32;
      assert x == -8 - 256 * m;
      ModMultiple(248, -1 - m);
    }
  }

  lemma ModMultiple(r: nat, m: int)
    requires r < 256
    ensures (r + 256 * m) % 256 == r
  {
    DivUnique(r + 256 * m, 256, m, r);
  }

  lemma {:induction false} ShiftAfterFormula(k: nat)
    ensures ShiftAfter(k) == (56 - 8 * k) % 256
  {
    if k > 0 {
      ShiftAfterFormula(k - 1);
      ModAddMod(56 - 8 * (k - 1), -8);
    }
  }

  /** `address` as the loop at xbee.c:174-176 leaves it after reading the eight address
      bytes `bs`, OR-ing each shifted byte into whatever `init` the uninitialised local
      held; the shift is taken on 64 bits, as intended (ShiftAsWritten gives the `int`
      shift the line performs). Every bit set in `init` stays set. */
  function AddressAsWritten(init: bv64, bs: seq<Byte>): (address: bv64)
    requires |bs| <= 8
    ensures address & init == init
  {
    if bs == [] then init
    else AddressAsWritten(init, bs[..|bs| - 1]) | ((bs[|bs| - 1] as bv64) << (64 - 8 * |bs|) as bv7)
  }

  /** With the uninitialised start value, an all-zero address is read as that value. */
  lemma {:induction false} AddressAsWrittenKeepsGarbage(init: bv64, bs: seq<Byte>)
    requires |bs| <= 8
    requires forall k :: 0 <= k < |bs| ==> bs[k] == 0
    ensures AddressAsWritten(init, bs) == init
  {
    if bs != [] {
      AddressAsWrittenKeepsGarbage(init, bs[..|bs| - 1]);
      OrShiftedZero(AddressAsWritten(init, bs[..|bs| - 1]), bs[|bs| - 1], |bs|);
    }
  }

  /** OR-ing in a zero byte, wherever it is shifted to, changes nothing. */
  lemma OrShiftedZero(x: bv64, b: Byte, n: nat)
    requires b == 0 && 1 <= n <= 8
    ensures x | ((b as bv64) << (64 - 8 * n) as bv7) == x
  {
    var z: bv64 := 0;
    assert b as bv64 == z;
  }

  /** Width and largest value of `int` on the AVR compiler. */
  const INT_BITS := 16
  const INT_MAX := 0x7FFF

  function Pow2(n: nat): (p: nat)
    ensures p > 0
  {
    if n == 0 then 1 else 2 * Pow2(n - 1)
  }

  /** `_receive_byte() << i` as written at xbee.c:175 and xbee.c:179: the `uint8_t` is
      promoted to a 16-bit `int` before the shift, which C defines only when `i` is below
      the width of `int` and the result fits in it; None where it is undefined. */
  function ShiftAsWritten(b: Byte, i: nat): (r: Option<int>)
    ensures r.Some? ==> 0 <= r.value <= INT_MAX && r.value % Pow2(i) == 0
    ensures r.Some? ==> r.value / Pow2(i) == b
  {
    if i < INT_BITS && b * Pow2(i) <= INT_MAX then
      DivUnique(b * Pow2(i), Pow2(i), b, 0);
      Some(b * Pow2(i))
    else None
  }

  /** Reading the eight address bytes always performs an undefined shift: the shifts by
      56 down to 16 are at least as wide as `int`, and the shift by 8 overflows for a
      byte of 0x80 or more. Only the last byte, and a second-to-last byte below 0x80, are
      shifted as intended, so no address is read right as written. */
  lemma AddressShiftsUndefined(bs: seq<Byte>)
    requires |bs| == 8
    ensures forall k :: 0 <= k < 8 ==>
      (ShiftAsWritten(bs[k], 56 - 8 * k).Some? <==> k == 7 || (k == 6 && bs[6] < 0x80))
    ensures ShiftAsWritten(bs[0], 56) == None
    ensures ShiftAsWritten(bs[7], 0) == Some(bs[7] as int)
  {
    assert Pow2(8) == 256;
  }

  /** `nw_address` as computed at xbee.c:179 from the bytes `first`, `second` in wire
      order: the call evaluated first gets `first`, and the byte that is shifted goes
      through ShiftAsWritten (None when that is undefined). The OR of a multiple of 256
      and a byte is their sum. */
  function NwAddressAsWritten(first: Byte, second: Byte, order: Order): (r: Option<int>)
    ensures r.Some? ==> 0 <= r.value <= INT_MAX
  {
    var shifted := if order == LeftFirst then first else second;
    var low := if order == LeftFirst then second else first;
    match ShiftAsWritten(shifted, 8)
    case None => None
    case Some(high) =>
      assert Pow2(8) == 256;
      Some(high + low)
  }

  /** Read left to right the network address is right exactly when its high byte is
      below 0x80; read right to left it comes out byte-swapped, right only for two equal
      bytes below 0x80 (0x1234 is read as 0x3412). */
  lemma NwAddressAsWrittenWrong(first: Byte, second: Byte)
    ensures NwAddressAsWritten(first, second, LeftFirst) == Some(BeValue([first, second]))
      <==> first < 0x80
    ensures NwAddressAsWritten(first, second, RightFirst) == Some(BeValue([first, second]))
      <==> first == second && first < 0x80
    ensures NwAddressAsWritten(0x12, 0x34, RightFirst) == Some(0x3412)
  {
    BeValuePair(first, second);
    assert Pow2(8) == 256;
  }

  /** The `int8_t` payload counters of xbee.c:103 and xbee.c:184. */
  type Int8 = x: int | -128 <= x < 128

  /** `i++` on an `int8_t` as the AVR compiler does it: 127 wraps to -128. */
  function Int8Next(i: Int8): Int8
  {
    if i == 127 then -128 else i + 1
  }

  function Int8After(k: nat): Int8
  {
    if k == 0 then 0 else Int8Next(Int8After(k - 1))
  }

  /** The counter after `k` increments in closed form: 0..127, then -128 and up again. */
  lemma {:induction false} Int8AfterFormula(k: nat)
    ensures Int8After(k) == (k + 128) % 256 - 128
  {
    if k > 0 {
      Int8AfterFormula(k - 1);
      ModAddMod(k + 127, 1);
    }
  }

  /** For a payload of 128 bytes or more the counter goes from 127 to -128 (indexing
      `data[-128]` next) and then repeats with period 256, so it stays below 128 and
      `i < size` holds for ever. */
  lemma Int8CounterNeverReaches(size: nat, k: nat)
    requires size >= 128
    ensures Int8After(127) == 127 && Int8After(128) == -128
    ensures Int8After(k + 256) == Int8After(k)
    ensures Int8After(k) < size
  {
    Int8AfterFormula(127);
    Int8AfterFormula(128);
    Int8AfterFormula(k);
    Int8AfterFormula(k + 256);
    DivUnique(k + 384, 256, (k + 128) / 256 + 1, (k + 128) % 256);
  }

  // ---------------------------------------------------------------------------
  // The bytes `_receive_rx` reads

  /** The running checksum over the fixed fields of an RX packet, read as type byte,
      eight address bytes, two network-address bytes and options. */
  lemma RxFieldsSum(q: seq<Byte>, t0: Byte, t1: Byte, t9: Byte, t11: Byte, t12: Byte)
    requires |q| >= RX_OVERHEAD
    requires t1 == (t0 + q[0]) % 256
    requires t9 == (t1 + Sum(q[1..][..8])) % 256
    requires t11 == (t9 + Sum(q[9..][..2])) % 256
    requires t12 == (t11 + q[11]) % 256
    ensures t12 == (t0 + Sum(q[..RX_OVERHEAD])) % 256
  {
    assert q[1..][..8] == q[1..9] && q[9..][..2] == q[9..11];
    assert q[..1] == [q[0]];
    SumOfBytes(q[0], 0, 0, 0);
    RunningSum(t0, q[..1], q[1..9]);
    assert q[..1] + q[1..9] == q[..9];
    RunningSum(t0, q[..9], q[9..11]);
    assert q[..9] + q[9..11] == q[..11];
    RunningSumByte(t0, q[..11], q[11]);
    assert q[..11] + [q[11]] == q[..12];
  }

  /** What `_receive_rx(size)` does with the bytes `q` it finds: the frame it builds from
      them, and the checksum verdict, are those of RxStep. */
  lemma RxStepReads(size: nat, q: seq<Byte>, frame: RxFrame, fields: Byte, payload: Byte, last: Byte, valid: bool)
    requires |q| >= RxReadCount(size)
    requires frame.size == size && frame.address == BeValue(q[1..9]) && frame.nwAddress == BeValue(q[9..11])
    requires frame.options == q[11] && frame.data == q[RX_OVERHEAD..][..RxReadCount(size) - 1 - RX_OVERHEAD]
    requires fields == (0 + Sum(q[..RX_OVERHEAD])) % 256
    requires payload == (fields + Sum(frame.data)) % 256
    requires last == (payload + q[RX_OVERHEAD..][RxReadCount(size) - 1 - RX_OVERHEAD..][0]) % 256
    requires valid <==> last == 0xFF
    ensures RxStep(size, q) == Advance(RxEvents(if valid then Some(frame) else None), q[RxReadCount(size)..])
  {
    var n := RxReadCount(size);
    assert frame.data == q[RX_OVERHEAD..n - 1];
    assert q[RX_OVERHEAD..][n - 1 - RX_OVERHEAD..][0] == q[n - 1];
    RxStepOfSums(size, q, frame, valid);
  }

  /** RxStepReads with the checksum verdict stated on the sums of the parts read. */
  lemma RxStepOfSums(size: nat, q: seq<Byte>, frame: RxFrame, valid: bool)
    requires |q| >= RxReadCount(size)
    requires frame.size == size && frame.address == BeValue(q[1..9]) && frame.nwAddress == BeValue(q[9..11])
    requires frame.options == q[11] && frame.data == q[RX_OVERHEAD..RxReadCount(size) - 1]
    requires valid <==> ((Sum(q[..RX_OVERHEAD]) % 256 + Sum(q[RX_OVERHEAD..RxReadCount(size) - 1])) % 256
                          + q[RxReadCount(size) - 1]) % 256 == 0xFF
    ensures RxStep(size, q) == Advance(RxEvents(if valid then Some(frame) else None), q[RxReadCount(size)..])
  {
    var n := RxReadCount(size);
    var read := q[..n];
    RunningSum(0, q[..RX_OVERHEAD], q[RX_OVERHEAD..n - 1]);
    SplitAt(q, RX_OVERHEAD, n - 1);
    SumPrefixMod(q, n - 1);
    SliceOfPrefix(q, n, 1, 9);
    SliceOfPrefix(q, n, 9, 11);
    SliceOfPrefix(q, n, RX_OVERHEAD, n - 1);
  }

  /** One byte of the address loop at xbee.c:174-177: the byte `q[k]`, shifted to its
      big-endian place, extends the value read so far, and the running checksum takes
      it in. */
  lemma AddressStep(q: seq<Byte>, k: nat, c0: nat, c: Byte, a: nat)
    requires k < 8 <= |q|
    requires c == (c0 + Sum(q[..k])) % 256
    requires a == BeValue(q[..k]) * Pow256(8 - k)
    ensures (c + q[k]) % 256 == (c0 + Sum(q[..k + 1])) % 256
    ensures a + q[k] * Pow256(7 - k) == BeValue(q[..k + 1]) * Pow256(8 - (k + 1))
  {
    var done := q[..k];
    assert q[..k + 1] == done + [q[k]];
    RunningSumByte(c0, done, q[k]);
    var v, p := BeValue(done), Pow256(7 - k);
    assert a == v * (256 * p);
    BeValueAppend(done, q[k]);
    ShiftInByte(v, q[k], p);
  }

  /** What the frames read so far have made happen: the frames handed to the RX
      handler, the AT handler calls and the AI answer. */
  datatype Effects = Effects(delivered: seq<RxFrame>, atCalls: seq<AtCall>, aiResponse: Byte)

  /** The effects `e` followed by those of `events`. */
  function Apply(e: Effects, events: seq<Event>, table: seq<AtHandler>): Effects
    requires |table| == AT_TABLE_SLOTS
  {
    Effects(e.delivered + Deliveries(events), e.atCalls + Calls(events, table),
            AiAfter(e.aiResponse, Calls(events, table)))
  }

  /** Events that come in two runs have the effects of the first run, then those of
      the second. */
  lemma ApplyAppend(e: Effects, done: seq<Event>, events: seq<Event>, table: seq<AtHandler>)
    requires |table| == AT_TABLE_SLOTS
    ensures Apply(e, done + events, table) == Apply(Apply(e, done, table), events, table)
  {
    DeliveriesAppend(done, events);
    ConcatAssoc(e.delivered, Deliveries(done), Deliveries(events));
    CallsAppend(done, events, table);
    ConcatAssoc(e.atCalls, Calls(done, table), Calls(events, table));
    AiAfterAppend(e.aiResponse, Calls(done, table), Calls(events, table));
  }

  /** No events, no effects. */
  lemma ApplyNothing(e: Effects, table: seq<AtHandler>)
    requires |table| == AT_TABLE_SLOTS
    ensures Apply(e, [], table) == e
  {
    assert e.delivered + [] == e.delivered;
    assert e.atCalls + [] == e.atCalls;
  }

  /** The bytes `xbee_receive` finds in round `k` of the association wait: in round 0
      the bytes already unread `q0` followed by that round's arrivals, later the
      arrivals alone (every round empties the buffer). */
  function RoundBytes(q0: seq<Byte>, arrivals: seq<seq<Byte>>, k: nat): seq<Byte>
    requires |q0| < SLOTS && k < |arrivals|
  {
    AfterPushes(if k == 0 then q0 else [], arrivals[k])
  }

  /** The events of round `k` (none when its bytes would block). */
  function RoundEvents(q0: seq<Byte>, arrivals: seq<seq<Byte>>, k: nat): seq<Event>
    requires |q0| < SLOTS && k < |arrivals|
  {
    var d := Dispatch(RoundBytes(q0, arrivals, k));
    if d.Some? then d.value else []
  }

  /** The AT handler table after `n` rounds from table `t` and counter `c`: each round
      stores the AI handler under its own id; every other entry keeps its handler. */
  function TableAfterRounds(t: seq<AtHandler>, c: Byte, n: nat): (r: seq<AtHandler>)
    requires |t| == AT_TABLE_SLOTS
    ensures |r| == AT_TABLE_SLOTS
    ensures n > 0 ==> r[AllocatedId(CounterAfter(c, n - 1))] == AiHandler
    ensures forall id :: 0 <= id < AT_TABLE_SLOTS && r[id] != AiHandler ==> r[id] == t[id]
  {
    if n == 0 then t
    else TableAfterRounds(t, c, n - 1)[AllocatedId(CounterAfter(c, n - 1)) := AiHandler]
  }

  /** The events of every round, round by round. */
  function RoundsEvents(q0: seq<Byte>, arrivals: seq<seq<Byte>>): (r: seq<seq<Event>>)
    requires |q0| < SLOTS
    ensures |r| == |arrivals|
  {
    seq(|arrivals|, k requires 0 <= k < |arrivals| => RoundEvents(q0, arrivals, k))
  }

  /** The effects of the first `n` rounds after `e`, round k having the events
      `events[k]`: each round resets the AI answer to "scanning", then its events take
      effect with that round's table. */
  function RoundsEffects(e: Effects, events: seq<seq<Event>>, t: seq<AtHandler>, c: Byte, n: nat): Effects
    requires n <= |events| && |t| == AT_TABLE_SLOTS
  {
    if n == 0 then e
    else
      var before := RoundsEffects(e, events, t, c, n - 1);
      Apply(before.(aiResponse := AI_SCANNING), events[n - 1], TableAfterRounds(t, c, n))
  }

  /** The AI answer after the first `n` rounds. */
  function AnswerAfter(e: Effects, events: seq<seq<Event>>, t: seq<AtHandler>, c: Byte, n: nat): Byte
    requires n <= |events| && |t| == AT_TABLE_SLOTS
  {
    RoundsEffects(e, events, t, c, n).aiResponse
  }

  /** How many rounds run once the wait has reached round `n`: it stops after the
      first round whose AI answer reports success, or when the rounds run out. */
  function RoundsRun(e: Effects, events: seq<seq<Event>>, t: seq<AtHandler>, c: Byte, n: nat): (r: nat)
    requires 1 <= n <= |events| && |t| == AT_TABLE_SLOTS
    ensures n <= r <= |events|
    decreases |events| - n
  {
    if n == |events| || AnswerAfter(e, events, t, c, n) == AI_SUCCESS then n
    else RoundsRun(e, events, t, c, n + 1)
  }

  /** The wait stops at the first success: every round from `n` up to the last one run
      ended without success, and the last one succeeded unless the rounds ran out. */
  lemma {:induction false} RoundsRunStopsAtFirstSuccess(e: Effects, events: seq<seq<Event>>,
                                                         t: seq<AtHandler>, c: Byte, n: nat)
    requires 1 <= n <= |events| && |t| == AT_TABLE_SLOTS
    ensures forall k :: n <= k < RoundsRun(e, events, t, c, n) ==> AnswerAfter(e, events, t, c, k) != AI_SUCCESS
    ensures RoundsRun(e, events, t, c, n) < |events| ==>
              AnswerAfter(e, events, t, c, RoundsRun(e, events, t, c, n)) == AI_SUCCESS
    decreases |events| - n
  {
    if n < |events| && AnswerAfter(e, events, t, c, n) != AI_SUCCESS {
      RoundsRunStopsAtFirstSuccess(e, events, t, c, n + 1);
    }
  }

  // ---------------------------------------------------------------------------
  // The driver's state and operations

  /** The driver's globals: the receive buffer its interrupt fills, the AT handler table
      and counter, the two running checksums and the AI answer. `uart` is every byte
      written to the data register, `delivered` every frame handed to the RX handler
      and `atCalls` every AT handler call, in order. */
  class Radio {
    const rx: CyclicBuffer
    const atHandlers: array<AtHandler>
    var uart: seq<Byte>
    var txChecksum: Byte
    var rxChecksum: Byte
    var atHandlerId: Byte
    var aiResponse: Byte
    var delivered: seq<RxFrame>
    var atCalls: seq<AtCall>

    ghost predicate Valid()
      reads this, rx, rx.buffer
    {
      rx.Valid() && atHandlers.Length == AT_TABLE_SLOTS
    }

    /** The zero-initialised globals after reset. */
    constructor ()
      ensures Valid() && fresh(rx) && fresh(rx.buffer) && fresh(atHandlers)
      ensures rx.contents == [] && atHandlers[..] == seq(AT_TABLE_SLOTS, _ => Null)
      ensures uart == [] && txChecksum == 0 && rxChecksum == 0
      ensures atHandlerId == 0 && aiResponse == 0
      ensures delivered == [] && atCalls == []
    {
      rx := new CyclicBuffer();
      atHandlers := new AtHandler[AT_TABLE_SLOTS](_ => Null);
      uart, txChecksum, rxChecksum := [], 0, 0;
      atHandlerId, aiResponse := 0, 0;
      delivered, atCalls := [], [];
    }

    /** `_send_byte`: the byte goes out and is added to the 8-bit `tx_checksum`. */
    method SendByte(c: Byte)
      modifies this`uart, this`txChecksum
      ensures uart == old(uart) + [c]
      ensures txChecksum == (old(txChecksum) + c) % 256
    {
      uart := uart + [c];
      txChecksum := (txChecksum + c) % 256;
    }

    /** `_send_checksum`: sends `0xFF - tx_checksum`, which brings the running checksum
        to 0xFF. */
    method SendChecksum()
      modifies this`uart, this`txChecksum
      ensures uart == old(uart) + [0xFF - old(txChecksum)]
      ensures txChecksum == 0xFF
    {
      SendByte(0xFF - txChecksum);
    }

    /** `xbee_send`: the whole TX request frame for `f`, byte for byte, goes out. */
    method Send(f: TxFrame)
      requires |f.data| < 256
      modifies this`uart, this`txChecksum
      ensures uart == old(uart) + TxFrameBytes(f)
      ensures txChecksum == 0xFF
    {
      var size := |f.data|;
      SendByte(START);
      SendByte((size + TX_OVERHEAD) / 256);
      SendByte((size + TX_OVERHEAD) % 256);
      ghost var header := uart;
      txChecksum := 0;
      SendTxFields(f);
      SendPayload(f.data);
      RunningSum(0, TxFields(f), f.data);
      assert uart == header + TxBody(f);
      SendChecksum();
      WireFrameBytes(TxBody(f));
    }

    /** The fixed fields of `xbee_send` after the checksum reset: type, frame id, the
        64-bit and the 16-bit address most significant byte first, radius, options. */
    method SendTxFields(f: TxFrame)
      modifies this`uart, this`txChecksum
      ensures uart == old(uart) + TxFields(f)
      ensures txChecksum == (old(txChecksum) + Sum(TxFields(f))) % 256
    {
      ghost var u0, t0 := uart, txChecksum;
      var hi, lo := f.nwAddress / 256, f.nwAddress % 256;
      ghost var a := Sum(BeBytes(f.address, 8));
      SendPair(TX_REQUEST, f.id);
      ghost var x := t0 + TX_REQUEST + f.id;
      assert txChecksum == x % 256;
      ModAddMod(x, a);
      SendAddress(f.address);
      x := x + a;
      assert txChecksum == x % 256;
      ModAddMod(x, hi + lo);
      SendPair(hi, lo);
      x := x + hi + lo;
      assert txChecksum == x % 256;
      ModAddMod(x, f.radius + f.options);
      SendPair(f.radius, f.options);
      assert txChecksum == (x + f.radius + f.options) % 256;
      TxFieldsBytes(f);
      assert x + f.radius + f.options == t0 + Sum(TxFields(f));
      assert uart == u0 + ([TX_REQUEST, f.id] + BeBytes(f.address, 8) + [hi, lo, f.radius, f.options]);
    }

    /** Two bytes through `_send_byte`. */
    method SendPair(a: Byte, b: Byte)
      modifies this`uart, this`txChecksum
      ensures uart == old(uart) + [a, b]
      ensures txChecksum == (old(txChecksum) + a + b) % 256
    {
      AddTwoMod(txChecksum, txChecksum, a, b);
      SendByte(a);
      SendByte(b);
    }

    /** The 64-bit address loop of `xbee_send`, most significant byte first: the bytes
        `address >> i` for i = 56 down to 8, then the low byte. */
    method SendAddress(address: Uint64)
      modifies this`uart, this`txChecksum
      ensures uart == old(uart) + BeBytes(address, 8)
      ensures txChecksum == (old(txChecksum) + Sum(BeBytes(address, 8))) % 256
    {
      var i := 56;
      ghost var k := 0;
      while i > 0
        invariant 0 <= k <= 7 && i == 56 - 8 * k
        invariant uart == old(uart) + BeBytes(address, 8)[..k]
        invariant txChecksum == (old(txChecksum) + Sum(BeBytes(address, 8)[..k])) % 256
      {
        ghost var sent := BeBytes(address, 8)[..k];
        BeBytesAt(address, 8, k);
        assert i / 8 == 7 - k;
        var b := (address / Pow256(i / 8)) % 256;
        SendByte(b);
        SumAppendByte(sent, b);
        ModAddMod(old(txChecksum) + Sum(sent), b);
        assert BeBytes(address, 8)[..k + 1] == sent + [b];
        i, k := i - 8, k + 1;
      }
      ghost var sent := BeBytes(address, 8)[..7];
      BeBytesAt(address, 8, 7);
      SendByte(address % 256);
      SumAppendByte(sent, address % 256);
      ModAddMod(old(txChecksum) + Sum(sent), address % 256);
      assert sent + [address % 256] == BeBytes(address, 8);
    }

    /** The payload loop of `xbee_send`: the data bytes in order. */
    method SendPayload(data: seq<Byte>)
      modifies this`uart, this`txChecksum
      ensures uart == old(uart) + data
      ensures txChecksum == (old(txChecksum) + Sum(data)) % 256
    {
      var i := 0;
      while i < |data|
        invariant 0 <= i <= |data|
        invariant uart == old(uart) + data[..i]
        invariant txChecksum == (old(txChecksum) + Sum(data[..i])) % 256
      {
        SendByte(data[i]);
        SumAppendByte(data[..i], data[i]);
        assert data[..i + 1] == data[..i] + [data[i]];
        i := i + 1;
      }
      assert data[..i] == data;
    }

    /** `_send_at`: takes the next non-zero frame id, stores `handler` under it, sends the
        AT command frame and advances `at_handler_id`. */
    method SendAt(ch1: Byte, ch2: Byte, handler: AtHandler)
      requires Valid()
      modifies this`uart, this`txChecksum, this`atHandlerId, atHandlers
      ensures atHandlers[..] == old(atHandlers[..])[AllocatedId(old(atHandlerId)) := handler]
      ensures uart == old(uart) + AtCommandBytes(AllocatedId(old(atHandlerId)), ch1, ch2)
      ensures atHandlerId == NextCounter(old(atHandlerId))
      ensures txChecksum == 0xFF
    {
      while atHandlerId == 0
        invariant atHandlerId == 0 || atHandlerId == AllocatedId(old(atHandlerId))
        modifies this`atHandlerId
        decreases if atHandlerId == 0 then 1 else 0
      {
        atHandlerId := (atHandlerId + 1) % 256;
      }
      var id := atHandlerId;
      atHandlers[id] := handler;

      SendAtFrame(id, ch1, ch2);
      atHandlerId := (atHandlerId + 1) % 256;
    }

    /** The frame part of `_send_at`: delimiter, fixed length 4, then type, id and the two
        command letters under a fresh checksum, then the checksum. */
    method SendAtFrame(id: Byte, ch1: Byte, ch2: Byte)
      modifies this`uart, this`txChecksum
      ensures uart == old(uart) + AtCommandBytes(id, ch1, ch2)
      ensures txChecksum == 0xFF
    {
      ghost var u0 := uart;
      SendByte(START);
      SendByte(0x00);
      SendByte(0x04);
      assert uart == u0 + [START, 0x00, 0x04];
      txChecksum := 0;
      SendByte(AT_COMMAND);
      SendByte(id);
      assert uart == u0 + [START, 0x00, 0x04, AT_COMMAND, id];
      assert txChecksum == (AT_COMMAND + id) % 256;
      SendByte(ch1);
      SendByte(ch2);
      assert uart == u0 + [START, 0x00, 0x04, AT_COMMAND, id, ch1, ch2];
      AtCommandChecksum(id, ch1, ch2);
      assert 0xFF - txChecksum == Checksum([AT_COMMAND, id, ch1, ch2]);
      SendChecksum();
      AtCommandBytesAre(id, ch1, ch2);
    }

    /** `_receive_byte` (the spin on `_data_available` becomes the precondition that a
        byte is waiting): the oldest unread byte, added to the 8-bit `rx_checksum`. */
    method ReceiveByte() returns (b: Byte)
      requires Valid() && rx.contents != []
      modifies rx`head, rx`contents, this`rxChecksum
      ensures Valid()
      ensures b == old(rx.contents)[0]
      ensures rx.contents == old(rx.contents)[1..]
      ensures rxChecksum == (old(rxChecksum) + b) % 256
    {
      b := rx.Pop();
      rxChecksum := (rxChecksum + b) % 256;
    }

    /** `_rx_checksum_isvalid`: reads the checksum byte; the frame is valid when the
        running sum then reads 0xFF. */
    method RxChecksumIsValid() returns (valid: bool)
      requires Valid() && rx.contents != []
      modifies rx`head, rx`contents, this`rxChecksum
      ensures Valid()
      ensures rx.contents == old(rx.contents)[1..]
      ensures rxChecksum == (old(rxChecksum) + old(rx.contents)[0]) % 256
      ensures valid <==> rxChecksum == 0xFF
    {
      var _ := ReceiveByte();
      valid := rxChecksum == 0xFF;
    }

    /** The 64-bit address loop of `_receive_rx`, most significant byte first, with the
        counter, the start value and the shift the loop evidently intends (see
        ShiftAfterWraps, AddressAsWritten and AddressShiftsUndefined): eight reads, each
        byte shifted on 64 bits and OR-ed in at `i` = 56, 48, ..., 0. */
    method ReceiveAddress() returns (address: Uint64)
      requires Valid() && |rx.contents| >= 8
      modifies rx`head, rx`contents, this`rxChecksum
      ensures Valid()
      ensures address == BeValue(old(rx.contents)[..8])
      ensures rx.contents == old(rx.contents)[8..]
      ensures rxChecksum == (old(rxChecksum) + Sum(old(rx.contents)[..8])) % 256
    {
      ghost var q := rx.contents;
      var a := 0;
      var i: int := 56;
      ghost var k: nat := 0;
      while i >= 0
        invariant Valid()
        invariant k <= 8 && i == 56 - 8 * k
        invariant rx.contents == q[k..]
        invariant rxChecksum == (old(rxChecksum) + Sum(q[..k])) % 256
        invariant a == BeValue(q[..k]) * Pow256(8 - k)
      {
        AddressStep(q, k, old(rxChecksum), rxChecksum, a);
        var b := ReceiveByte();
        assert i / 8 == 7 - k;
        var p := Pow256(i / 8);
        a := a + b * p;
        assert q[k..][1..] == q[k + 1..];
        i, k := i - 8, k + 1;
      }
      Pow256Values();
      address := a;
    }

    /** The payload loop of `_receive_rx` into the freshly allocated buffer of
        `count` bytes. */
    method ReceivePayload(count: nat) returns (data: seq<Byte>)
      requires Valid() && |rx.contents| >= count
      modifies rx`head, rx`contents, this`rxChecksum
      ensures Valid()
      ensures data == old(rx.contents)[..count]
      ensures rx.contents == old(rx.contents)[count..]
      ensures rxChecksum == (old(rxChecksum) + Sum(data)) % 256
    {
      ghost var q := rx.contents;
      var buf := new Byte[count];
      var i := 0;
      while i < count
        invariant Valid()
        invariant i <= count
        invariant rx.contents == q[i..]
        invariant buf[..i] == q[..i]
        invariant rxChecksum == (old(rxChecksum) + Sum(q[..i])) % 256
      {
        var b := ReceiveByte();
        buf[i] := b;
        RunningSumByte(old(rxChecksum), q[..i], b);
        assert q[..i + 1] == q[..i] + [b];
        i := i + 1;
      }
      data := buf[..];
    }

    /** `_receive_rx(size)`: reads the packet under a fresh checksum and hands it to the
        RX handler when the checksum holds, as RxStep describes. */
    method ReceiveRx(size: nat)
      requires Valid() && |rx.contents| >= RxReadCount(size)
      modifies rx`head, rx`contents, this`rxChecksum, this`delivered
      ensures Valid()
      ensures rx.contents == RxStep(size, old(rx.contents)).rest
      ensures delivered == old(delivered) + Deliveries(RxStep(size, old(rx.contents)).events)
    {
      ghost var q := rx.contents;
      ghost var n := RxReadCount(size);
      var count := if size > RX_OVERHEAD then size - RX_OVERHEAD else 0;
      rxChecksum := 0;
      var address, nwAddress, options := ReceiveRxFields();
      ghost var fields := rxChecksum;
      var data := ReceivePayload(count);
      ghost var payload := rxChecksum;
      var valid := RxChecksumIsValid();
      var frame := RxFrame(size, address, nwAddress, options, data);
      RxStepReads(size, q, frame, fields, payload, rxChecksum, valid);
      if valid {
        delivered := delivered + [frame];
      }
      RxEventsEffect(if valid then Some(frame) else None, atHandlers[..]);
    }

    /** The fixed fields of `_receive_rx`: frame type, 64-bit and 16-bit address, options. */
    method ReceiveRxFields() returns (address: Uint64, nwAddress: Uint16, options: Byte)
      requires Valid() && |rx.contents| >= RX_OVERHEAD
      modifies rx`head, rx`contents, this`rxChecksum
      ensures Valid()
      ensures address == BeValue(old(rx.contents)[1..9])
      ensures nwAddress == BeValue(old(rx.contents)[9..11])
      ensures options == old(rx.contents)[11]
      ensures rx.contents == old(rx.contents)[RX_OVERHEAD..]
      ensures rxChecksum == (old(rxChecksum) + Sum(old(rx.contents)[..RX_OVERHEAD])) % 256
    {
      ghost var q := rx.contents;
      ghost var t0 := rxChecksum;
      var _ := ReceiveByte();
      ghost var t1 := rxChecksum;
      assert rx.contents == q[1..] && q[1..][..8] == q[1..9];
      address := ReceiveAddress();
      assert rx.contents == q[9..] && q[9..][..2] == q[9..11];
      ghost var t9 := rxChecksum;
      nwAddress := ReceiveNwAddress();
      assert rx.contents == q[11..];
      ghost var t11 := rxChecksum;
      options := ReceiveByte();
      RxFieldsSum(q, t0, t1, t9, t11, rxChecksum);
    }

    /** The 16-bit network address of `_receive_rx`, `(msb << 8) | lsb`, with the MSB
        read first and the shift taken without overflow, as intended (NwAddressAsWritten
        gives both evaluation orders and the `int` shift as written). */
    method ReceiveNwAddress() returns (nwAddress: Uint16)
      requires Valid() && |rx.contents| >= 2
      modifies rx`head, rx`contents, this`rxChecksum
      ensures Valid()
      ensures nwAddress == BeValue(old(rx.contents)[..2])
      ensures rx.contents == old(rx.contents)[2..]
      ensures rxChecksum == (old(rxChecksum) + Sum(old(rx.contents)[..2])) % 256
    {
      ghost var q := rx.contents;
      var hi := ReceiveByte();
      var lo := ReceiveByte();
      nwAddress := hi as int * 256 + lo;
      BeValuePair(hi, lo);
      assert q[..2] == [hi, lo];
      SumOfBytes(hi, lo, 0, 0);
      AddTwoMod(old(rxChecksum), old(rxChecksum), hi, lo);
    }

    /** `_receive_at(size)`: reads the response under a fresh checksum and calls the
        handler registered under its frame id when the checksum holds, as AtStep
        describes. */
    method ReceiveAt(size: nat)
      requires Valid() && |rx.contents| >= AtReadCount(size)
      modifies rx`head, rx`contents, this`rxChecksum, this`atCalls, this`aiResponse
      ensures Valid()
      ensures rx.contents == AtStep(size, old(rx.contents)).rest
      ensures atCalls == old(atCalls) + Calls(AtStep(size, old(rx.contents)).events, atHandlers[..])
      ensures aiResponse == AiAfter(old(aiResponse), Calls(AtStep(size, old(rx.contents)).events, atHandlers[..]))
    {
      ghost var q := rx.contents;
      ghost var n := AtReadCount(size);
      var id, status, data := ReceiveAtFields(size);
      var valid := RxChecksumIsValid();
      SumPrefixMod(q, n - 1);
      ghost var reply := if valid then Some(AtReply(id, status, data)) else None;
      assert AtStep(size, q) == Advance(AtEvents(reply), rx.contents);
      if valid {
        CallAtHandler(id, status, data);
      }
      AtEventsEffect(reply, atHandlers[..]);
    }

    /** The reads of `_receive_at` under a fresh checksum, up to the checksum byte: frame
        type, id, the two command letters, status and, when `size - 5 > 0`, one data byte. */
    method ReceiveAtFields(size: nat) returns (id: Byte, status: Byte, data: Byte)
      requires Valid() && |rx.contents| >= AtReadCount(size)
      modifies rx`head, rx`contents, this`rxChecksum
      ensures Valid()
      ensures id == old(rx.contents)[1] && status == old(rx.contents)[4]
      ensures data == if size > 5 then old(rx.contents)[5] else 0
      ensures rx.contents == old(rx.contents)[AtReadCount(size) - 1..]
      ensures rxChecksum == Sum(old(rx.contents)[..AtReadCount(size) - 1]) % 256
    {
      ghost var q := rx.contents;
      rxChecksum := 0;
      id, status := ReceiveAtHeader();
      data := 0;
      if size > 5 {
        data := ReceiveByte();
        assert q[5..][1..] == q[6..];
        RunningSumByte(0, q[..5], data);
        assert q[..6] == q[..5] + [data];
      }
    }

    /** The five fixed reads of `_receive_at`: frame type, id, the two command letters and
        status, added to the running checksum. */
    method ReceiveAtHeader() returns (id: Byte, status: Byte)
      requires Valid() && |rx.contents| >= 6 && rxChecksum == 0
      modifies rx`head, rx`contents, this`rxChecksum
      ensures Valid()
      ensures id == old(rx.contents)[1] && status == old(rx.contents)[4]
      ensures rx.contents == old(rx.contents)[5..]
      ensures rxChecksum == Sum(old(rx.contents)[..5]) % 256
    {
      ghost var q := rx.contents;
      var frameType := ReceiveByte();
      id := ReceiveByte();
      var ch1 := ReceiveByte();
      var ch2 := ReceiveByte();
      status := ReceiveByte();
      ChecksumOfFive(frameType, id, ch1, ch2, status);
      assert q[..5] == [frameType, id, ch1, ch2, status];
    }

    /** The call `(*(at_handlers[id]))(status, data)`, skipping an id that holds no
        handler (see CallsAsWritten): the call is logged and, for the AI handler, runs
        `_handle_ai_response`. */
    method CallAtHandler(id: Byte, status: Byte, data: Byte)
      requires Valid()
      modifies this`atCalls, this`aiResponse
      ensures atCalls == old(atCalls) + Calls(AtEvents(Some(AtReply(id, status, data))), atHandlers[..])
      ensures aiResponse == AiAfter(old(aiResponse), Calls(AtEvents(Some(AtReply(id, status, data))), atHandlers[..]))
    {
      AtEventsEffect(Some(AtReply(id, status, data)), atHandlers[..]);
      var handler := atHandlers[id];
      if handler != Null {
        var call := AtCall(handler, status, data);
        AiAfterOne(aiResponse, call);
        atCalls := atCalls + [call];
        if handler == AiHandler {
          HandleAiResponse(status, data);
        }
      }
    }

    /** `_handle_ai_response`: an OK answer to AI sets `ai_response` to the reported value. */
    method HandleAiResponse(status: Byte, response: Byte)
      modifies this`aiResponse
      ensures status == AT_OK ==> aiResponse == response
      ensures status != AT_OK ==> aiResponse == old(aiResponse)
    {
      if status == AT_OK {
        aiResponse := response;
      }
    }

    /** `_receive_modem`: type and status under a fresh checksum, then the checksum; the
        verdict only decides a debug message. */
    method ReceiveModem()
      requires Valid() && |rx.contents| >= MODEM_READ_COUNT
      modifies rx`head, rx`contents, this`rxChecksum
      ensures Valid()
      ensures rx.contents == ModemStep(old(rx.contents)).rest
    {
      rxChecksum := 0;
      var _ := ReceiveByte();
      var _ := ReceiveByte();
      var _ := RxChecksumIsValid();
    }

    /** The resynchronising loop of `xbee_receive`: drop bytes until a start delimiter
        is next or nothing is left. */
    method SkipToFrameStart()
      requires Valid()
      modifies rx`head, rx`contents, this`rxChecksum
      ensures Valid()
      ensures rx.contents == SkipToStart(old(rx.contents))
    {
      while rx.DataAvailable() && rx.Peek() != START
        invariant Valid()
        invariant SkipToStart(rx.contents) == SkipToStart(old(rx.contents))
        decreases |rx.contents|
      {
        var _ := ReceiveByte();
      }
    }

    /** One frame of `xbee_receive` from its start delimiter: the length field, the
        peeked type and the decoder it selects, as StepAt describes. */
    method ReceiveFrame()
      requires Valid() && rx.contents != [] && rx.contents[0] == START
      requires StepAt(rx.contents).Advance?
      modifies rx`head, rx`contents, this`rxChecksum, this`delivered, this`atCalls, this`aiResponse
      ensures Valid()
      ensures rx.contents == StepAt(old(rx.contents)).rest
      ensures delivered == old(delivered) + Deliveries(StepAt(old(rx.contents)).events)
      ensures atCalls == old(atCalls) + Calls(StepAt(old(rx.contents)).events, atHandlers[..])
      ensures aiResponse == AiAfter(old(aiResponse), Calls(StepAt(old(rx.contents)).events, atHandlers[..]))
    {
      ghost var t := rx.contents;
      var _ := ReceiveByte();
      var msb := ReceiveByte();
      var lsb := ReceiveByte();
      var size: nat := msb as int * 256 + lsb;
      BeValuePair(msb, lsb);
      assert t[1..3] == [msb, lsb];
      assert rx.contents == t[3..];
      assert StepAt(t) == FrameStep(size, t[3..]);
      ReceiveBody(size);
    }

    /** The switch of `xbee_receive` on the peeked frame type, as FrameStep describes:
        RX packets, AT responses and modem status frames go to their decoders; any
        other type, the start delimiter included, is left where it is. */
    method ReceiveBody(size: nat)
      requires Valid() && rx.contents != [] && FrameStep(size, rx.contents).Advance?
      modifies rx`head, rx`contents, this`rxChecksum, this`delivered, this`atCalls, this`aiResponse
      ensures Valid()
      ensures rx.contents == FrameStep(size, old(rx.contents)).rest
      ensures delivered == old(delivered) + Deliveries(FrameStep(size, old(rx.contents)).events)
      ensures atCalls == old(atCalls) + Calls(FrameStep(size, old(rx.contents)).events, atHandlers[..])
      ensures aiResponse == AiAfter(old(aiResponse), Calls(FrameStep(size, old(rx.contents)).events, atHandlers[..]))
    {
      ghost var body := rx.contents;
      var frameType := rx.Peek();
      if frameType == RX_PACKET {
        RxEventsEffect(DecodeRx(size, body[..RxReadCount(size)]), atHandlers[..]);
        ReceiveRx(size);
      } else if frameType == AT_RESPONSE {
        AtEventsEffect(DecodeAt(size, body[..AtReadCount(size)]), atHandlers[..]);
        ReceiveAt(size);
      } else if frameType == MODEM_STATUS {
        ReceiveModem();
      }
    }

    /** `xbee_receive`: frames are read until the buffer is empty; every RX packet and
        AT response among the waiting bytes takes effect in order, as Dispatch
        describes. The blocking reads of the source become the precondition that the
        waiting bytes hold whole frames. */
    method Receive()
      requires Valid() && Dispatch(rx.contents).Some?
      modifies rx`head, rx`contents, this`rxChecksum, this`delivered, this`atCalls, this`aiResponse
      ensures Valid()
      ensures rx.contents == []
      ensures delivered == old(delivered) + Deliveries(Dispatch(old(rx.contents)).value)
      ensures atCalls == old(atCalls) + Calls(Dispatch(old(rx.contents)).value, atHandlers[..])
      ensures aiResponse == AiAfter(old(aiResponse), Calls(Dispatch(old(rx.contents)).value, atHandlers[..]))
    {
      ghost var table := atHandlers[..];
      ghost var target := Apply(Effects(delivered, atCalls, aiResponse), Dispatch(rx.contents).value, table);
      while rx.DataAvailable()
        invariant Valid() && Dispatch(rx.contents).Some?
        invariant atHandlers[..] == table
        invariant Apply(Effects(delivered, atCalls, aiResponse), Dispatch(rx.contents).value, table) == target
        decreases |rx.contents|
      {
        ghost var s := rx.contents;
        DispatchUnfold(s);
        ApplyAppend(Effects(delivered, atCalls, aiResponse), PassEvents(s), Dispatch(PassRest(s)).value, table);
        ReceivePass();
      }
      ApplyNothing(Effects(delivered, atCalls, aiResponse), table);
    }

    /** One pass of the outer loop of `xbee_receive`: skip to a start delimiter and,
        when one is there, read its frame (when none is, the source breaks out of the
        loop, which then has nothing left to read anyway). */
    method ReceivePass()
      requires Valid() && rx.contents != [] && !Step(rx.contents).Stall?
      modifies rx`head, rx`contents, this`rxChecksum, this`delivered, this`atCalls, this`aiResponse
      ensures Valid()
      ensures rx.contents == PassRest(old(rx.contents))
      ensures delivered == old(delivered) + Deliveries(PassEvents(old(rx.contents)))
      ensures atCalls == old(atCalls) + Calls(PassEvents(old(rx.contents)), atHandlers[..])
      ensures aiResponse == AiAfter(old(aiResponse), Calls(PassEvents(old(rx.contents)), atHandlers[..]))
    {
      PassFromSkip(rx.contents);
      SkipToFrameStart();
      if rx.DataAvailable() {
        ReceiveFrame();
      }
    }

    // -------------------------------------------------------------------------
    // Association

    /** `_check_ai`: the AI answer is reset to "scanning" and an AI command goes out
        with the AI handler registered under its frame id. */
    method CheckAi()
      requires Valid()
      modifies this`uart, this`txChecksum, this`atHandlerId, atHandlers, this`aiResponse
      ensures aiResponse == AI_SCANNING
      ensures atHandlers[..] == old(atHandlers[..])[AllocatedId(old(atHandlerId)) := AiHandler]
      ensures uart == old(uart) + AtCommandBytes(AllocatedId(old(atHandlerId)), 'A' as Byte, 'I' as Byte)
      ensures atHandlerId == NextCounter(old(atHandlerId))
    {
      aiResponse := AI_SCANNING;
      SendAt('A' as Byte, 'I' as Byte, AiHandler);
    }

    /** `_ai_success`: never while the "scanning" value `_check_ai` sets is in place. */
    function AiSuccess(): (joined: bool)
      reads this
      ensures joined ==> aiResponse != AI_SCANNING
    {
      aiResponse == AI_SUCCESS
    }

    /** The receive interrupt firing once for each byte of `bytes`, in order. */
    method Arrive(bytes: seq<Byte>)
      requires Valid()
      modifies rx`tail, rx`contents, rx.buffer
      ensures Valid()
      ensures rx.contents == AfterPushes(old(rx.contents), bytes)
    {
      var i := 0;
      while i < |bytes|
        invariant 0 <= i <= |bytes| && Valid()
        invariant rx.contents == AfterPushes(old(rx.contents), bytes[..i])
      {
        assert bytes[..i + 1][..i] == bytes[..i];
        rx.Push(bytes[i]);
        i := i + 1;
      }
      assert bytes[..|bytes|] == bytes;
    }

    /** One round of `xbee_wait_for_association`: the AI command goes out, `bytes`
        arrive during the wait, and `xbee_receive` reads everything. The AI answer is
        then what the AI replies among those bytes make of "scanning". */
    method AssociationAttempt(bytes: seq<Byte>) returns (associated: bool)
      requires Valid() && Dispatch(AfterPushes(rx.contents, bytes)).Some?
      modifies this`uart, this`txChecksum, this`atHandlerId, atHandlers, this`aiResponse
      modifies rx`tail, rx`head, rx`contents, rx.buffer, this`rxChecksum, this`delivered, this`atCalls
      ensures Valid() && rx.contents == []
      ensures uart == old(uart) + AtCommandBytes(AllocatedId(old(atHandlerId)), 'A' as Byte, 'I' as Byte)
      ensures atHandlerId == NextCounter(old(atHandlerId))
      ensures atHandlers[..] == old(atHandlers[..])[AllocatedId(old(atHandlerId)) := AiHandler]
      ensures atHandlers[AllocatedId(old(atHandlerId))] == AiHandler
      ensures delivered == old(delivered) + Deliveries(Dispatch(AfterPushes(old(rx.contents), bytes)).value)
      ensures atCalls == old(atCalls) + Calls(Dispatch(AfterPushes(old(rx.contents), bytes)).value, atHandlers[..])
      ensures aiResponse == AiAfter(AI_SCANNING, Calls(Dispatch(AfterPushes(old(rx.contents), bytes)).value, atHandlers[..]))
      ensures associated <==> aiResponse == AI_SUCCESS
    {
      ghost var id, before := AllocatedId(atHandlerId), rx.contents;
      CheckAi();
      ghost var table := atHandlers[..];
      assert table[id] == AiHandler;
      Arrive(bytes);
      assert rx.contents == AfterPushes(before, bytes);
      Receive();
      assert atHandlers[..] == table;
      associated := AiSuccess();
    }

    /** `xbee_wait_for_association`, with `arrivals[k]` the bytes that arrive during
        round k: rounds (AssociationAttempt) go on until the AI answer reports success
        or the rounds run out. Each round sends one AI command under the next frame id
        and registers the AI handler under it; the frames delivered, the AT handler
        calls and the AI answer are those of the rounds run, in order, and the number
        of rounds run is RoundsRun: the wait stops at the first successful answer. */
    method WaitForAssociation(arrivals: seq<seq<Byte>>) returns (associated: bool, rounds: nat)
      requires Valid() && |arrivals| > 0
      requires Dispatch(AfterPushes(rx.contents, arrivals[0])).Some?
      requires forall k :: 1 <= k < |arrivals| ==> Dispatch(AfterPushes([], arrivals[k])).Some?
      modifies this`uart, this`txChecksum, this`atHandlerId, atHandlers, this`aiResponse
      modifies rx`tail, rx`head, rx`contents, rx.buffer, this`rxChecksum, this`delivered, this`atCalls
      ensures Valid() && rx.contents == []
      ensures 1 <= rounds <= |arrivals|
      ensures associated <==> aiResponse == AI_SUCCESS
      ensures !associated ==> rounds == |arrivals|
      ensures uart == old(uart) + AiCommands(old(atHandlerId), rounds)
      ensures atHandlerId == CounterAfter(old(atHandlerId), rounds)
      ensures atHandlers[..] == TableAfterRounds(old(atHandlers[..]), old(atHandlerId), rounds)
      ensures atHandlers[AllocatedId(CounterAfter(old(atHandlerId), rounds - 1))] == AiHandler
      ensures Effects(delivered, atCalls, aiResponse)
           == RoundsEffects(Effects(old(delivered), old(atCalls), old(aiResponse)),
                            RoundsEvents(old(rx.contents), arrivals), old(atHandlers[..]), old(atHandlerId), rounds)
      ensures rounds == RoundsRun(Effects(old(delivered), old(atCalls), old(aiResponse)),
                                  RoundsEvents(old(rx.contents), arrivals), old(atHandlers[..]), old(atHandlerId), 1)
    {
      ghost var u0, c, q0, t0 := uart, atHandlerId, rx.contents, atHandlers[..];
      ghost var e0 := Effects(delivered, atCalls, aiResponse);
      ghost var events := RoundsEvents(q0, arrivals);
      AiCommandsNext(u0, c, 0, uart);
      associated := AssociationAttempt(arrivals[0]);
      rounds := 1;
      while !associated && rounds < |arrivals|
        invariant Valid() && rx.contents == []
        invariant 1 <= rounds <= |arrivals|
        invariant associated <==> aiResponse == AI_SUCCESS
        invariant uart == u0 + AiCommands(c, rounds)
        invariant atHandlerId == CounterAfter(c, rounds)
        invariant atHandlers[..] == TableAfterRounds(t0, c, rounds)
        invariant Effects(delivered, atCalls, aiResponse) == RoundsEffects(e0, events, t0, c, rounds)
        invariant RoundsRun(e0, events, t0, c, rounds) == RoundsRun(e0, events, t0, c, 1)
      {
        assert AnswerAfter(e0, events, t0, c, rounds) == aiResponse != AI_SUCCESS;
        AiCommandsNext(u0, c, rounds, uart);
        assert RoundBytes(q0, arrivals, rounds) == AfterPushes([], arrivals[rounds]);
        assert events[rounds] == RoundEvents(q0, arrivals, rounds);
        associated := AssociationAttempt(arrivals[rounds]);
        rounds := rounds + 1;
      }
    }
  }
}
