# XBee frame engine, GPS and WiFi serial drivers — a Dafny model

This project models the serial side of an AVR sensor node:

- **The XBee ZigBee driver** (`xbee.c`) runs in API mode. Every frame is a 0x7E start delimiter, a 16-bit big-endian length, a body whose first byte is the frame type, and a checksum byte. The checksum is 0xFF minus the low byte of the body's sum.
  - `xbee_send` writes a transmit request.
  - `_send_at` writes an AT command under a frame id taken from an 8-bit counter that skips 0. It stores the caller's response handler in a table indexed by that id.
  - A receive interrupt feeds a cyclic buffer with 8-bit indices (255 slots as declared, 256 in the model).
  - `xbee_receive` resynchronises on the delimiter, reads the length, peeks the type and dispatches:
    - RX packets go to the RX handler;
    - AT responses go to the handler stored under their id;
    - modem status frames are read and dropped.
  - Every decoder keeps a running 8-bit checksum and acts only when it ends at 0xFF.
  - `xbee_wait_for_association` repeats "send AI, read the answers" until the AI answer reports that the node has joined.
- **The GPS driver** (`gps.c`) has the same kind of buffer. `gps_receive` hands every buffered byte to the NMEA parser.
- **The WiFi driver** (`wifi.c`) has the same kind of buffer and a byte-at-a-time transmitter. Each byte raises `tx_in_progress` until the transmit-complete interrupt clears it. `wifi_send_cmd` writes a command followed by CR LF.

The files:

| file | module | what it holds |
|---|---|---|
| `bytes.dfy` | `Bytes` | bytes, 8-bit sums and the checksum, big-endian encoding and decoding |
| `ring.dfy` | `Ring` | the cyclic buffer as a class over an array, its queue semantics, and the buffer as written |
| `frames.dfy` | `Frames` | API frame constants and the frame encoders, with layout lemmas |
| `incoming.dfy` | `Incoming` | what `xbee_receive` does with the waiting bytes, as pure functions, with round-trip and rejection lemmas |
| `xbee.dfy` | `Xbee` | the driver as a class whose methods are proved against those functions, plus the members modelling the code as written |
| `gps.dfy` | `Gps` | the GPS receive driver |
| `wifi.dfy` | `Wifi` | the WiFi driver and its command-line framing |

Modelling choices:

- **Hardware.** The data registers become the sequences `uart` (bytes written) and the buffer's pushes (bytes received). The interrupts become methods (`Push`, `RxInterrupt`, `TxComplete`), and a scenario calls them where the hardware would fire them.
- **Blocking reads.** The source spins until a byte is there. The model states this as a precondition: `Receive` requires that the waiting bytes hold whole frames (`Dispatch(...).Some?`).
- **Callbacks.** The RX handler and the AT handlers are outside the model. The driver records what it hands them (`delivered`, `atCalls`). `_handle_ai_response` is modelled in full.
- **Constants.** The frame constants (0x7E, 0x10, 0x08, 0x90, 0x88, 0x8A, AT status OK 0, AI joined 0, AI scanning 0xFF) are the Digi API values. The source uses them by name without defining them in any file of this model.
- **Corrections.** Where the code as written goes wrong, the model states it both ways; see "## Findings". The rest of the model uses the corrected behaviour:
  - a 256-slot buffer and handler table;
  - a 16-bit `size`;
  - an address loop that runs eight times from zero, with each byte shifted on 64 bits;
  - the MSB read first in the length and network-address reads, with the `<< 8` taken without overflow;
  - `int` payload counters;
  - a reply to an unregistered id is dropped.
- **Behaviour the code does not have, and the model does not add:**
  - An unknown frame type is not skipped by its declared length. Only the delimiter and length are consumed, and the next pass resynchronises on the next 0x7E. `UnknownFrameSkipped` states when that is harmless.
  - The buffer has no overflow policy. The 256th unread byte silently empties the reader's view (`AfterPush`, `UnreadAfterDeliveries`).
  - Frame ids run 1–255, not 1–254.

## Model

| member | source | states |
|---|---|---|
| Bytes.Checksum | xbee.c:314-316 | the byte `_send_checksum` writes completes the body's sum to 0xFF modulo 256 |
| Bytes.ChecksumCompletes | xbee.c:314-316 | appending `0xFF - tx_checksum` to a body brings its sum to 0xFF modulo 256 |
| Bytes.ChangedByteBreaksChecksum | xbee.c:318-326 | if a body sums to 0xFF, changing any single byte makes the sum miss 0xFF; every one-byte corruption fails `_rx_checksum_isvalid` |
| Bytes.BeValueOfBeBytes | xbee.c:89-93 | writing a value that fits in n bytes most significant byte first, then reading the bytes back, gives the value |
| Bytes.BeBytesOfBeValue | xbee.c:173-176 | reading n bytes most significant byte first, then writing the value back in n bytes, gives the same bytes |
| Ring.AfterPush | xbee.c:357-359 | the 8-bit `tail - head` after the store is the old count plus one modulo 256: a push onto 255 unread bytes leaves the reader seeing none |
| Ring.PushKeepsNewest | xbee.c:357-359 | what the reader sees after a push is the newest part of the old unread bytes followed by the stored byte: a suffix of `q + [b]` of that length |
| Ring.CyclicBuffer.constructor | xbee.c:352-354 | head and tail start at 0, nothing is unread, and the invariant tying the array to the queue holds |
| Ring.CyclicBuffer.Count | xbee.c:377-379 | the 8-bit `tail - head` is below 256 and is 0 exactly when the indices are equal |
| Ring.CyclicBuffer.DataAvailable | xbee.c:377-379 | `_data_available` (also gps.c:27-29 and wifi.c:46-48) is true iff `head != tail` iff some byte is unread |
| Ring.CyclicBuffer.Peek | xbee.c:371-375 | returns the oldest unread byte and changes nothing |
| Ring.CyclicBuffer.Push | xbee.c:357-359 | the interrupt (also gps.c:23-25 and wifi.c:42-44) writes the byte at `tail`, moves `tail` on by one modulo 256, keeps the invariant, and the queue becomes `AfterPush` of the old queue |
| Ring.CyclicBuffer.Pop | gps.c:32-35 | `_receive_byte` (also wifi.c:51-54 and xbee.c:362-368) returns the oldest unread byte, moves `head` on by one modulo 256, and the queue loses its first byte |
| Ring.ReplayIsFifo | gps.c:23-35 | for any run of interrupts and reads that never fills the buffer, the bytes read followed by those still unread are the bytes unread at the start followed by the bytes delivered, in delivery order |
| Ring.AfterPushesBelowCapacity | wifi.c:42-44 | deliveries that keep at most 255 bytes unread are appended in order, and none is lost |
| Ring.UnreadAfterDeliveries | xbee.c:342-359 | overflow goes undetected: after n deliveries into an empty buffer, only the last `n mod 256` bytes are visible |
| Ring.StoreAsWritten | xbee.c:352-358 | the store into the 0xFF-element array as written is defined exactly when `tail < 255`, and then it writes the byte at `tail` |
| Ring.StoresAsWrittenOverrun | xbee.c:352-358 | from `tail == 0`, the first 255 deliveries stay inside the array as written and leave `tail` equal to their count; the 256th delivery does not |
| Frames.WireFrameShape | xbee.c:130-134 | a framed body starts with 0x7E, its two length bytes read back as the body's length, the body follows, and body plus checksum sum to 0xFF |
| Frames.TxFields | xbee.c:79-81 | the fixed part of a TX request is the 14 bytes of protocol overhead |
| Frames.TxFrameLayout | xbee.c:76-107 | a TX request is 18 bytes plus the payload length. The length field is the payload length plus 14 (MSB, LSB), followed by type 0x10, the id, the address and network address (both decode back to the frame's values), radius, options and the payload; body plus checksum sum to 0xFF |
| Frames.AtCommandLayout | xbee.c:240-253 | an AT command frame is `7E 00 04 08 id ch1 ch2 cs`, and `cs` completes the four body bytes to 0xFF |
| Incoming.SkipToStart | xbee.c:120-122 | the resynchronising loop leaves a suffix of the input that is empty or starts with 0x7E, and none of the bytes it dropped is 0x7E |
| Incoming.SkipPastGarbage | xbee.c:120-122 | bytes without a 0x7E in front of the input make no difference to where resynchronisation stops |
| Incoming.DecodeRx | xbee.c:167-200 | `_receive_rx` builds a frame from the bytes it read exactly when they sum to 0xFF |
| Incoming.DecodeAt | xbee.c:262-278 | `_receive_at` passes a reply on exactly when the bytes it read sum to 0xFF |
| Incoming.RxStep | xbee.c:161-201 | `_receive_rx` consumes a non-empty prefix of what follows the length field, leaving the rest unread |
| Incoming.AtStep | xbee.c:259-279 | `_receive_at` consumes a non-empty prefix of what follows the length field, leaving the rest unread |
| Incoming.ModemStep | xbee.c:283-299 | `_receive_modem` consumes a non-empty prefix (type, status, checksum), leaving the rest unread |
| Incoming.FrameStep | xbee.c:134-145 | the switch on the peeked type never reads past what follows the length field |
| Incoming.StepAt | xbee.c:130-134 | a pass from a delimiter consumes at least the delimiter and leaves a suffix |
| Incoming.Step | xbee.c:117-146 | every pass of the outer loop that does not block makes progress; the bytes it leaves are a strict suffix |
| Incoming.StepSkipsGarbage | xbee.c:117-122 | bytes without a 0x7E in front of the input do not change what a pass does |
| Incoming.DispatchUnfold | xbee.c:117-146 | on bytes holding whole frames, the first pass does not block; the dispatch is that pass's events followed by the dispatch of the bytes it leaves, which again hold whole frames |
| Incoming.PassRest | xbee.c:117-146 | each pass shrinks the unread bytes, so the outer loop ends |
| Incoming.PassFromSkip | xbee.c:120-134 | a pass is the skip to a delimiter followed by the frame read from there; when no delimiter is found, nothing happens and nothing is left |
| Incoming.DispatchSkipsGarbage | xbee.c:120-122 | garbage without a 0x7E before the next frame is dropped without effect |
| Incoming.Dispatch | xbee.c:115-148 | `xbee_receive` as the events of its passes in order, or None where a read would block; bytes without a 0x7E (the `break` at xbee.c:124-128) make nothing happen |
| Incoming.RxPacketDelivered | xbee.c:161-200 | round trip: a well-formed RX packet from the radio reaches the RX handler with its address, network address, options and payload, and its length field as `size` |
| Incoming.CorruptRxPacketDropped | xbee.c:188-191 | changing any byte of an RX packet after its type byte makes the checksum fail, and the handler is not called |
| Incoming.UnknownFrameSkipped | xbee.c:141-145 | after a frame of unknown type whose body and checksum contain no 0x7E, the next frame is dispatched as if it came alone |
| Incoming.AtResponseReplied | xbee.c:259-278 | round trip: an AT response with at most one data byte reaches the handler lookup with its id, status and data byte (0 when there is none) |
| Incoming.TwoByteAtDataLost | xbee.c:272-274 | an AT response carrying two data bytes loses its reply (unless its checksum byte is 0) because only one data byte is read; the leftover byte is then skipped |
| Incoming.UnregisteredReplyCallsNull | xbee.c:276-278 | a valid reply whose id holds no handler is called through the null entry as written, and is dropped by the corrected dispatcher |
| Incoming.CallsAgreeWhenRegistered | xbee.c:276-278 | when every reply's id is registered, dropping unregistered ones changes no call |
| Incoming.CallsAsWritten | xbee.c:277 | the handler calls as written, one per valid reply: never fewer than the corrected dispatcher makes |
| Incoming.AiUpdate | xbee.c:216-221 | `ai_response` changes only on an OK status, and then to the reported value |
| Incoming.AiAnswerSetsResponse | xbee.c:216-220 | with the AI handler under `id`: an OK answer to AI sets `ai_response` to the reported value; any other status leaves "scanning" |
| Xbee.AllocatedId | xbee.c:235 | the frame id used is never 0, and a non-zero counter is used unchanged |
| Xbee.NextCounter | xbee.c:255 | `at_handler_id` after a command is never 1, and is 0, which the next command skips, exactly after id 255 |
| Xbee.IdsCycle | xbee.c:234-255 | the k-th AT command after counter c uses id `(AllocatedId(c) - 1 + k) mod 255 + 1`; ids cycle through 1..255 |
| Xbee.PendingIdsDistinct | xbee.c:228-238 | any 255 consecutive AT commands get pairwise distinct ids, so a handler is not overwritten before 255 more commands |
| Xbee.AiCommandOfRound | xbee.c:66-73 | in the bytes n association rounds send, round k is the AI command frame under the k-th allocated id |
| Xbee.StoreHandlerAsWritten | xbee.c:229-238 | the store into the 0xFF-entry table as written is defined exactly when `id < 255` |
| Xbee.HandlerStoreOverrun | xbee.c:229-238 | from reset, the 255th AT command (and every 255th after it) gets id 255, and its handler is stored past the end of the table as written |
| Xbee.SizeAsWritten | xbee.c:133 | the 8-bit `size` is the 16-bit length modulo 256 when the left call is evaluated first, and the MSB when the right one is |
| Xbee.SizeAsWrittenWrong | xbee.c:133 | the size as written equals the length iff the length is below 256 (left first), or iff it is 0 (right first) |
| Xbee.ShiftAfterWraps | xbee.c:174 | the `uint8_t` counter of the address loop has period 32 and is 248 after the eighth byte, so `i >= 0` never fails |
| Xbee.AddressAsWritten | xbee.c:164-176 | OR-ing the eight bytes into the uninitialised `address` keeps every bit the local held |
| Xbee.ShiftAsWritten | xbee.c:175 | `_receive_byte() << i` on the 16-bit `int` the byte is promoted to: when defined, at most 0x7FFF, a multiple of `2^i`, and `2^i` times the byte |
| Xbee.AddressShiftsUndefined | xbee.c:174-176 | of the eight shifts, only the one by 0 and (for a byte below 0x80) the one by 8 are defined; the first, by 56, never is, so no address is read right as written |
| Xbee.NwAddressAsWritten | xbee.c:179 | `nw_address` for either evaluation order of the two unsequenced reads, with the `int` shift; when defined, at most 0x7FFF |
| Xbee.NwAddressAsWrittenWrong | xbee.c:179 | read left to right, the network address is right iff its high byte is below 0x80; read right to left, only for two equal bytes below 0x80 (0x1234 becomes 0x3412) |
| Xbee.AddressAsWrittenKeepsGarbage | xbee.c:164-176 | OR-ing the bytes into the uninitialised `address` reads an all-zero address as whatever the local held |
| Xbee.Int8AfterFormula | xbee.c:184 | the `int8_t` counter after k increments is `(k + 128) mod 256 - 128` |
| Xbee.Int8CounterNeverReaches | xbee.c:184-186 | the `int8_t` counter goes from 127 to -128 and then repeats with period 256, so for a payload of 128 bytes or more it never reaches `size` (likewise xbee.c:103) |
| Xbee.RxStepReads | xbee.c:161-201 | the values `_receive_rx` reads and the checksum stages it passes through are the frame and the verdict that RxStep describes |
| Xbee.Radio.constructor | xbee.c:303-304 | after reset: empty buffer, null handler table, zero checksums and counter, nothing sent or delivered |
| Xbee.Radio.SendByte | xbee.c:332-336 | the byte goes out and is added to the 8-bit `tx_checksum` |
| Xbee.Radio.SendChecksum | xbee.c:314-316 | writes `0xFF - tx_checksum`, after which the running sum is 0xFF |
| Xbee.Radio.Send | xbee.c:76-110 | `xbee_send` writes exactly the TX request frame of `f` (see TxFrameLayout) |
| Xbee.Radio.SendTxFields | xbee.c:83-100 | writes type, id, address, network address, radius and options, and adds their sum to the checksum |
| Xbee.Radio.SendAddress | xbee.c:89-93 | the loop `i = 56..8` followed by the low byte writes the 8 big-endian address bytes, and the checksum takes them in |
| Xbee.Radio.SendPayload | xbee.c:102-105 | writes the payload bytes in order, and the checksum takes them in |
| Xbee.Radio.SendAt | xbee.c:234-256 | stores the handler under the allocated id (leaving the rest of the table alone), writes the AT command frame under that id, and advances the counter |
| Xbee.Radio.SendAtFrame | xbee.c:240-253 | writes `7E 00 04 08 id ch1 ch2 cs`, ending with the running checksum at 0xFF |
| Xbee.Radio.ReceiveByte | xbee.c:362-368 | returns the oldest unread byte, drops it from the queue, and adds it to `rx_checksum` |
| Xbee.Radio.RxChecksumIsValid | xbee.c:318-326 | reads one more byte; the verdict is true iff the running sum is then 0xFF |
| Xbee.Radio.ReceiveAddress | xbee.c:173-176 | eight reads give the big-endian value of the next 8 bytes, as the loop computes with `address` starting at 0, the counter stopping after 0 and the shift taken on 64 bits; the checksum takes the bytes in |
| Xbee.Radio.ReceivePayload | xbee.c:183-186 | reads the next `count` bytes into the payload, in order |
| Xbee.Radio.ReceiveRx | xbee.c:161-201 | consumes what RxStep consumes and hands the RX handler the frame RxStep decodes, only when the checksum holds |
| Xbee.Radio.ReceiveRxFields | xbee.c:169-181 | reads type, address, network address and options; returns the decoded fields and adds their bytes to the checksum |
| Xbee.Radio.ReceiveNwAddress | xbee.c:178-179 | `msb * 256 + lsb` of the next two bytes, the value of `(msb << 8) OR lsb` with the MSB read first and no overflow in the shift |
| Xbee.Radio.ReceiveAt | xbee.c:259-279 | consumes what AtStep consumes and, when the checksum holds and the id is registered, calls that handler (updating `ai_response` for the AI handler) |
| Xbee.Radio.ReceiveAtFields | xbee.c:264-275 | returns id, status and the data byte (0 unless `size > 5`), consuming 6 or 7 bytes and summing them |
| Xbee.Radio.ReceiveAtHeader | xbee.c:266-270 | reads type, id, both command letters and status, and returns id and status |
| Xbee.Radio.CallAtHandler | xbee.c:277 | records the call to the id's handler (none for an empty entry); for the AI handler, applies `_handle_ai_response` |
| Xbee.Radio.HandleAiResponse | xbee.c:216-221 | `ai_response` takes the reported value iff the status is OK |
| Xbee.Radio.ReceiveModem | xbee.c:283-299 | consumes the type, status and checksum bytes, and nothing else happens |
| Xbee.Radio.SkipToFrameStart | xbee.c:120-122 | the unread bytes become `SkipToStart` of what was unread |
| Xbee.Radio.ReceiveFrame | xbee.c:130-134 | reads the delimiter and the 16-bit length (MSB first), then the body, with the effects StepAt describes |
| Xbee.Radio.ReceiveBody | xbee.c:134-145 | dispatches on the peeked type, with the effects FrameStep describes; any other type consumes nothing more |
| Xbee.Radio.Receive | xbee.c:115-148 | empties the buffer; the frames delivered, the AT handler calls and the AI answer are exactly those Dispatch gives for the bytes waiting |
| Xbee.Radio.ReceivePass | xbee.c:117-146 | one pass of the outer loop, with the effects and the leftover bytes PassEvents and PassRest describe |
| Xbee.Radio.AiSuccess | xbee.c:224-226 | `_ai_success` is false while the "scanning" value `_check_ai` sets is in place |
| Xbee.Radio.CheckAi | xbee.c:209-213 | `ai_response` becomes "scanning" and an AI command goes out with the AI handler registered under its id |
| Xbee.Radio.Arrive | xbee.c:357-359 | the interrupt fires once per byte, in order; the queue becomes `AfterPushes` of the old queue |
| Xbee.Radio.AssociationAttempt | xbee.c:68-72 | one round: one AI command under the next id, the AI handler registered under it, the buffer read empty; the frames delivered and the AT handler calls are those of the waiting bytes' events, with the new table; `ai_response` is what the AI replies among them make of "scanning"; the result is `_ai_success` |
| Xbee.TableAfterRounds | xbee.c:209-212 | after n rounds the last round's id holds the AI handler, and every entry that does not hold it is unchanged |
| Xbee.Radio.WaitForAssociation | xbee.c:66-73 | rounds go on until `_ai_success` or the arrivals run out; the bytes sent are exactly one AI command per round under successive ids; the counter, the whole handler table, the frames delivered, the AT handler calls and `ai_response` are those of the rounds run, in order (`RoundsEffects`); the number of rounds run is `RoundsRun`, the first round whose AI answer succeeds, or all of them |
| Xbee.RoundsRunStopsAtFirstSuccess | xbee.c:66-73 | the rounds the wait runs stop at the first success: every round before the last one run ended without `ai_response` reporting success, and the last one succeeded unless the arrivals ran out |
| Gps.GpsReceiver.constructor | gps.c:20 | the buffer starts empty at indices 0, and nothing has been parsed |
| Gps.GpsReceiver.RxInterrupt | gps.c:23-25 | the received byte joins the queue as AfterPush describes |
| Gps.GpsReceiver.ReceiveByte | gps.c:32-35 | returns the oldest unread byte and drops it from the queue |
| Gps.GpsReceiver.Receive | gps.c:86-90 | hands the parser every unread byte, oldest first, and returns with `head == tail` |
| Gps.GpsReceiver.ArriveThenReceive | gps.c:86-90 | bytes delivered while at most 255 are unread all reach the parser, in arrival order, at the next `gps_receive` |
| Wifi.CommandLine | wifi.c:105-111 | the line is `max(size, 0) + 2` bytes and ends in CR LF |
| Wifi.SplitCommandLine | wifi.c:105-111 | a command without CR LF inside (and not ending in CR), followed by CR LF, is read back as exactly that command, leaving what follows |
| Wifi.CommandLineReadBack | wifi.c:105-111 | round trip: what `wifi_send_cmd(cmd, size)` writes is read back as `cmd[0..size)`, or as the empty command when `size <= 0` |
| Wifi.WifiPort.constructor | wifi.c:14-39 | the buffer starts empty, no transmission is in progress, and nothing has been written |
| Wifi.WifiPort.TxComplete | wifi.c:17-19 | the transmit-complete interrupt clears `tx_in_progress` |
| Wifi.WifiPort.SendByte | wifi.c:25-30 | writes the byte, and returns only once `tx_in_progress` is clear again |
| Wifi.WifiPort.SendCmd | wifi.c:105-111 | writes exactly `CommandLine(cmd, size)`, and leaves no transmission in progress |
| Wifi.WifiPort.RxInterrupt | wifi.c:42-44 | the received byte joins the queue as AfterPush describes |
| Wifi.WifiPort.ReceiveByte | wifi.c:113-115 | `wifi_receive_byte` returns the oldest unread byte and drops it from the queue |

## Left out

- Initialisation and hardware: `xbee_init`, `gps_init`, `wifi_init`, the baud-rate and register setup, `xbee_sleep`, `xbee_wakeup` (a pin write followed by the association wait), `_delay_ms`, `_wait_until_tx_complete` in `xbee.c` (a register poll), and the data-register-empty polls. They have no behaviour to state.
- Debug output: `_buffer_info` and `debug_printf` have no effect on the driver's state.
- `xbee_on_receive`: the RX handler is not modelled as a stored function address. The frames handed to it are recorded in `delivered`, and the handlers' own side effects are outside the model.
- The NMEA parser: `gps_receive`'s effect is recorded as the bytes handed to it (`parsed`).
- `xbee_tx_t` and `xbee_rx_t` are not declared in any file of this model. `TxFrame` and `RxFrame` take their field widths from how `xbee.c` uses them, and `Send` requires a payload under 256 bytes (an 8-bit `size`).
- `malloc`/`free` in `_receive_rx`: the payload is a fresh array turned into a sequence. Allocation failure is not modelled, nor is `size < 12`, where `malloc(size - 12)` asks for a huge block while the loop reads no payload.
- `_receive_modem`'s `size` argument is unused by the source, and the model drops it.
- `|=` and `<<` in the corrected address and length reads are modelled as sums of shifted bytes, which is what they compute once the shift is taken on 64 bits (address) or without overflow (length, network address) and the local starts at zero. The shift as written is `ShiftAsWritten`; `AddressAsWritten` keeps the bitwise `|` with a 64-bit shift to show the uninitialised start value on its own.
- Xbee.SizeAsWritten: the `<< 8` at xbee.c:133 shifts a 16-bit `int` and overflows when the byte shifted (the MSB left-first, the LSB right-first) is 0x80 or more. The member computes that shift exactly. Lengths that large are already wrong through the 8-bit truncation it does model.
- Xbee.Radio.Receive: `rx_checksum` after a receive is not stated. It is scratch state that each decoder resets.
- Xbee.Radio.ReceivePass: the source breaks out of the outer loop when no delimiter is left; the model lets the loop test find the buffer empty instead, which has the same effect.
- Interrupts firing in the middle of a receive are not interleaved. Bytes arriving during a round are delivered before `xbee_receive` reads them (`Arrive`, `ArriveThenReceive`); `ReplayIsFifo` covers interleaved reads and deliveries on the queue itself.
- Xbee.Radio.WaitForAssociation: the source loops until the AI answer succeeds, and may never end. The model runs at most `|arrivals|` rounds, and what it states holds for the rounds run.
- Frame types the code does not handle (transmit status 0x8B, for instance), skipping unknown frames by their declared length, and link metrics are absent from the code, so they are absent from the model.
- Wifi.WifiPort.SendByte: the wait on `tx_in_progress` is modelled as the transmit-complete interrupt running before the method returns; the spin itself is not a loop in the model.
- Wifi.WifiPort.SendCmd: requires `size <= |cmd|`, since the source reads `cmd[0..size)` from the caller's buffer.

## Findings

| source | as written | input that shows it | evidently intended | confidence | as-written member | corrected member |
|---|---|---|---|---|---|---|
| xbee.c:352-358 | `uint8_t buffer[0xFF]` is indexed by an 8-bit `tail` that reaches 255 (the same holds at gps.c:17-24 and wifi.c:36-43) | 256 bytes received from reset: the 256th is written to `buffer[255]`, one past the array | 256 slots, one per index value | not executed | Ring.StoresAsWrittenOverrun | Ring.CyclicBuffer.Push |
| xbee.c:229-238 | `at_handlers[0xFF]` is indexed by an 8-bit id that reaches 255 | the 255th AT command after reset gets id 255, and its handler is stored past the table | 256 entries (or ids limited to 1..254) | not executed | Xbee.HandlerStoreOverrun | Xbee.Radio.SendAt |
| xbee.c:277 | `(*(at_handlers[id]))(status, data)` is called whether or not a handler was stored under `id` | a valid AT response whose id was never used (a reply to another node's command) | unregistered replies dropped | not executed | Incoming.UnregisteredReplyCallsNull | Xbee.Radio.CallAtHandler |
| xbee.c:133 | `uint8_t size` truncates the 16-bit length, and the two `_receive_byte()` calls are unsequenced | an RX packet with length field 0x0100 gets size 0; with right-to-left evaluation, an AT response of length 6 gets size 0 | a 16-bit size, MSB read first | not executed | Xbee.SizeAsWrittenWrong | Xbee.Radio.ReceiveFrame |
| xbee.c:174 | `for(uint8_t i=56; i>=0; i-=8)`: the condition always holds | any RX packet: after 8 address bytes, `i` wraps to 248 and the loop keeps reading | eight iterations, i = 56..0 | not executed | Xbee.ShiftAfterWraps | Xbee.Radio.ReceiveAddress |
| xbee.c:175 | `_receive_byte() << i` shifts the byte promoted to a 16-bit `int` | any RX packet: the first shift is by 56, at least the width of `int`; the shift by 8 overflows for a byte of 0x80 or more | `(uint64_t)_receive_byte() << i` | not executed | Xbee.AddressShiftsUndefined | Xbee.Radio.ReceiveAddress |
| xbee.c:179 | the two `_receive_byte()` calls are unsequenced, and `<< 8` shifts a 16-bit `int` | network address 0x1234 read right to left gives 0x3412; a high byte of 0x80 or more overflows the shift | the MSB read first, shifted as an unsigned 16-bit value | not executed | Xbee.NwAddressAsWrittenWrong | Xbee.Radio.ReceiveNwAddress |
| xbee.c:164-175 | `address` is never initialised before the bytes are OR-ed into it | an all-zero source address is read as whatever the local held | `address` starts at 0 | not executed | Xbee.AddressAsWrittenKeepsGarbage | Xbee.Radio.ReceiveAddress |
| xbee.c:184 | `int8_t i` counts to `size - 12` | an RX packet with 128 payload bytes: `i` wraps from 127 to -128 and never reaches the bound | an unsigned or wider counter | not executed | Xbee.Int8CounterNeverReaches | Xbee.Radio.ReceivePayload |
| xbee.c:103 | `int8_t i` counts to `frame->size` | `xbee_send` of a 128-byte payload never leaves the loop | an unsigned or wider counter | not executed | Xbee.Int8CounterNeverReaches | Xbee.Radio.SendPayload |
