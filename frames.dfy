/** The XBee ZigBee API-mode frame: a 0x7E start delimiter, a 16-bit big-endian
    length counting the body, the body (frame type first), and a checksum byte that
    brings the body's sum to 0xFF modulo 256. */
module Frames {
  import opened Bytes

  // Values of the Digi XBee ZigBee API; the source names them (XB_FRAME_START,
  // XB_TX_PACKET, XB_TX_AT, XB_RX_PACKET, XB_RX_AT, XB_MODEM_STATUS) without
  // defining them in any file of this model.
  const START: Byte := 0x7E
  const TX_REQUEST: Byte := 0x10
  const AT_COMMAND: Byte := 0x08
  const RX_PACKET: Byte := 0x90
  const AT_RESPONSE: Byte := 0x88
  const MODEM_STATUS: Byte := 0x8A

  // AT response status "OK" (XB_AT_OK) and the association-indication values
  // "joined" (XB_AT_AI_SUCCESS) and "scanning for a network" (XB_AT_AI_SCANNING).
  const AT_OK: Byte := 0x00
  const AI_SUCCESS: Byte := 0x00
  const AI_SCANNING: Byte := 0xFF

  /** Bytes of a TX request body before the payload: frame type, frame id, 8 address
      bytes, 2 network-address bytes, radius, options ("14 bytes of protocol overhead"). */
  const TX_OVERHEAD := 14

  /** Bytes of an RX packet body before the payload: frame type, 8 address bytes,
      2 network-address bytes, options. */
  const RX_OVERHEAD := 12

  /** A transmit request, `xbee_tx_t`. */
  datatype TxFrame = TxFrame(id: Byte, address: Uint64, nwAddress: Uint16,
                             radius: Byte, options: Byte, data: seq<Byte>)

  /** A received data packet as handed to the RX handler, `xbee_rx_t`; `size` is the
      frame's length field, so the payload holds `size - 12` bytes. */
  datatype RxFrame = RxFrame(size: nat, address: Uint64, nwAddress: Uint16,
                             options: Byte, data: seq<Byte>)

  /** The bytes of a frame with body `body` on the wire. */
  function WireFrame(body: seq<Byte>): (r: seq<Byte>)
    requires |body| < 0x1_0000
    ensures |r| == |body| + 4
  {
    [START] + BeBytes(|body|, 2) + body + [Checksum(body)]
  }

  /** What the receiver finds in a frame: the delimiter, a length field that reads back
      as the body's length, the body, and a checksum byte that brings the body's sum to
      0xFF. */
  lemma WireFrameShape(body: seq<Byte>)
    requires |body| < 0x1_0000
    ensures var r := WireFrame(body);
      && r[0] == START
      && BeValue(r[1..3]) == |body|
      && r[3..] == body + [r[|r| - 1]]
      && Sum(r[3..]) % 256 == 0xFF
  {
    var c := Checksum(body);
    var r := [START] + BeBytes(|body|, 2) + body + [c];
    assert r == WireFrame(body);
    Pow256Values();
    BeValueOfBeBytes(|body|, 2);
    assert r[1..3] == BeBytes(|body|, 2);
    assert r[3..] == body + [c];
    ChecksumCompletes(body);
  }

  /** A frame on the wire, byte by byte: delimiter, length MSB and LSB, body, checksum. */
  lemma WireFrameBytes(body: seq<Byte>)
    requires |body| < 0x1_0000
    ensures WireFrame(body) == [START, |body| / 256, |body| % 256] + body + [Checksum(body)]
  {
    LengthBytes(|body|);
  }

  /** The two length bytes: `n >> 8` and `n`, each truncated to a byte. */
  lemma LengthBytes(n: nat)
    requires n < 0x1_0000
    ensures BeBytes(n, 2) == [n / 256, n % 256]
  {
    assert BeBytes(n, 2) == BeBytes(n / 256, 1) + [n % 256];
    assert BeBytes(n / 256, 1) == BeBytes(n / 256 / 256, 0) + [(n / 256) % 256];
  }

  /** The fixed part of a TX request body: type, id, address, network address, radius
      and options. */
  function TxFields(f: TxFrame): (r: seq<Byte>)
    ensures |r| == TX_OVERHEAD
  {
    [TX_REQUEST, f.id] + BeBytes(f.address, 8) + BeBytes(f.nwAddress, 2) + [f.radius, f.options]
  }

  /** The fixed fields byte by byte, and their sum. */
  lemma TxFieldsBytes(f: TxFrame)
    ensures TxFields(f) == [TX_REQUEST, f.id] + BeBytes(f.address, 8)
                          + [f.nwAddress / 256, f.nwAddress % 256, f.radius, f.options]
    ensures Sum(TxFields(f)) == TX_REQUEST + f.id + Sum(BeBytes(f.address, 8))
                               + f.nwAddress / 256 + f.nwAddress % 256 + f.radius + f.options
  {
    LengthBytes(f.nwAddress);
    var a := [TX_REQUEST, f.id];
    var b := BeBytes(f.address, 8);
    var c := [f.nwAddress / 256, f.nwAddress % 256, f.radius, f.options];
    assert TxFields(f) == a + b + c;
    SumAppend(a + b, c);
    SumAppend(a, b);
    SumOfBytes(TX_REQUEST, f.id, 0, 0);
    SumOfBytes(f.nwAddress / 256, f.nwAddress % 256, f.radius, f.options);
  }

  function TxBody(f: TxFrame): (body: seq<Byte>)
    ensures |body| == TX_OVERHEAD + |f.data|
  {
    TxFields(f) + f.data
  }

  /** The frame `xbee_send` writes for `f`. */
  function TxFrameBytes(f: TxFrame): seq<Byte>
    requires |f.data| < 256
  {
    WireFrame(TxBody(f))
  }

  /** Field by field, where each part of a TX request sits and what it decodes to. */
  lemma TxFrameLayout(f: TxFrame)
    requires |f.data| < 256
    ensures var r := TxFrameBytes(f);
      && |r| == 18 + |f.data|
      && r[0] == START
      && r[1] == (|f.data| + TX_OVERHEAD) / 256
      && r[2] == (|f.data| + TX_OVERHEAD) % 256
      && r[3] == TX_REQUEST
      && r[4] == f.id
      && BeValue(r[5..13]) == f.address
      && BeValue(r[13..15]) == f.nwAddress
      && r[15] == f.radius
      && r[16] == f.options
      && r[17..17 + |f.data|] == f.data
      && Sum(r[3..]) % 256 == 0xFF
  {
    var body := TxBody(f);
    var r := TxFrameBytes(f);
    WireFrameShape(body);
    LengthBytes(|body|);
    assert r[..3] == [START] + BeBytes(|body|, 2);
    assert r[3..|body| + 3] == body;
    assert body[..TX_OVERHEAD] == TxFields(f);
    assert r[5..13] == body[2..10] == BeBytes(f.address, 8);
    assert r[13..15] == body[10..12] == BeBytes(f.nwAddress, 2);
    assert r[17..17 + |f.data|] == body[14..] == f.data;
    Pow256Values();
    BeValueOfBeBytes(f.address, 8);
    BeValueOfBeBytes(f.nwAddress, 2);
  }

  /** The frame `_send_at` writes for command letters `ch1 ch2` under frame id `id`. */
  function AtCommandBytes(id: Byte, ch1: Byte, ch2: Byte): seq<Byte>
  {
    WireFrame([AT_COMMAND, id, ch1, ch2])
  }

  lemma AtCommandBytesAre(id: Byte, ch1: Byte, ch2: Byte)
    ensures AtCommandBytes(id, ch1, ch2)
         == [START, 0x00, 0x04, AT_COMMAND, id, ch1, ch2, Checksum([AT_COMMAND, id, ch1, ch2])]
  {
    WireFrameBytes([AT_COMMAND, id, ch1, ch2]);
  }

  /** The checksum of an AT command body as the running 8-bit sum computes it. */
  lemma AtCommandChecksum(id: Byte, ch1: Byte, ch2: Byte)
    ensures Checksum([AT_COMMAND, id, ch1, ch2])
         == 0xFF - (((AT_COMMAND + id) % 256 + ch1) % 256 + ch2) % 256
  {
    SumOfBytes(AT_COMMAND, id, ch1, ch2);
    ModAddMod(AT_COMMAND + id, ch1);
    ModAddMod(AT_COMMAND + id + ch1, ch2);
  }

  /** An AT command frame is `7E 00 04 08 id ch1 ch2 cs`, its length field counting the
      four body bytes and its checksum completing them to 0xFF. */
  lemma AtCommandLayout(id: Byte, ch1: Byte, ch2: Byte)
    ensures var r := AtCommandBytes(id, ch1, ch2);
      && |r| == 8
      && r[..7] == [START, 0x00, 0x04, AT_COMMAND, id, ch1, ch2]
      && (AT_COMMAND + id + ch1 + ch2 + r[7]) % 256 == 0xFF
  {
    var r := AtCommandBytes(id, ch1, ch2);
    WireFrameShape([AT_COMMAND, id, ch1, ch2]);
    LengthBytes(4);
    assert r[3..] == [AT_COMMAND, id, ch1, ch2, r[7]];
    assert Sum([AT_COMMAND]) == AT_COMMAND by {
      assert [AT_COMMAND][..0] == [];
    }
    SumAppendByte([AT_COMMAND], id);
    assert [AT_COMMAND] + [id] == [AT_COMMAND, id];
    SumAppendByte([AT_COMMAND, id], ch1);
    assert [AT_COMMAND, id] + [ch1] == [AT_COMMAND, id, ch1];
    SumAppendByte([AT_COMMAND, id, ch1], ch2);
    assert [AT_COMMAND, id, ch1] + [ch2] == [AT_COMMAND, id, ch1, ch2];
    SumAppendByte([AT_COMMAND, id, ch1, ch2], r[7]);
    assert [AT_COMMAND, id, ch1, ch2] + [r[7]] == r[3..];
    assert Sum(r[3..]) == AT_COMMAND + id + ch1 + ch2 + r[7];
  }

  // What the radio sends to the node: reference encoders for the frames the
  // decoder reads.

  function RxPacketBody(address: Uint64, nwAddress: Uint16, options: Byte, data: seq<Byte>): (body: seq<Byte>)
    ensures |body| == RX_OVERHEAD + |data|
  {
    [RX_PACKET] + BeBytes(address, 8) + BeBytes(nwAddress, 2) + [options] + data
  }

  function AtResponseBody(id: Byte, ch1: Byte, ch2: Byte, status: Byte, data: seq<Byte>): (body: seq<Byte>)
    ensures |body| == 5 + |data|
  {
    [AT_RESPONSE, id, ch1, ch2, status] + data
  }
}
