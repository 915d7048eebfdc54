/** The adapter's frame codec: a CAN message to its wire bytes, and the one-shot receive
    state machine over the serial stream. */
module Codec {
  import opened Wire
  import opened Serial

  /** A CAN message as the driver hands it over or builds it. Ids and length codes are
      plain integers: nothing ties `dlc` to `|data|` or bounds the id. The capture
      timestamp is not modelled. */
  datatype Message = Message(
    arbitrationId: int,
    isExtendedId: bool,
    isRemoteFrame: bool,
    dlc: int,
    data: seq<byte>)

  /** Why building the outbound frame raises: the type value `0xC0 | ... | dlc` is not a
      byte (`bytearray.append` raises `ValueError`; a negative code makes the OR negative),
      or the id does not fit its field
      (`struct.pack` raises `struct.error`). */
  datatype EncodeError = TypeByteOutOfRange | IdOutOfRange

  datatype Encoded = Encoded(bytes: seq<byte>) | EncodeFailed(error: EncodeError)

  /** The outbound frame for m: start sentinel, type byte, id field, payload, end sentinel.
      The type byte is appended before the id is packed, so a bad length code is what is
      reported when both are wrong. */
  function Encode(m: Message): (r: Encoded)
    ensures r.EncodeFailed? <==>
      !(0 <= m.dlc < 256) || !(0 <= m.arbitrationId < Pow256(IdWidth(m.isExtendedId)))
    ensures r.EncodeFailed? ==> (r.error == TypeByteOutOfRange <==> !(0 <= m.dlc < 256))
    ensures r.Encoded? ==>
      |r.bytes| == 1 + 1 + IdWidth(m.isExtendedId) + |m.data| + 1 &&
      r.bytes[0] == START && r.bytes[|r.bytes| - 1] == END
  {
    if m.dlc < 0 then
      EncodeFailed(TypeByteOutOfRange)
    else
      var typ := TypeValue(m.isExtendedId, m.isRemoteFrame, m.dlc);
      if typ > 255 then
        EncodeFailed(TypeByteOutOfRange)
      else
        match Pack(m.arbitrationId, IdWidth(m.isExtendedId))
        case None => EncodeFailed(IdOutOfRange)
        case Some(id) => Encoded([START, typ as byte] + id + m.data + [END])
  }

  /** What one receive attempt ends in.
      NoFrame:   `(None, False)`, the first read raised, timed out or was not the start sentinel;
      Rejected:  bare `None`, a whole frame was read but its end byte was not the end sentinel;
      ShortRead: a read came back short where `ord` or `struct.unpack` needs it whole, which raises;
      PortFault: a read after the first one raised `SerialException`, which propagates;
      Got:       `(msg, False)`. */
  datatype Received = NoFrame | Rejected | ShortRead | PortFault | Got(msg: Message)

  /** An attempt's outcome with the port's cursor after it. */
  datatype Decoded = Decoded(outcome: Received, next: Cursor)

  /** Bytes a frame occupies on the wire according to its type byte. */
  function FrameLength(t: byte): (n: nat)
  {
    1 + 1 + IdWidth(ExtendedFlag(t)) + DlcOf(t) + 1
  }

  /** One receive attempt on the port behind link, starting at cursor c: the successive
      reads of the start byte, the type byte, the id, the payload and the end byte, each as
      `ReadAt` describes it. This first stage reads the start byte. */
  function Decode(link: Link, c: Cursor): (d: Decoded)
    requires c.pos <= |link.rx|
    ensures c.pos <= d.next.pos <= |link.rx|
    ensures c.calls < d.next.calls <= c.calls + 5
  {
    var first := ReadAt(link, c, 1);
    match first.result
    case Raised => Decoded(NoFrame, first.next)
    case Bytes(b) =>
      if b == [] || b[0] != START then Decoded(NoFrame, first.next)
      else DecodeHeader(link, first.next)
  }

  /** After the start sentinel: the type byte, then the id field it announces. */
  function DecodeHeader(link: Link, c: Cursor): (d: Decoded)
    requires c.pos <= |link.rx|
    ensures c.pos <= d.next.pos <= |link.rx|
    ensures c.calls < d.next.calls <= c.calls + 4
  {
    var typeRead := ReadAt(link, c, 1);
    match typeRead.result
    case Raised => Decoded(PortFault, typeRead.next)
    case Bytes(tb) =>
      if |tb| != 1 then Decoded(ShortRead, typeRead.next)
      else
        var t := tb[0];
        var width := IdWidth(ExtendedFlag(t));
        var idRead := ReadAt(link, typeRead.next, width);
        match idRead.result
        case Raised => Decoded(PortFault, idRead.next)
        case Bytes(ib) =>
          if |ib| != width then Decoded(ShortRead, idRead.next)
          else DecodePayload(link, idRead.next, t, ib)
  }

  /** After type byte t and id field ib: the payload the low nibble announces (a short
      read is kept as it is), then the end byte. */
  function DecodePayload(link: Link, c: Cursor, t: byte, ib: seq<byte>): (d: Decoded)
    requires c.pos <= |link.rx|
    ensures c.pos <= d.next.pos <= |link.rx|
    ensures c.calls < d.next.calls <= c.calls + 2
  {
    var dataRead := ReadAt(link, c, DlcOf(t));
    match dataRead.result
    case Raised => Decoded(PortFault, dataRead.next)
    case Bytes(data) =>
      var endRead := ReadAt(link, dataRead.next, 1);
      match endRead.result
      case Raised => Decoded(PortFault, endRead.next)
      case Bytes(eb) =>
        if |eb| != 1 then Decoded(ShortRead, endRead.next)
        else if eb[0] == END then
          Decoded(Got(Message(FromLittleEndian(ib), ExtendedFlag(t), RemoteFlag(t), DlcOf(t), data)), endRead.next)
        else
          Decoded(Rejected, endRead.next)
  }

  /** The outcomes of n receive attempts in a row, each starting where the last one stopped
      (the caller retrying after "no frame"). */
  function Attempts(link: Link, c: Cursor, n: nat): (r: seq<Received>)
    requires c.pos <= |link.rx|
    ensures |r| == n
    decreases n
  {
    if n == 0 then []
    else
      var d := Decode(link, c);
      [d.outcome] + Attempts(link, d.next, n - 1)
  }
}
