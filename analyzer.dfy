/** The driver object: `send` and `_recv_internal` over its serial port. */
module Analyzer {
  import opened Wire
  import opened Serial
  import opened Codec

  /** What `send` does: returns normally, or raises before anything is written. */
  datatype SendOutcome = Sent | SendFailed(error: EncodeError)

  class UsbCanAnalyzer {
    const ser: Port

    /** Takes an already opened port; opening and configuring it is not modelled. */
    constructor (ser: Port)
      ensures this.ser == ser
    {
      this.ser := ser;
    }

    /** `send`: builds the frame byte by byte and writes it, or raises before the write.
        Nothing is read and the cursor does not move. */
    method Send(msg: Message) returns (r: SendOutcome)
      modifies ser`tx
      ensures Encode(msg).Encoded? ==> r == Sent && ser.tx == old(ser.tx) + Encode(msg).bytes
      ensures Encode(msg).EncodeFailed? ==>
        r == SendFailed(Encode(msg).error) && ser.tx == old(ser.tx)
    {
      var byteMsg: seq<byte> := [];
      byteMsg := byteMsg + [START];
      if msg.dlc < 0 {
        return SendFailed(TypeByteOutOfRange);
      }
      var typ := TypeValue(msg.isExtendedId, msg.isRemoteFrame, msg.dlc);
      if typ > 255 {
        return SendFailed(TypeByteOutOfRange);
      }
      byteMsg := byteMsg + [typ as byte];
      var packed := Pack(msg.arbitrationId, IdWidth(msg.isExtendedId));
      if packed.None? {
        return SendFailed(IdOutOfRange);
      }
      byteMsg := byteMsg + packed.value;
      byteMsg := byteMsg + msg.data;
      byteMsg := byteMsg + [END];
      ser.Write(byteMsg);
      r := Sent;
    }

    /** `_recv_internal`: one receive attempt, reading straight through the port; the
        result and the new cursor are those `Decode` gives for the old cursor. */
    method RecvInternal() returns (r: Received)
      requires ser.Valid()
      modifies ser`pos, ser`calls
      ensures ser.Valid()
      ensures Decode(ser.link, old(ser.At())) == Decoded(r, ser.At())
    {
      var rxByte := ser.Read(1);
      if rxByte.Raised? {
        return NoFrame;
      }
      if rxByte.bytes != [] && rxByte.bytes[0] == START {
        var typeRead := ser.Read(1);
        if typeRead.Raised? {
          return PortFault;
        }
        if |typeRead.bytes| != 1 {
          return ShortRead;
        }
        var t := typeRead.bytes[0];
        var extended := ExtendedFlag(t);
        var remote := RemoteFlag(t);
        var dlc := DlcOf(t);
        var idRead := ser.Read(IdWidth(extended));
        if idRead.Raised? {
          return PortFault;
        }
        if |idRead.bytes| != IdWidth(extended) {
          return ShortRead;
        }
        var arbId := FromLittleEndian(idRead.bytes);
        var data := ser.Read(dlc);
        if data.Raised? {
          return PortFault;
        }
        var rxdByte := ser.Read(1);
        if rxdByte.Raised? {
          return PortFault;
        }
        if |rxdByte.bytes| != 1 {
          return ShortRead;
        }
        if rxdByte.bytes[0] == END {
          return Got(Message(arbId, extended, remote, dlc, data.bytes));
        }
        return Rejected;
      } else {
        return NoFrame;
      }
    }
  }
}
