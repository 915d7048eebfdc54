# USB-CAN analyzer serial codec, modelled in Dafny

This project models the frame codec of python-can's `UsbCanAnalyzer` driver
(`can/interfaces/serial/usb_can_analyzer.py`), which talks to a USB-to-CAN adapter over a
serial line using the vendor's own framing:

| offset | field | size |
|---|---|---|
| 0 | start sentinel `0xAA` | 1 |
| 1 | type byte `0xC0 \| ext << 5 \| rtr << 4 \| dlc` | 1 |
| 2 | arbitration id, little-endian | 2 (standard) or 4 (extended) |
| 2 + w | payload | as many bytes as the message carries |
| end | end sentinel `0x55` | 1 |

- `Wire` holds bytes (`newtype byte`), Python's `|` on non-negative integers (`BitOr`),
  `struct.pack`/`struct.unpack` for `<H` and `<I` (`Pack`, `FromLittleEndian`), the type
  value the sender builds (`TypeValue`) and the fields the receiver takes from a type byte
  (`ExtendedFlag`, `RemoteFlag`, `DlcOf`).
- `Serial` is the serial port. A `Link` is the adapter's side of the line: the bytes it
  delivers in order, for each read call how many of them have arrived when that read's
  timeout expires, and whether a read that the rest of the stream cannot satisfy raises
  `SerialException` instead of timing out. The `Port` class holds the link, a read cursor,
  a count of read calls and the bytes written so far. `ReadAt` is the pure meaning of one
  `read(n)`: it returns n bytes as soon as they are there, or what has arrived when its
  timeout expires, so a read can come back short in the middle of the stream.
- `Codec` holds the `Message` datatype, the encoder `Encode` and the receive state machine
  `Decode` with its five outcomes: `NoFrame` (the `(None, False)` return), `Rejected` (the
  bare `None` the code falls through to on a bad end byte), `ShortRead` (`ord` or
  `struct.unpack` on a short read raises), `PortFault` (a `SerialException` after the first
  read propagates) and `Got(msg)` (the `(msg, False)` return).
- `Analyzer` is the driver class: `Send` builds the frame byte by byte and writes it,
  `RecvInternal` performs the reads of one receive attempt; each is proved against `Encode`
  and `Decode`.
- `Properties` proves what the codec promises: the frame layout and the test vectors; how
  every attempt ends when its reads see the stream in time; for any timing, when an
  attempt ends in "no frame", what an attempt that yields a message has read, and why an
  attempt raises or rejects; two late timings in particular; and the round trip.

The model follows the code, including these behaviours:

- A short or empty read of the type byte, the id field or the end byte raises
  (`ord(b"")`, `struct.error`); it is not turned into "no frame". Only a `SerialException`
  from the first read is caught.
- A short read of the payload (line 51) does not raise: nothing checks `len(data)`. If the
  end byte then arrives in time, a message is emitted whose payload is shorter than its
  length code (`ShortPayloadGot`).
- The decoded length code is the low nibble, 0..15; nothing limits it to 8.
- The encoder checks neither the length code against the payload nor against 8. A code
  above 15 is ORed over the flag bits, and a code that makes the type value leave 0..255
  makes `bytearray.append` raise.
- The receiver ignores bits 7 and 6 of the type byte.

## Model

| member | source | states |
|---|---|---|
| Wire.BitOr | can/interfaces/serial/usb_can_analyzer.py:30 | Python's `a \| b` on non-negative integers; the result is at least each operand |
| Wire.Flags | can/interfaces/serial/usb_can_analyzer.py:30 | `0xC0 \| ext << 5 \| rtr << 4` is `0xC0 + 0x20·ext + 0x10·rtr` |
| Wire.TypeValue | can/interfaces/serial/usb_can_analyzer.py:30 | the type value appended by the sender is a byte exactly when the length code is below 256 |
| Wire.TypeValueFields | can/interfaces/serial/usb_can_analyzer.py:30-47 | for a length code up to 15 the type value is a byte with the top two bits set, and the receiver reads back the same extended flag, remote flag and length code |
| Wire.TypeValueOfFields | can/interfaces/serial/usb_can_analyzer.py:44-47 | re-encoding the fields the receiver takes from a type byte gives that byte back exactly when its top two bits are set |
| Wire.ExtendedFlag | can/interfaces/serial/usb_can_analyzer.py:45 | `t & 0x20` is set exactly when `t mod 64` is at least 32 |
| Wire.RemoteFlag | can/interfaces/serial/usb_can_analyzer.py:46 | `t & 0x10` is set exactly when `t mod 32` is at least 16 |
| Wire.DlcOf | can/interfaces/serial/usb_can_analyzer.py:47 | `((t << 4) & 0xFF) >> 4` is the low nibble `t % 16`, always below 16 |
| Wire.IdWidth | can/interfaces/serial/usb_can_analyzer.py:31 | the id field is 4 bytes (range 2^32) when extended and 2 bytes (range 2^16) otherwise |
| Wire.Pack | can/interfaces/serial/usb_can_analyzer.py:31 | `struct.pack` succeeds exactly when the id fits its width, and then yields width bytes whose little-endian value is the id; it never truncates |
| Wire.FromLittleEndian | can/interfaces/serial/usb_can_analyzer.py:48-50 | `struct.unpack` of n little-endian bytes is below 256^n |
| Wire.ToLittleEndian | can/interfaces/serial/usb_can_analyzer.py:31 | packing into n bytes yields exactly n bytes |
| Wire.LittleEndianRoundTrip | can/interfaces/serial/usb_can_analyzer.py:31 | unpacking a packed id that fits its width gives the id back |
| Wire.LittleEndianOfValue | can/interfaces/serial/usb_can_analyzer.py:49 | packing an unpacked byte string in its own width gives the bytes back |
| Serial.ReadAt | can/interfaces/serial/usb_can_analyzer.py:39-52 | one `read(n)`: returns the next bytes in order, at most n, all n exactly when they have arrived by the timeout, otherwise everything that has arrived; it raises, consuming nothing, exactly when the port faults and fewer than n bytes remain in the stream |
| Serial.Port.constructor | can/interfaces/serial/usb_can_analyzer.py:17 | an opened port has read nothing, made no read call and written nothing |
| Serial.Port.Read | can/interfaces/serial/usb_can_analyzer.py:39-52 | a read returns what `ReadAt` says and advances the cursor and the call count as it says |
| Serial.Port.Write | can/interfaces/serial/usb_can_analyzer.py:34-35 | written bytes are appended, in order, to what went out before |
| Codec.Encode | can/interfaces/serial/usb_can_analyzer.py:27-33 | encoding fails exactly when the length code is outside 0..255 (reported first) or the id does not fit its field; otherwise the frame starts with `0xAA`, ends with `0x55` and is `1 + 1 + w + len(data) + 1` bytes long |
| Codec.Decode | can/interfaces/serial/usb_can_analyzer.py:37-65 | a receive attempt makes one to five read calls and consumes only bytes of the stream, never going back |
| Analyzer.UsbCanAnalyzer.constructor | can/interfaces/serial/usb_can_analyzer.py:14-19 | the driver works on the port it is given |
| Analyzer.UsbCanAnalyzer.Send | can/interfaces/serial/usb_can_analyzer.py:27-35 | writes exactly `Encode(msg)` when it succeeds; raises with `Encode`'s error and writes nothing otherwise |
| Analyzer.UsbCanAnalyzer.RecvInternal | can/interfaces/serial/usb_can_analyzer.py:37-65 | returns the outcome `Decode` gives for the old cursor and leaves the cursor and call count where `Decode` says |
| Properties.EncodeLayout | can/interfaces/serial/usb_can_analyzer.py:28-33 | byte 1 is the type value, then the id in little-endian order in its field, then the payload verbatim; for a length code up to 15 the type byte has its top bits set, its low nibble equal to the code and the two flags in bits 5 and 4 |
| Properties.EncodeDlcMismatch | can/interfaces/serial/usb_can_analyzer.py:30-32 | a length code of 8 with no payload is encoded without complaint, to `AA C8 23 01 55` |
| Properties.EncodeDlcOverflow | can/interfaces/serial/usb_can_analyzer.py:30 | a length code of 16 is encoded with the type byte of a remote frame of length 0, and decoding that frame rejects it after 5 bytes |
| Properties.EncodeStandardVector | can/interfaces/serial/usb_can_analyzer.py:27-33 | standard id 0x123 with payload 11 22 encodes to `AA C2 23 01 11 22 55` |
| Properties.EncodeExtendedVector | can/interfaces/serial/usb_can_analyzer.py:27-33 | extended id 0x1ABCDE with no payload encodes to `AA E0 DE BC 1A 00 55` |
| Properties.DecodeNoFrame | can/interfaces/serial/usb_can_analyzer.py:38-43 | an attempt ends in `(None, False)` exactly when the first read gets no byte by its timeout (or the port faults) or gets a byte other than `0xAA`; it then makes one read call and consumes at most that byte |
| Properties.DecodeWholeFrame | can/interfaces/serial/usb_can_analyzer.py:43-62 | when a whole frame follows `0xAA` and each read sees it in time, the attempt ends as `WholeFrameOutcome` says: it makes five read calls, consumes exactly it (4 id bytes iff bit 5, 2 otherwise, then low-nibble many payload bytes) and yields a message iff the end byte is `0x55`, else bare `None`; the message's fields are those on the wire |
| Properties.DecodeTruncatedFrame | can/interfaces/serial/usb_can_analyzer.py:44-52 | when the stream ends inside a frame and every read of the attempt sees the whole stream in time, the attempt raises: a short read on a timing-out port (consuming the rest of the stream), a port fault otherwise |
| Properties.DecodeGot | can/interfaces/serial/usb_can_analyzer.py:43-62 | whatever the timing, a message comes only from five reads of a start sentinel, a type byte, a whole id field, at most the announced payload and an end sentinel `0x55`, and holds exactly the fields read |
| Properties.DecodeFailure | can/interfaces/serial/usb_can_analyzer.py:43-53 | whatever the timing, an attempt that raises or rejects has read a start sentinel; a `SerialException` after it comes only from a stream that ends inside the frame; a short read (`ord`/`unpack` raising) only from a read that took everything arrived by its timeout and still fell short of the frame; a bare `None` only after a whole type byte, id field and end byte, that end byte not `0x55` |
| Properties.DecodedIsCarriable | can/interfaces/serial/usb_can_analyzer.py:44-62 | a decoded message has a code of at most 15, an id that fits its field and at most code-many payload bytes; exactly code-many when every read sees the whole stream in time |
| Properties.ShortPayloadGot | can/interfaces/serial/usb_can_analyzer.py:51-62 | when the payload read times out partway and the next byte to arrive is `0x55`, in time for the last read, the attempt yields a message whose payload is the bytes that arrived, fewer than its length code |
| Properties.ShortPayloadAccepted | can/interfaces/serial/usb_can_analyzer.py:51-62 | an instance: on `AA C2 23 01 11 55` with the payload read timing out after `11`, the attempt yields a message with length code 2 and the one-byte payload `11`, which is not carriable |
| Properties.LateEndByte | can/interfaces/serial/usb_can_analyzer.py:52 | when the whole payload arrives in time but the end byte does not, the attempt raises on `ord(b"")` after consuming everything before the end byte |
| Properties.CarriableEncodes | can/interfaces/serial/usb_can_analyzer.py:27-33 | a message with a code up to 15 matching its payload and an id in range always encodes |
| Properties.RoundTrip | can/interfaces/serial/usb_can_analyzer.py:27-62 | for a carriable message m (length code 0..15 equal to the payload length, id in range), decoding a stream that continues with `Encode(m)`, each read seeing it in time, yields `m` (same id, flags, code and payload) and consumes exactly the encoding |
| Properties.ReencodeDecoded | can/interfaces/serial/usb_can_analyzer.py:43-62 | with the received flags taken as booleans, a decoded message re-encodes, to the very bytes it was read from exactly when the type byte's top bits were set |
| Properties.SkipsGarbage | can/interfaces/serial/usb_can_analyzer.py:37-65 | on a port whose bytes have all arrived, k bytes other than `0xAA` before a frame cost k successive attempts ending in `(None, False)`, each starting where the last stopped, and the next attempt yields the frame |

## Left out

- Opening and configuring the port (2,000,000 baud, 8N1, 0.05 s timeout), `shutdown`,
  `flush_tx_buffer` and `fileno`: they only call into pyserial. The port is a parameter.
- `_detect_available_configs`: it only lists the host's serial ports.
- The capture timestamp (`time.perf_counter()`): a clock read; `Message` has no timestamp.
- `Message` and `BusABC` are not part of this model. The model treats `Message` as a plain
  record of its arguments, with the receiver's flags (Python's integers `t & 0x20` and
  `t & 0x10`) taken as booleans. In particular it does not capture a `Message` that drops
  the payload of a remote frame: the received remote frames of `DecodeWholeFrame`,
  `DecodeGot` and `RoundTrip` carry the payload bytes read from the wire.
- Properties.ReencodeDecoded: holds only once the received flags are made booleans. In the
  program `send` shifts the integer flags (`0x20 << 5`, `0x10 << 4`), so the type value
  leaves 0..255 and `bytearray.append` raises; only a received standard data frame re-sends.
- The `False` ("not filtered") half of the returned pairs: it is the same constant on every
  path that returns a pair.
- Serial.Port.Write: a `SerialException` from `write` or `flush` is I/O and is not modelled.
- Serial.ReadAt: the arrival schedule is given per read call rather than in time units, a
  raising read consumes nothing, and a port either always times out or always raises once
  the stream cannot satisfy a read. Schedules in which a later read sees less than an
  earlier one (not `Serial.Monotone`) are admitted too; the lemmas hold for them as well.
- Properties.DecodedIsCarriable: the payload matches the length code only when every read
  of the attempt sees the whole stream in time; otherwise it may be shorter
  (`ShortPayloadGot`).
- The retry loop around `_recv_internal` belongs to `BusABC`; `Codec.Attempts` only strings
  attempts together for `SkipsGarbage`.
