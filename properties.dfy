/** What the codec promises: the layout of an encoded frame, the test vectors, how every
    receive attempt ends, and the round trip. */
module Properties {
  import opened Wire
  import opened Serial
  import opened Codec

  /** A message the wire format carries without loss: a length code that fits the low
      nibble and matches the payload, and an id that fits its field. */
  predicate Carriable(m: Message)
  {
    0 <= m.dlc <= 15 && |m.data| == m.dlc &&
    0 <= m.arbitrationId < Pow256(IdWidth(m.isExtendedId))
  }

  /** Every read of an attempt starting at cursor c sees at least the first `end` bytes of
      the stream before its timeout expires. */
  predicate OnTime(link: Link, c: Cursor, end: nat)
  {
    forall i :: c.calls <= i < c.calls + 5 ==> end <= Available(link, i)
  }

  /** From the k-th read call on, every read sees the whole stream. */
  predicate AllArrived(link: Link, k: nat)
  {
    forall i :: k <= i < |link.arrived| ==> |link.rx| <= link.arrived[i]
  }

  /** A start sentinel at pos followed by as many bytes as its type byte announces. */
  predicate WholeFrameAt(rx: seq<byte>, pos: nat)
  {
    pos + 1 < |rx| && rx[pos] == START && pos + FrameLength(rx[pos + 1]) <= |rx|
  }

  /** A start sentinel at pos, but the stream ends before the frame it begins. */
  predicate TruncatedFrameAt(rx: seq<byte>, pos: nat)
  {
    pos < |rx| && rx[pos] == START &&
    (pos + 1 == |rx| || |rx| < pos + FrameLength(rx[pos + 1]))
  }

  /** What an attempt that reads a whole frame has read from pos up to next: the start
      sentinel, a type byte, a whole id field, at most as many payload bytes as the low
      nibble of the type byte announces, and one more byte, the end byte. */
  predicate FrameShape(rx: seq<byte>, pos: nat, next: nat)
  {
    pos + 1 < |rx| && rx[pos] == START && next <= |rx| &&
    pos + 3 + IdWidth(ExtendedFlag(rx[pos + 1])) <= next <= pos + FrameLength(rx[pos + 1])
  }

  /** What an attempt that yields a message has read from pos up to next: a frame whose
      end byte is the end sentinel. */
  predicate FrameRead(rx: seq<byte>, pos: nat, next: nat)
  {
    FrameShape(rx, pos, next) && rx[next - 1] == END
  }

  /** The message such a read carries, field by field: the payload is whatever lies
      between the id field and the end sentinel. */
  function FrameMessage(rx: seq<byte>, pos: nat, next: nat): (m: Message)
    requires FrameRead(rx, pos, next)
  {
    var t := rx[pos + 1];
    var w := IdWidth(ExtendedFlag(t));
    Message(FromLittleEndian(rx[pos + 2..pos + 2 + w]), ExtendedFlag(t), RemoteFlag(t),
            DlcOf(t), rx[pos + 2 + w..next - 1])
  }

  /** Field by field layout of an encoded frame: the type byte, the id in little-endian
      order in its field, then the payload verbatim. For a length code up to 15 the type
      byte has its top two bits set, carries the flags in bits 5 and 4 and the code in
      its low nibble. */
  lemma EncodeLayout(m: Message)
    requires Encode(m).Encoded?
    ensures var b := Encode(m).bytes; var w := IdWidth(m.isExtendedId);
      b[1] == TypeValue(m.isExtendedId, m.isRemoteFrame, m.dlc) as byte &&
      b[2..2 + w] == ToLittleEndian(m.arbitrationId, w) &&
      FromLittleEndian(b[2..2 + w]) == m.arbitrationId &&
      b[2 + w..|b| - 1] == m.data
    ensures var b := Encode(m).bytes;
      m.dlc <= 15 ==>
        TopBitsSet(b[1]) && DlcOf(b[1]) == m.dlc &&
        ExtendedFlag(b[1]) == m.isExtendedId && RemoteFlag(b[1]) == m.isRemoteFrame
  {
    var b := Encode(m).bytes;
    var w := IdWidth(m.isExtendedId);
    var id := Pack(m.arbitrationId, w).value;
    assert b == [START, TypeValue(m.isExtendedId, m.isRemoteFrame, m.dlc) as byte] + id + m.data + [END];
    FrameParts([START, TypeValue(m.isExtendedId, m.isRemoteFrame, m.dlc) as byte], id, m.data, [END]);
    if m.dlc <= 15 {
      TypeValueFields(m.isExtendedId, m.isRemoteFrame, m.dlc);
    }
  }

  /** A length code above 15 is not rejected: it is ORed over the flag bits, so a standard
      data frame with sixteen payload bytes gets the type byte of a remote frame with no
      payload, and the receiver then takes its first payload byte for the end byte. */
  lemma EncodeDlcOverflow()
    ensures var m := Message(0x123, false, false, 16, seq(16, _ => 0));
      Encode(m).Encoded? &&
      Encode(m).bytes[1] as int == TypeValue(false, true, 0) &&
      Decode(Link(Encode(m).bytes, [], false), Cursor(0, 0)) == Decoded(Rejected, Cursor(5, 5))
  {
    var m := Message(0x123, false, false, 16, seq(16, _ => 0));
    assert Pow2(5) == 32;
    BitOrDisjoint(6, 16, 5);
    assert TypeValue(false, false, 16) == 0xD0;
    TypeValueFields(false, true, 0);
    StandardId123();
    EncodeParts(m);
    var b := Encode(m).bytes;
    assert b[..5] == [0xAA, 0xD0, 0x23, 0x01, 0x00];
    assert WholeFrameAt(b, 0) && FrameLength(b[1]) == 5;
    DecodeWholeFrame(Link(b, [], false), Cursor(0, 0));
  }

  /** The encoder accepts a length code that disagrees with the payload. */
  lemma EncodeDlcMismatch()
    ensures Encode(Message(0x123, false, false, 8, [])) == Encoded([0xAA, 0xC8, 0x23, 0x01, 0x55])
  {
    StandardId123();
    EncodeParts(Message(0x123, false, false, 8, []));
    TypeValueFields(false, false, 8);
  }

  /** Test vector: standard id 0x123, data frame, payload 11 22. */
  lemma EncodeStandardVector()
    ensures Encode(Message(0x123, false, false, 2, [0x11, 0x22])) ==
      Encoded([0xAA, 0xC2, 0x23, 0x01, 0x11, 0x22, 0x55])
  {
    StandardId123();
    EncodeParts(Message(0x123, false, false, 2, [0x11, 0x22]));
    TypeValueFields(false, false, 2);
  }

  /** Test vector: extended id 0x1ABCDE, data frame, no payload. */
  lemma EncodeExtendedVector()
    ensures Encode(Message(0x1ABCDE, true, false, 0, [])) ==
      Encoded([0xAA, 0xE0, 0xDE, 0xBC, 0x1A, 0x00, 0x55])
  {
    assert ToLittleEndian(0x00, 1) == [0x00];
    assert ToLittleEndian(0x1A, 2) == [0x1A, 0x00];
    assert ToLittleEndian(0x1ABC, 3) == [0xBC, 0x1A, 0x00];
    assert ToLittleEndian(0x1ABCDE, 4) == [0xDE, 0xBC, 0x1A, 0x00];
    EncodeParts(Message(0x1ABCDE, true, false, 0, []));
    TypeValueFields(true, false, 0);
  }

  lemma StandardId123()
    ensures ToLittleEndian(0x123, 2) == [0x23, 0x01]
  {
    assert ToLittleEndian(0x01, 1) == [0x01];
  }

  /** An encoded frame is the concatenation of its fields. */
  lemma EncodeParts(m: Message)
    requires 0 <= m.dlc < 256 && 0 <= m.arbitrationId < Pow256(IdWidth(m.isExtendedId))
    ensures Encode(m) == Encoded([START, TypeValue(m.isExtendedId, m.isRemoteFrame, m.dlc) as byte] +
      ToLittleEndian(m.arbitrationId, IdWidth(m.isExtendedId)) + m.data + [END])
  {
  }

  /** An attempt ends in "no frame" exactly when the first read yields nothing (nothing has
      arrived, or the port faults) or a byte other than the start sentinel; it then makes
      one read call and consumes at most that one byte. */
  lemma DecodeNoFrame(link: Link, c: Cursor)
    requires c.pos <= |link.rx|
    ensures Decode(link, c).outcome == NoFrame <==>
      Available(link, c.calls) <= c.pos || link.rx[c.pos] != START
    ensures Decode(link, c).outcome == NoFrame ==>
      Decode(link, c).next ==
        Cursor(if Available(link, c.calls) <= c.pos then c.pos else c.pos + 1, c.calls + 1)
  {
    if c.pos < Available(link, c.calls) && link.rx[c.pos] == START {
      assert ReadAt(link, c, 1).result == Bytes([START]);
    }
  }

  /** When a whole frame follows the start sentinel and each read sees it before its
      timeout, the attempt ends as `WholeFrameOutcome` says. */
  lemma DecodeWholeFrame(link: Link, c: Cursor)
    requires WholeFrameAt(link.rx, c.pos)
    requires OnTime(link, c, c.pos + FrameLength(link.rx[c.pos + 1]))
    ensures Decode(link, c) == WholeFrameOutcome(link.rx, c.pos, c.calls)
  {
    OnTimeBounds(link, c);
    FrameOnTime(link, c, link.rx[c.pos + 1], IdWidth(ExtendedFlag(link.rx[c.pos + 1])));
  }

  /** How an attempt on the whole frame at p, begun after k read calls, ends when every
      read sees the frame in time: five read calls, the frame consumed exactly (the id field
      as wide as bit 5 of the type byte says, then low-nibble many payload bytes), and a
      message with the fields on the wire when the byte after the payload is the end
      sentinel, the bare `None` otherwise. */
  function WholeFrameOutcome(rx: seq<byte>, p: nat, k: nat): (d: Decoded)
    requires p + 1 < |rx| && p + FrameLength(rx[p + 1]) <= |rx|
  {
    var t := rx[p + 1];
    var w := IdWidth(ExtendedFlag(t));
    var last := p + 2 + w + DlcOf(t);
    Decoded(if rx[last] == END
            then Got(Message(FromLittleEndian(rx[p + 2..p + 2 + w]), ExtendedFlag(t), RemoteFlag(t), DlcOf(t),
                             rx[p + 2 + w..last]))
            else Rejected,
            Cursor(last + 1, k + 5))
  }

  /** What OnTime says about each read of an attempt on a whole frame. */
  lemma OnTimeBounds(link: Link, c: Cursor)
    requires WholeFrameAt(link.rx, c.pos)
    requires OnTime(link, c, c.pos + FrameLength(link.rx[c.pos + 1]))
    ensures var t := link.rx[c.pos + 1]; var w := IdWidth(ExtendedFlag(t));
      c.pos < Available(link, c.calls) &&
      c.pos + 2 + w <= Available(link, c.calls + 1) && c.pos + 2 + w <= Available(link, c.calls + 2) &&
      c.pos + 2 + w + DlcOf(t) + 1 <= Available(link, c.calls + 3) &&
      c.pos + 2 + w + DlcOf(t) + 1 <= Available(link, c.calls + 4)
  {
    var end := c.pos + FrameLength(link.rx[c.pos + 1]);
    assert end <= Available(link, c.calls) && end <= Available(link, c.calls + 1);
    assert end <= Available(link, c.calls + 2) && end <= Available(link, c.calls + 3);
    assert end <= Available(link, c.calls + 4);
  }

  /** DecodeWholeFrame with the type byte t and the id width w of the frame at c named, and
      each read's deadline stated as the part of the frame it needs. */
  lemma FrameOnTime(link: Link, c: Cursor, t: byte, w: nat)
    requires c.pos + 1 < |link.rx| && link.rx[c.pos] == START
    requires t == link.rx[c.pos + 1] && w == IdWidth(ExtendedFlag(t))
    requires c.pos < Available(link, c.calls)
    requires c.pos + 2 + w <= Available(link, c.calls + 1) && c.pos + 2 + w <= Available(link, c.calls + 2)
    requires c.pos + 2 + w + DlcOf(t) + 1 <= Available(link, c.calls + 3)
    requires c.pos + 2 + w + DlcOf(t) + 1 <= Available(link, c.calls + 4)
    ensures Decode(link, c) == WholeFrameOutcome(link.rx, c.pos, c.calls)
  {
    HeaderTail(link, c.pos, c.calls, t, w);
    StartOnTime(link, c, WholeFrameOutcome(link.rx, c.pos, c.calls));
  }

  /** The start sentinel at c arrives in time: the attempt ends as its header stage does. */
  lemma StartOnTime(link: Link, c: Cursor, d: Decoded)
    requires c.pos < Available(link, c.calls) && link.rx[c.pos] == START
    requires DecodeHeader(link, Cursor(c.pos + 1, c.calls + 1)) == d
    ensures Decode(link, c) == d
  {
    FullRead(link, c, 1);
    assert link.rx[c.pos..c.pos + 1] == [START];
  }

  /** Type byte, id field, payload and end byte of the frame at p all arrive in time. */
  lemma HeaderTail(link: Link, p: nat, k: nat, t: byte, w: nat)
    requires p + 1 < |link.rx| && t == link.rx[p + 1] && w == IdWidth(ExtendedFlag(t))
    requires p + 2 + w <= Available(link, k + 1) && p + 2 + w <= Available(link, k + 2)
    requires p + 2 + w + DlcOf(t) + 1 <= Available(link, k + 3)
    requires p + 2 + w + DlcOf(t) + 1 <= Available(link, k + 4)
    ensures DecodeHeader(link, Cursor(p + 1, k + 1)) == WholeFrameOutcome(link.rx, p, k)
  {
    HeaderOnTime(link, p, k, t, w);
    PayloadOnTime(link, p, k, t, w);
  }

  /** Type byte and id field of a frame starting at p both arrive in time: the header
      stage hands them on. */
  lemma HeaderOnTime(link: Link, p: nat, k: nat, t: byte, w: nat)
    requires p + 1 < |link.rx| && t == link.rx[p + 1] && w == IdWidth(ExtendedFlag(t))
    requires p + 2 + w <= Available(link, k + 1) && p + 2 + w <= Available(link, k + 2)
    ensures DecodeHeader(link, Cursor(p + 1, k + 1)) ==
      DecodePayload(link, Cursor(p + 2 + w, k + 3), t, link.rx[p + 2..p + 2 + w])
  {
    FullRead(link, Cursor(p + 1, k + 1), 1);
    assert link.rx[p + 1..p + 2] == [t];
    FullRead(link, Cursor(p + 2, k + 2), w);
  }

  /** Payload and end byte of a frame starting at p both arrive in time. */
  lemma PayloadOnTime(link: Link, p: nat, k: nat, t: byte, w: nat)
    requires p + 1 < |link.rx| && t == link.rx[p + 1] && w == IdWidth(ExtendedFlag(t))
    requires p + 2 + w + DlcOf(t) + 1 <= Available(link, k + 3)
    requires p + 2 + w + DlcOf(t) + 1 <= Available(link, k + 4)
    ensures DecodePayload(link, Cursor(p + 2 + w, k + 3), t, link.rx[p + 2..p + 2 + w]) ==
      WholeFrameOutcome(link.rx, p, k)
  {
    var last := p + 2 + w + DlcOf(t);
    FullRead(link, Cursor(p + 2 + w, k + 3), DlcOf(t));
    FullRead(link, Cursor(last, k + 4), 1);
    assert link.rx[last..last + 1] == [link.rx[last]];
  }

  /** A read whose n bytes have arrived before its timeout returns them all. */
  lemma FullRead(link: Link, c: Cursor, n: nat)
    requires c.pos + n <= Available(link, c.calls)
    ensures ReadAt(link, c, n) == Step(Bytes(link.rx[c.pos..c.pos + n]), Cursor(c.pos + n, c.calls + 1))
  {
  }

  /** A read whose n bytes have not all arrived by its timeout, on a port that times out,
      returns what has arrived. */
  lemma TimedOutRead(link: Link, c: Cursor, n: nat)
    requires c.pos <= Available(link, c.calls) < c.pos + n && !link.failsWhenDrained
    ensures ReadAt(link, c, n) ==
      Step(Bytes(link.rx[c.pos..Available(link, c.calls)]), Cursor(Available(link, c.calls), c.calls + 1))
  {
  }

  /** When the stream ends inside a frame and every read sees all of it before its timeout,
      the attempt raises: a short read (the port timed out, and the whole rest of the
      stream is consumed) or the port's own fault. */
  lemma DecodeTruncatedFrame(link: Link, c: Cursor)
    requires TruncatedFrameAt(link.rx, c.pos)
    requires OnTime(link, c, |link.rx|)
    ensures var d := Decode(link, c);
      (d.outcome == ShortRead <==> !link.failsWhenDrained) &&
      (d.outcome == PortFault <==> link.failsWhenDrained) &&
      (d.outcome == ShortRead ==> d.next.pos == |link.rx|)
  {
    var k := c.calls;
    assert |link.rx| <= Available(link, k) && |link.rx| <= Available(link, k + 1);
    assert |link.rx| <= Available(link, k + 2) && |link.rx| <= Available(link, k + 3);
    assert |link.rx| <= Available(link, k + 4);
  }

  /** Whatever the timing, an attempt that yields a message has made five read calls and
      read a start sentinel, a type byte, a whole id field, at most the announced payload
      and an end sentinel, and the message holds exactly the fields it read. */
  lemma DecodeGot(link: Link, c: Cursor)
    requires c.pos <= |link.rx|
    requires Decode(link, c).outcome.Got?
    ensures var d := Decode(link, c);
      FrameRead(link.rx, c.pos, d.next.pos) &&
      d.outcome.msg == FrameMessage(link.rx, c.pos, d.next.pos) &&
      d.next.calls == c.calls + 5
  {
    StartGot(link, c);
    HeaderFrame(link, c.pos, c.calls);
  }

  /** What a decoded message says about the attempt that began at position p after k read
      calls: the frame it was read from and the read calls it took. */
  predicate GotFromFrame(rx: seq<byte>, p: nat, k: nat, d: Decoded)
  {
    d.outcome.Got? ==>
      FrameRead(rx, p, d.next.pos) && d.outcome.msg == FrameMessage(rx, p, d.next.pos) &&
      d.next.calls == k + 5
  }

  lemma HeaderFrame(link: Link, p: nat, k: nat)
    requires p < |link.rx| && link.rx[p] == START
    ensures GotFromFrame(link.rx, p, k, DecodeHeader(link, Cursor(p + 1, k + 1)))
  {
    var d := DecodeHeader(link, Cursor(p + 1, k + 1));
    if d.outcome.Got? {
      var rx := link.rx;
      var typeRead := ReadAt(link, Cursor(p + 1, k + 1), 1);
      assert typeRead.next == Cursor(p + 2, k + 2);
      var t := rx[p + 1];
      assert typeRead.result == Bytes([t]);
      var w := IdWidth(ExtendedFlag(t));
      var idRead := ReadAt(link, Cursor(p + 2, k + 2), w);
      assert idRead.next == Cursor(p + 2 + w, k + 3) && idRead.result == Bytes(rx[p + 2..p + 2 + w]);
      assert d == DecodePayload(link, Cursor(p + 2 + w, k + 3), t, rx[p + 2..p + 2 + w]);
      PayloadFrame(link, p, k, t, w, rx[p + 2..p + 2 + w]);
    }
  }

  lemma PayloadFrame(link: Link, p: nat, k: nat, t: byte, w: nat, ib: seq<byte>)
    requires p + 2 + w <= |link.rx| && link.rx[p] == START
    requires t == link.rx[p + 1] && w == IdWidth(ExtendedFlag(t)) && ib == link.rx[p + 2..p + 2 + w]
    ensures GotFromFrame(link.rx, p, k, DecodePayload(link, Cursor(p + 2 + w, k + 3), t, ib))
  {
    var rx := link.rx;
    var d := DecodePayload(link, Cursor(p + 2 + w, k + 3), t, ib);
    if d.outcome.Got? {
      var dataRead := ReadAt(link, Cursor(p + 2 + w, k + 3), DlcOf(t));
      var endRead := ReadAt(link, dataRead.next, 1);
      var q := dataRead.next.pos;
      assert dataRead.result.Bytes? && endRead.result == Bytes([END]);
      assert d == Decoded(Got(Message(FromLittleEndian(ib), ExtendedFlag(t), RemoteFlag(t), DlcOf(t),
                                      dataRead.result.bytes)), endRead.next);
      assert endRead.next == Cursor(q + 1, k + 5);
      assert dataRead.result.bytes == rx[p + 2 + w..q];
      assert p + 2 + w <= q <= p + 2 + w + DlcOf(t) && rx[q] == END;
      assert FrameLength(t) == 2 + w + DlcOf(t) + 1;
      assert FrameRead(rx, p, q + 1);
      assert d.outcome.msg == FrameMessage(rx, p, q + 1);
    }
  }

  /** The first stage hands on only after reading the start sentinel. */
  lemma StartGot(link: Link, c: Cursor)
    requires c.pos <= |link.rx|
    requires Decode(link, c).outcome.Got?
    ensures c.pos < |link.rx| && link.rx[c.pos] == START
    ensures Decode(link, c) == DecodeHeader(link, Cursor(c.pos + 1, c.calls + 1))
  {
  }

  /** Whatever the timing, an attempt that raises or rejects did so after reading a start
      sentinel, and for a reason the stream shows: a port fault only when the stream ends
      inside the frame; a short read only when the last read took everything that had
      arrived by its timeout and that still fell short of the frame; a rejection only
      after a whole type byte, id field and end byte, that end byte not being the end
      sentinel. */
  lemma DecodeFailure(link: Link, c: Cursor)
    requires c.pos <= |link.rx|
    requires Decode(link, c).outcome in {PortFault, ShortRead, Rejected}
    ensures c.pos < |link.rx| && link.rx[c.pos] == START
    ensures FailureExplained(link, c.pos, c.calls, Decode(link, c))
  {
    FirstRead(link, c);
    HeaderFailure(link, c.pos, c.calls);
  }

  /** Why the attempt that began at p after k read calls ended in d, when it raised or
      rejected. */
  predicate FailureExplained(link: Link, p: nat, k: nat, d: Decoded)
    requires p < |link.rx|
  {
    (d.outcome == PortFault ==> link.failsWhenDrained && TruncatedFrameAt(link.rx, p)) &&
    (d.outcome == ShortRead ==>
      k + 2 <= d.next.calls && Available(link, d.next.calls - 1) <= d.next.pos &&
      d.next.pos < p + (if p + 1 < |link.rx| then FrameLength(link.rx[p + 1]) else 2)) &&
    (d.outcome == Rejected ==>
      FrameShape(link.rx, p, d.next.pos) && link.rx[d.next.pos - 1] != END && d.next.calls == k + 5)
  }

  /** An attempt that gets past its first read has read the start sentinel. */
  lemma FirstRead(link: Link, c: Cursor)
    requires c.pos <= |link.rx|
    requires Decode(link, c).outcome != NoFrame
    ensures c.pos < |link.rx| && link.rx[c.pos] == START
    ensures Decode(link, c) == DecodeHeader(link, Cursor(c.pos + 1, c.calls + 1))
  {
  }

  lemma HeaderFailure(link: Link, p: nat, k: nat)
    requires p < |link.rx| && link.rx[p] == START
    ensures FailureExplained(link, p, k, DecodeHeader(link, Cursor(p + 1, k + 1)))
  {
    var rx := link.rx;
    var typeRead := ReadAt(link, Cursor(p + 1, k + 1), 1);
    if typeRead.result.Bytes? && |typeRead.result.bytes| == 1 {
      assert typeRead.next == Cursor(p + 2, k + 2);
      var t := rx[p + 1];
      assert rx[p + 1..p + 2] == [t];
      assert typeRead.result == Bytes([t]);
      var w := IdWidth(ExtendedFlag(t));
      var idRead := ReadAt(link, Cursor(p + 2, k + 2), w);
      if idRead.result.Bytes? && |idRead.result.bytes| == w {
        assert idRead.next == Cursor(p + 2 + w, k + 3) && idRead.result == Bytes(rx[p + 2..p + 2 + w]);
        assert DecodeHeader(link, Cursor(p + 1, k + 1)) ==
          DecodePayload(link, Cursor(p + 2 + w, k + 3), t, rx[p + 2..p + 2 + w]);
        PayloadFailure(link, p, k, t, w, rx[p + 2..p + 2 + w]);
      }
    }
  }

  lemma PayloadFailure(link: Link, p: nat, k: nat, t: byte, w: nat, ib: seq<byte>)
    requires p + 2 + w <= |link.rx| && link.rx[p] == START
    requires t == link.rx[p + 1] && w == IdWidth(ExtendedFlag(t))
    ensures FailureExplained(link, p, k, DecodePayload(link, Cursor(p + 2 + w, k + 3), t, ib))
  {
    var rx := link.rx;
    var d := DecodePayload(link, Cursor(p + 2 + w, k + 3), t, ib);
    assert FrameLength(t) == 2 + w + DlcOf(t) + 1;
    var dataRead := ReadAt(link, Cursor(p + 2 + w, k + 3), DlcOf(t));
    if dataRead.result.Bytes? {
      var q := dataRead.next.pos;
      assert p + 2 + w <= q <= p + 2 + w + DlcOf(t);
      var endRead := ReadAt(link, dataRead.next, 1);
      if endRead.result.Raised? {
        assert q == p + 2 + w + DlcOf(t);
      } else if |endRead.result.bytes| == 1 {
        assert endRead.next == Cursor(q + 1, k + 5) && endRead.result.bytes == [rx[q]];
      }
    }
  }

  /** A message decoded from the wire always has a length code of at most 15, an id that
      fits its field and no more payload than the code announces. The payload falls short
      of the code when a read timed out mid-frame; when every read of the attempt sees the
      whole stream, the message is carriable. */
  lemma DecodedIsCarriable(link: Link, c: Cursor)
    requires c.pos <= |link.rx|
    requires Decode(link, c).outcome.Got?
    ensures var m := Decode(link, c).outcome.msg;
      0 <= m.dlc <= 15 && 0 <= m.arbitrationId < Pow256(IdWidth(m.isExtendedId)) &&
      |m.data| <= m.dlc
    ensures OnTime(link, c, |link.rx|) ==> Carriable(Decode(link, c).outcome.msg)
  {
    DecodeGot(link, c);
    if OnTime(link, c, |link.rx|) {
      if WholeFrameAt(link.rx, c.pos) {
        assert OnTime(link, c, c.pos + FrameLength(link.rx[c.pos + 1]));
        DecodeWholeFrame(link, c);
      } else {
        DecodeTruncatedFrame(link, c);
      }
    }
  }

  /** The source as written: a payload read cut short by its timeout still yields a
      message, with fewer payload bytes than its length code, when the end sentinel is the
      next byte to arrive and arrives in time for the last read. */
  lemma ShortPayloadGot(link: Link, c: Cursor, t: byte, w: nat, q: nat)
    requires c.pos + 1 < |link.rx| && link.rx[c.pos] == START
    requires t == link.rx[c.pos + 1] && w == IdWidth(ExtendedFlag(t))
    requires c.pos < Available(link, c.calls)
    requires c.pos + 2 + w <= Available(link, c.calls + 1) && c.pos + 2 + w <= Available(link, c.calls + 2)
    requires !link.failsWhenDrained
    requires c.pos + 2 + w <= q < c.pos + 2 + w + DlcOf(t) && Available(link, c.calls + 3) == q
    requires q < Available(link, c.calls + 4) && link.rx[q] == END
    ensures Decode(link, c) == ShortPayloadOutcome(link.rx, c.pos, c.calls, q)
    ensures |ShortPayloadOutcome(link.rx, c.pos, c.calls, q).outcome.msg.data| < DlcOf(t)
  {
    HeaderTimedOut(link, c.pos, c.calls, t, w, q);
    StartOnTime(link, c, ShortPayloadOutcome(link.rx, c.pos, c.calls, q));
  }

  /** How an attempt on the frame at p, begun after k read calls, ends when its payload
      read stops at q and the byte at q is taken for the end byte: a message whose payload
      is what lies between the id field and q. */
  function ShortPayloadOutcome(rx: seq<byte>, p: nat, k: nat, q: nat): (d: Decoded)
    requires p + 1 < |rx| && p + 2 + IdWidth(ExtendedFlag(rx[p + 1])) <= q <= |rx|
  {
    var t := rx[p + 1];
    var w := IdWidth(ExtendedFlag(t));
    Decoded(Got(Message(FromLittleEndian(rx[p + 2..p + 2 + w]), ExtendedFlag(t), RemoteFlag(t), DlcOf(t),
                        rx[p + 2 + w..q])),
            Cursor(q + 1, k + 5))
  }

  /** Type byte and id field of the frame at p arrive in time, its payload read times out
      at q, and the end sentinel at q arrives in time for the last read. */
  lemma HeaderTimedOut(link: Link, p: nat, k: nat, t: byte, w: nat, q: nat)
    requires p + 1 < |link.rx| && t == link.rx[p + 1] && w == IdWidth(ExtendedFlag(t))
    requires p + 2 + w <= Available(link, k + 1) && p + 2 + w <= Available(link, k + 2)
    requires !link.failsWhenDrained
    requires p + 2 + w <= q < p + 2 + w + DlcOf(t) && Available(link, k + 3) == q
    requires q < Available(link, k + 4) && link.rx[q] == END
    ensures DecodeHeader(link, Cursor(p + 1, k + 1)) == ShortPayloadOutcome(link.rx, p, k, q)
  {
    HeaderOnTime(link, p, k, t, w);
    PayloadTimedOut(link, p, k, t, w, q);
  }

  /** The payload read of the frame at p times out at q, and the end sentinel at q arrives
      in time for the last read. */
  lemma PayloadTimedOut(link: Link, p: nat, k: nat, t: byte, w: nat, q: nat)
    requires p + 1 < |link.rx| && t == link.rx[p + 1] && w == IdWidth(ExtendedFlag(t))
    requires !link.failsWhenDrained
    requires p + 2 + w <= q < p + 2 + w + DlcOf(t) && Available(link, k + 3) == q
    requires q < Available(link, k + 4) && link.rx[q] == END
    ensures DecodePayload(link, Cursor(p + 2 + w, k + 3), t, link.rx[p + 2..p + 2 + w]) ==
      ShortPayloadOutcome(link.rx, p, k, q)
  {
    TimedOutRead(link, Cursor(p + 2 + w, k + 3), DlcOf(t));
    FullRead(link, Cursor(q, k + 4), 1);
    assert link.rx[q..q + 1] == [END];
  }

  /** A timeout before the end byte arrives loses the frame, even with the whole payload
      read: `ord` gets an empty read, and the attempt raises having consumed everything
      before the end byte. */
  lemma LateEndByte(link: Link, c: Cursor, t: byte, w: nat)
    requires c.pos + 1 < |link.rx| && link.rx[c.pos] == START
    requires t == link.rx[c.pos + 1] && w == IdWidth(ExtendedFlag(t))
    requires c.pos < Available(link, c.calls)
    requires c.pos + 2 + w <= Available(link, c.calls + 1) && c.pos + 2 + w <= Available(link, c.calls + 2)
    requires !link.failsWhenDrained
    requires c.pos + 2 + w + DlcOf(t) <= Available(link, c.calls + 3)
    requires Available(link, c.calls + 4) == c.pos + 2 + w + DlcOf(t)
    ensures Decode(link, c) == Decoded(ShortRead, Cursor(c.pos + 2 + w + DlcOf(t), c.calls + 5))
  {
    HeaderEndLate(link, c.pos, c.calls, t, w);
    StartOnTime(link, c, Decoded(ShortRead, Cursor(c.pos + 2 + w + DlcOf(t), c.calls + 5)));
  }

  /** Type byte, id field and payload of the frame at p arrive in time, the end byte does not. */
  lemma HeaderEndLate(link: Link, p: nat, k: nat, t: byte, w: nat)
    requires p + 1 < |link.rx| && t == link.rx[p + 1] && w == IdWidth(ExtendedFlag(t))
    requires p + 2 + w <= Available(link, k + 1) && p + 2 + w <= Available(link, k + 2)
    requires !link.failsWhenDrained
    requires p + 2 + w + DlcOf(t) <= Available(link, k + 3)
    requires Available(link, k + 4) == p + 2 + w + DlcOf(t)
    ensures DecodeHeader(link, Cursor(p + 1, k + 1)) == Decoded(ShortRead, Cursor(p + 2 + w + DlcOf(t), k + 5))
  {
    HeaderOnTime(link, p, k, t, w);
    EndTimedOut(link, p, k, t, w);
  }

  /** The whole payload of the frame at p arrives in time, the end byte does not. */
  lemma EndTimedOut(link: Link, p: nat, k: nat, t: byte, w: nat)
    requires p + 1 < |link.rx| && !link.failsWhenDrained
    requires p + 2 + w + DlcOf(t) <= Available(link, k + 3)
    requires Available(link, k + 4) == p + 2 + w + DlcOf(t)
    ensures DecodePayload(link, Cursor(p + 2 + w, k + 3), t, link.rx[p + 2..p + 2 + w]) ==
      Decoded(ShortRead, Cursor(p + 2 + w + DlcOf(t), k + 5))
  {
    FullRead(link, Cursor(p + 2 + w, k + 3), DlcOf(t));
    TimedOutRead(link, Cursor(p + 2 + w + DlcOf(t), k + 4), 1);
  }

  /** An instance: `AA C2 23 01 11 55` where the payload read times out after `11` and the
      end byte then arrives yields a two-byte-code message carrying one byte. */
  lemma ShortPayloadAccepted()
    ensures var link := Link([0xAA, 0xC2, 0x23, 0x01, 0x11, 0x55], [1, 4, 4, 5], false);
      Monotone(link) &&
      Decode(link, Cursor(0, 0)) == Decoded(Got(Message(0x123, false, false, 2, [0x11])), Cursor(6, 5)) &&
      !Carriable(Message(0x123, false, false, 2, [0x11]))
  {
    var link := Link([0xAA, 0xC2, 0x23, 0x01, 0x11, 0x55], [1, 4, 4, 5], false);
    InstanceSchedule(link.arrived);
    assert DlcOf(0xC2) == 2 && !ExtendedFlag(0xC2);
    assert Available(link, 0) == 1 && Available(link, 1) == 4 && Available(link, 2) == 4;
    assert Available(link, 3) == 5 && Available(link, 4) == 6;
    ShortPayloadGot(link, Cursor(0, 0), 0xC2, 2, 5);
    InstanceOutcome(link.rx);
  }

  /** The arrival schedule of that instance is a physical one. */
  lemma InstanceSchedule(arrived: seq<nat>)
    requires |arrived| == 4 && arrived[0] == 1 && arrived[1] == 4 && arrived[2] == 4 && arrived[3] == 5
    ensures Monotone(Link([], arrived, false))
  {
  }

  /** The message that instance yields. */
  lemma InstanceOutcome(rx: seq<byte>)
    requires |rx| == 6 && rx[1] == 0xC2 && rx[2] == 0x23 && rx[3] == 0x01 && rx[4] == 0x11
    ensures ShortPayloadOutcome(rx, 0, 0, 5) == Decoded(Got(Message(0x123, false, false, 2, [0x11])), Cursor(6, 5))
  {
    assert DlcOf(0xC2) == 2 && !ExtendedFlag(0xC2) && !RemoteFlag(0xC2);
    assert rx[2..4] == [0x23, 0x01] && rx[4..5] == [0x11];
    assert FromLittleEndian([0x23, 0x01]) == 0x123 by {
      assert [0x23, 0x01][1..] == [0x01];
    }
  }

  /** Round trip: a carriable message encodes, and an attempt on a stream that continues
      with its encoding, each read seeing all of it in time, yields the same message,
      consumes exactly the encoding and makes five read calls. */
  lemma RoundTrip(m: Message, link: Link, c: Cursor)
    requires Carriable(m)
    requires Encode(m).Encoded?
    requires c.pos + |Encode(m).bytes| <= |link.rx| &&
      link.rx[c.pos..c.pos + |Encode(m).bytes|] == Encode(m).bytes
    requires OnTime(link, c, c.pos + |Encode(m).bytes|)
    ensures Decode(link, c) == Decoded(Got(m), Cursor(c.pos + |Encode(m).bytes|, c.calls + 5))
  {
    EncodingOutcome(m, link.rx, c.pos, c.calls);
    DecodeWholeFrame(link, c);
  }

  /** On a stream that continues with the encoding of a carriable message, an attempt that
      sees the frame in time yields that message. */
  lemma EncodingOutcome(m: Message, rx: seq<byte>, pos: nat, k: nat)
    requires Carriable(m)
    requires Encode(m).Encoded?
    requires pos + |Encode(m).bytes| <= |rx| && rx[pos..pos + |Encode(m).bytes|] == Encode(m).bytes
    ensures WholeFrameAt(rx, pos) && FrameLength(rx[pos + 1]) == |Encode(m).bytes|
    ensures WholeFrameOutcome(rx, pos, k) == Decoded(Got(m), Cursor(pos + |Encode(m).bytes|, k + 5))
  {
    EncodingAt(m, rx, pos);
  }

  /** A stream that continues with the encoding of a carriable message holds, from pos, a
      whole frame whose fields are those of the message and whose last byte is the end
      sentinel. */
  lemma EncodingAt(m: Message, rx: seq<byte>, pos: nat)
    requires Carriable(m)
    requires Encode(m).Encoded?
    requires pos + |Encode(m).bytes| <= |rx| && rx[pos..pos + |Encode(m).bytes|] == Encode(m).bytes
    ensures WholeFrameAt(rx, pos)
    ensures var p := pos; var t := rx[p + 1]; var w := IdWidth(ExtendedFlag(t));
      var last := p + 2 + w + DlcOf(t);
      last + 1 == pos + |Encode(m).bytes| && FrameLength(t) == |Encode(m).bytes| && rx[last] == END &&
      Message(FromLittleEndian(rx[p + 2..p + 2 + w]), ExtendedFlag(t), RemoteFlag(t), DlcOf(t),
              rx[p + 2 + w..last]) == m
  {
    var b := Encode(m).bytes;
    var w := IdWidth(m.isExtendedId);
    var t := rx[pos + 1];
    EncodeLayout(m);
    Slice(rx, pos, b, 1, 2);
    Slice(rx, pos, b, 2, 2 + w);
    Slice(rx, pos, b, 2 + w, |b| - 1);
    Slice(rx, pos, b, |b| - 1, |b|);
    assert t == b[1] && rx[pos] == b[0];
    assert ExtendedFlag(t) == m.isExtendedId && RemoteFlag(t) == m.isRemoteFrame && DlcOf(t) == m.dlc;
    assert IdWidth(ExtendedFlag(t)) == w;
    assert pos + 2 + w + DlcOf(t) == pos + |b| - 1;
    assert FrameLength(t) == |b|;
    assert FromLittleEndian(rx[pos + 2..pos + 2 + w]) == m.arbitrationId;
    assert rx[pos + 2 + w..pos + |b| - 1] == m.data;
  }

  lemma Slice(rx: seq<byte>, pos: nat, b: seq<byte>, i: nat, j: nat)
    requires pos + |b| <= |rx| && rx[pos..pos + |b|] == b
    requires i <= j <= |b|
    ensures rx[pos + i..pos + j] == b[i..j]
  {
    assert forall k :: 0 <= k < j - i ==> rx[pos + i..pos + j][k] == b[i..j][k];
  }

  /** Every carriable message can be encoded. */
  lemma CarriableEncodes(m: Message)
    requires Carriable(m)
    ensures Encode(m).Encoded?
  {
  }

  /** The other direction, with the received flags taken as booleans: a decoded message
      re-encodes, whatever the timing, and gives back the bytes it was read from exactly
      when the type byte's two top bits were set, the only thing the receiver ignores. */
  lemma ReencodeDecoded(link: Link, c: Cursor)
    requires c.pos <= |link.rx|
    requires Decode(link, c).outcome.Got?
    ensures var d := Decode(link, c);
      Encode(d.outcome.msg).Encoded? &&
      (Encode(d.outcome.msg).bytes == link.rx[c.pos..d.next.pos] <==> TopBitsSet(link.rx[c.pos + 1]))
  {
    DecodeGot(link, c);
    ReencodeFrame(link.rx, c.pos, Decode(link, c).next.pos);
  }

  lemma ReencodeFrame(rx: seq<byte>, pos: nat, next: nat)
    requires FrameRead(rx, pos, next)
    ensures Encode(FrameMessage(rx, pos, next)).Encoded?
    ensures Encode(FrameMessage(rx, pos, next)).bytes == rx[pos..next] <==> TopBitsSet(rx[pos + 1])
  {
    var t := rx[pos + 1];
    var typ := TypeValue(ExtendedFlag(t), RemoteFlag(t), DlcOf(t)) as byte;
    EncodeFrameMessage(rx, pos, next);
    assert rx[pos..next] == [START, t] + rx[pos + 2..next];
    TypeValueOfFields(t);
    SecondByte(typ, t, rx[pos + 2..next]);
  }

  lemma EncodeFrameMessage(rx: seq<byte>, pos: nat, next: nat)
    requires FrameRead(rx, pos, next)
    ensures var t := rx[pos + 1];
      Encode(FrameMessage(rx, pos, next)) ==
      Encoded([START, TypeValue(ExtendedFlag(t), RemoteFlag(t), DlcOf(t)) as byte] + rx[pos + 2..next])
  {
    var m := FrameMessage(rx, pos, next);
    var t := rx[pos + 1];
    var w := IdWidth(ExtendedFlag(t));
    var ib := rx[pos + 2..pos + 2 + w];
    LittleEndianOfValue(ib);
    assert Pack(m.arbitrationId, w) == Some(ib);
    var typ := TypeValue(ExtendedFlag(t), RemoteFlag(t), DlcOf(t)) as byte;
    assert Encode(m).bytes == [START, typ] + ib + m.data + [END];
    Concat4([START, typ], ib, m.data, [END]);
    FrameTail(rx, pos, next);
  }

  /** After the type byte, a frame read is its id field, its payload and the end byte. */
  lemma FrameTail(rx: seq<byte>, pos: nat, next: nat)
    requires FrameRead(rx, pos, next)
    ensures var w := IdWidth(ExtendedFlag(rx[pos + 1]));
      rx[pos + 2..pos + 2 + w] + rx[pos + 2 + w..next - 1] + [END] == rx[pos + 2..next]
  {
    var w := IdWidth(ExtendedFlag(rx[pos + 1]));
    SliceConcat(rx, pos + 2, pos + 2 + w, next - 1);
    SliceConcat(rx, pos + 2, next - 1, next);
    assert rx[next - 1..next] == [END];
  }

  /** The id field and the payload of a frame assembled from its parts. */
  lemma FrameParts(h: seq<byte>, id: seq<byte>, data: seq<byte>, e: seq<byte>)
    ensures var b := h + id + data + e;
      b[|h|..|h| + |id|] == id && b[|h| + |id|..|h| + |id| + |data|] == data
  {
    var b := h + id + data + e;
    assert b[|h|..|h| + |id|] == id;
    assert b[|h| + |id|..|h| + |id| + |data|] == data;
  }

  lemma SliceConcat(s: seq<byte>, a: nat, b: nat, c: nat)
    requires a <= b <= c <= |s|
    ensures s[a..b] + s[b..c] == s[a..c]
  {
  }

  lemma Concat4(p: seq<byte>, q: seq<byte>, r: seq<byte>, u: seq<byte>)
    ensures p + q + r + u == p + (q + r + u)
  {
  }

  lemma SecondByte(x: byte, y: byte, rest: seq<byte>)
    ensures [START, x] + rest == [START, y] + rest <==> x == y
  {
    if [START, x] + rest == [START, y] + rest {
      assert ([START, x] + rest)[1] == ([START, y] + rest)[1];
    }
  }

  /** k attempts in a row that ended in "no frame". */
  function NoFrames(k: nat): (r: seq<Received>)
    ensures |r| == k && forall i :: 0 <= i < k ==> r[i] == NoFrame
  {
    if k == 0 then [] else [NoFrame] + NoFrames(k - 1)
  }

  /** Garbage before a frame, on a port whose bytes have all arrived: each byte that is not
      the start sentinel costs one attempt ending in "no frame", and the attempt after them
      yields the frame. */
  lemma {:induction false} SkipsGarbage(link: Link, c: Cursor, k: nat, m: Message)
    requires AllArrived(link, c.calls)
    requires c.pos + k <= |link.rx|
    requires forall i :: c.pos <= i < c.pos + k ==> link.rx[i] != START
    requires Carriable(m) && Encode(m).Encoded?
    requires c.pos + k + |Encode(m).bytes| <= |link.rx|
    requires link.rx[c.pos + k..c.pos + k + |Encode(m).bytes|] == Encode(m).bytes
    ensures Attempts(link, c, k + 1) == NoFrames(k) + [Got(m)]
    decreases k, 1
  {
    if k == 0 {
      AttemptOnFrame(link, c, m);
      assert NoFrames(0) + [Got(m)] == [Got(m)];
    } else {
      SkipsOneMore(link, c, k, m);
    }
  }

  /** The inductive step: the first byte is garbage, the rest is a shorter instance. */
  lemma {:induction false} SkipsOneMore(link: Link, c: Cursor, k: nat, m: Message)
    requires 0 < k
    requires AllArrived(link, c.calls)
    requires c.pos + k <= |link.rx|
    requires forall i :: c.pos <= i < c.pos + k ==> link.rx[i] != START
    requires Carriable(m) && Encode(m).Encoded?
    requires c.pos + k + |Encode(m).bytes| <= |link.rx|
    requires link.rx[c.pos + k..c.pos + k + |Encode(m).bytes|] == Encode(m).bytes
    ensures Attempts(link, c, k + 1) == NoFrames(k) + [Got(m)]
    decreases k, 0
  {
    var c' := Cursor(c.pos + 1, c.calls + 1);
    assert AllArrived(link, c'.calls);
    assert link.rx[c.pos] != START;
    assert c'.pos + (k - 1) == c.pos + k;
    SkipsGarbage(link, c', k - 1, m);
    assert (k - 1) + 1 == k;
    GarbageStep(link, c, k - 1, m);
  }

  /** One more byte of garbage in front costs one more "no frame". */
  lemma GarbageStep(link: Link, c: Cursor, k: nat, m: Message)
    requires AllArrived(link, c.calls)
    requires c.pos < |link.rx| && link.rx[c.pos] != START
    requires Attempts(link, Cursor(c.pos + 1, c.calls + 1), k + 1) == NoFrames(k) + [Got(m)]
    ensures Attempts(link, c, k + 1 + 1) == NoFrames(k + 1) + [Got(m)]
  {
    var n := k + 1;
    assert c.pos < Available(link, c.calls) by {
      ArrivedAvailable(link, c.calls, c.calls);
    }
    assert Attempts(link, c, n + 1) == [NoFrame] + Attempts(link, Cursor(c.pos + 1, c.calls + 1), n) by {
      AttemptOnGarbage(link, c, n);
    }
    PrependNoFrame(k, [Got(m)]);
  }

  lemma PrependNoFrame(k: nat, rest: seq<Received>)
    ensures [NoFrame] + (NoFrames(k) + rest) == NoFrames(k + 1) + rest
  {
  }

  lemma ArrivedAvailable(link: Link, k: nat, i: nat)
    requires AllArrived(link, k) && k <= i
    ensures Available(link, i) == |link.rx|
  {
  }

  lemma AttemptOnGarbage(link: Link, c: Cursor, n: nat)
    requires c.pos < Available(link, c.calls) && link.rx[c.pos] != START
    ensures Attempts(link, c, n + 1) == [NoFrame] + Attempts(link, Cursor(c.pos + 1, c.calls + 1), n)
  {
    DecodeNoFrame(link, c);
  }

  lemma AttemptOnFrame(link: Link, c: Cursor, m: Message)
    requires AllArrived(link, c.calls)
    requires Carriable(m) && Encode(m).Encoded?
    requires c.pos + |Encode(m).bytes| <= |link.rx| &&
      link.rx[c.pos..c.pos + |Encode(m).bytes|] == Encode(m).bytes
    ensures Attempts(link, c, 1) == [Got(m)]
  {
    RoundTrip(m, link, c);
  }
}
