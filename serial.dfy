/** The serial port as the driver sees it: a stream of incoming bytes read through a
    cursor under a per-read timeout, and the bytes written so far. */
module Serial {
  import opened Wire

  /** What the adapter delivers: its bytes in order of arrival; for the k-th read call on
      the port, how many of them have arrived by the time that read's timeout expires
      (once the schedule runs out, every byte has arrived); and whether a read that the
      whole stream cannot satisfy raises `SerialException` instead of timing out. */
  datatype Link = Link(rx: seq<byte>, arrived: seq<nat>, failsWhenDrained: bool)

  /** How far into the stream the k-th read can see before its timeout expires. */
  function Available(link: Link, k: nat): (a: nat)
    ensures a <= |link.rx|
    ensures k >= |link.arrived| ==> a == |link.rx|
  {
    if k < |link.arrived| && link.arrived[k] < |link.rx| then link.arrived[k] else |link.rx|
  }

  /** A physical schedule: each read's timeout expires after the previous one's, so a later
      read sees at least what an earlier one saw. The lemmas about the port do not assume
      it; they also hold for schedules that break it. */
  predicate Monotone(link: Link)
  {
    forall i, j :: 0 <= i < j < |link.arrived| ==> link.arrived[i] <= link.arrived[j]
  }

  /** Where the driver stands: bytes consumed so far and read calls made so far. */
  datatype Cursor = Cursor(pos: nat, calls: nat)

  /** How far into the stream a read at cursor c sees: what has arrived by its timeout, and
      at least what has already been consumed. */
  function OnHand(link: Link, c: Cursor): (a: nat)
    requires c.pos <= |link.rx|
    ensures c.pos <= a <= |link.rx|
  {
    if Available(link, c.calls) < c.pos then c.pos else Available(link, c.calls)
  }

  /** What one `read(n)` call gives back: the bytes it returned (fewer than asked for when
      the timeout expired first) or a raised `SerialException`. */
  datatype ReadResult = Bytes(bytes: seq<byte>) | Raised

  /** A read's result together with the cursor after it. */
  datatype Step = Step(result: ReadResult, next: Cursor)

  /** `read(n)` at cursor c: it returns as soon as n bytes are on hand, or, when its timeout
      expires first, the bytes that have arrived by then (possibly none); on a port that
      faults once drained, a read the rest of the stream cannot satisfy raises instead and
      consumes nothing. */
  function ReadAt(link: Link, c: Cursor, n: nat): (s: Step)
    requires c.pos <= |link.rx|
    ensures s.next.calls == c.calls + 1
    ensures c.pos <= s.next.pos <= |link.rx|
    ensures s.result.Raised? <==> link.failsWhenDrained && |link.rx| - c.pos < n
    ensures s.result.Raised? ==> s.next.pos == c.pos
    ensures s.result.Bytes? ==> s.result.bytes == link.rx[c.pos..s.next.pos] && |s.result.bytes| <= n
    ensures s.result.Bytes? ==> (|s.result.bytes| == n <==> c.pos + n <= OnHand(link, c))
    ensures s.result.Bytes? && |s.result.bytes| < n ==> s.next.pos == OnHand(link, c)
  {
    var avail := OnHand(link, c);
    if c.pos + n <= avail then
      Step(Bytes(link.rx[c.pos..c.pos + n]), Cursor(c.pos + n, c.calls + 1))
    else if link.failsWhenDrained && |link.rx| - c.pos < n then
      Step(Raised, Cursor(c.pos, c.calls + 1))
    else
      Step(Bytes(link.rx[c.pos..avail]), Cursor(avail, c.calls + 1))
  }

  class Port {
    /** The adapter's side of the line. */
    const link: Link
    /** How many bytes of the stream have been read. */
    var pos: nat
    /** How many read calls have been made. */
    var calls: nat
    /** Every byte written to the port so far. */
    var tx: seq<byte>

    ghost predicate Valid()
      reads this
    {
      pos <= |link.rx|
    }

    /** Where the next read starts. */
    function At(): (c: Cursor)
      reads this
    {
      Cursor(pos, calls)
    }

    constructor (link: Link)
      ensures Valid()
      ensures this.link == link
      ensures pos == 0 && calls == 0 && tx == []
    {
      this.link := link;
      pos := 0;
      calls := 0;
      tx := [];
    }

    /** `read(n)`: advances the cursor past the bytes it returns. */
    method Read(n: nat) returns (r: ReadResult)
      requires Valid()
      modifies this`pos, this`calls
      ensures Valid()
      ensures ReadAt(link, old(At()), n) == Step(r, At())
    {
      var avail := OnHand(link, At());
      if pos + n <= avail {
        r := Bytes(link.rx[pos..pos + n]);
        pos := pos + n;
      } else if link.failsWhenDrained && |link.rx| - pos < n {
        r := Raised;
      } else {
        r := Bytes(link.rx[pos..avail]);
        pos := avail;
      }
      calls := calls + 1;
    }

    /** `write(b)` followed by `flush()`: the bytes go out in order. */
    method Write(b: seq<byte>)
      modifies this`tx
      ensures tx == old(tx) + b
    {
      tx := tx + b;
    }
  }
}
