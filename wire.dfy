/** Byte-level pieces of the USB-CAN analyzer's serial framing: bytes, Python's bitwise
    OR on non-negative integers, the little-endian id field (`struct` formats `<H` and
    `<I`) and the type/flags byte. */
module Wire {

  newtype byte = x: int | 0 <= x < 256

  /** Start sentinel of every frame on the wire. */
  const START: byte := 0xAA
  /** End sentinel of every frame on the wire. */
  const END: byte := 0x55

  datatype Option<+T> = None | Some(value: T)

  function Pow2(k: nat): (p: nat)
    ensures p >= 1
  {
    if k == 0 then 1 else 2 * Pow2(k - 1)
  }

  /** 256^n: how many values an n-byte unsigned field can hold. */
  function Pow256(n: nat): (p: nat)
    ensures p >= 1
  {
    if n == 0 then 1 else 256 * Pow256(n - 1)
  }

  /** Python's `a | b` on non-negative integers, one bit at a time from the least
      significant end. */
  function BitOr(a: nat, b: nat): (r: nat)
    ensures a <= r && b <= r
    decreases a + b
  {
    if a == 0 then b
    else if b == 0 then a
    else 2 * BitOr(a / 2, b / 2) + (if a % 2 == 1 || b % 2 == 1 then 1 else 0)
  }

  /** OR of two k-bit values is a k-bit value. */
  lemma {:induction false} BitOrBelow(a: nat, b: nat, k: nat)
    requires a < Pow2(k) && b < Pow2(k)
    ensures BitOr(a, b) < Pow2(k)
    decreases a + b
  {
    if a != 0 && b != 0 {
      BitOrBelow(a / 2, b / 2, k - 1);
    }
  }

  /** OR of a multiple of 2^k with a k-bit value is their sum. */
  lemma {:induction false} BitOrDisjoint(q: nat, b: nat, k: nat)
    requires b < Pow2(k)
    ensures BitOr(Pow2(k) * q, b) == Pow2(k) * q + b
    decreases k
  {
    var a := Pow2(k) * q;
    if a != 0 && b != 0 {
      var h := Pow2(k - 1);
      var m := h * q;
      assert a == 2 * m;
      BitOrDisjoint(q, b / 2, k - 1);
      assert BitOr(m, b / 2) == m + b / 2;
    }
  }

  /** The flag part `0xC0 | ext << 5 | rtr << 4` of the type value. */
  function Flags(extended: bool, remote: bool): (f: nat)
    ensures f == 0xC0 + (if extended then 0x20 else 0) + (if remote then 0x10 else 0)
  {
    assert Pow2(5) == 32 && Pow2(6) == 64;
    BitOrDisjoint(3, if extended then 0x20 else 0, 6);
    var high := BitOr(0xC0, if extended then 0x20 else 0);
    BitOrDisjoint(high / 32, if remote then 0x10 else 0, 5);
    BitOr(high, if remote then 0x10 else 0)
  }

  /** Width in bytes of the arbitration id field: `<I` when extended, `<H` otherwise. */
  function IdWidth(extended: bool): (w: nat)
    ensures w == 2 || w == 4
    ensures Pow256(w) == if extended then 0x1_0000_0000 else 0x1_0000
  {
    if extended then 4 else 2
  }

  /** The low n bytes of x, least significant first. */
  function ToLittleEndian(x: nat, n: nat): (b: seq<byte>)
    ensures |b| == n
  {
    if n == 0 then [] else [(x % 256) as byte] + ToLittleEndian(x / 256, n - 1)
  }

  /** The unsigned value of a little-endian byte string (`struct.unpack` on `<H` / `<I`). */
  function FromLittleEndian(b: seq<byte>): (x: nat)
    ensures x < Pow256(|b|)
  {
    if b == [] then 0 else b[0] as nat + 256 * FromLittleEndian(b[1..])
  }

  lemma {:induction false} LittleEndianRoundTrip(x: nat, n: nat)
    requires x < Pow256(n)
    ensures FromLittleEndian(ToLittleEndian(x, n)) == x
  {
    if n > 0 {
      var b := ToLittleEndian(x, n);
      assert x / 256 < Pow256(n - 1);
      LittleEndianRoundTrip(x / 256, n - 1);
      assert b[1..] == ToLittleEndian(x / 256, n - 1);
    }
  }

  lemma {:induction false} LittleEndianOfValue(b: seq<byte>)
    ensures ToLittleEndian(FromLittleEndian(b), |b|) == b
  {
    if b != [] {
      var x := FromLittleEndian(b);
      LittleEndianOfValue(b[1..]);
      assert x % 256 == b[0] as nat && x / 256 == FromLittleEndian(b[1..]);
    }
  }

  /** `struct.pack` of x in `width` little-endian bytes: None (Python raises `struct.error`)
      when x does not fit, never a truncated value. */
  function Pack(x: int, width: nat): (r: Option<seq<byte>>)
    ensures r.Some? <==> 0 <= x < Pow256(width)
    ensures r.Some? ==> |r.value| == width && FromLittleEndian(r.value) == x
  {
    if 0 <= x < Pow256(width) then
      LittleEndianRoundTrip(x, width);
      Some(ToLittleEndian(x, width))
    else
      None
  }

  /** The integer `0xC0 | ext << 5 | rtr << 4 | dlc` the sender appends as the type byte.
      The length code is ORed in unmasked: above 15 it spills into the flag bits, and
      above 255 the value is no longer a byte. */
  function TypeValue(extended: bool, remote: bool, dlc: nat): (v: nat)
    ensures v < 256 <==> dlc < 256
  {
    var flags := Flags(extended, remote);
    assert Pow2(8) == 256;
    if dlc < 256 then BitOrBelow(flags, dlc, 8); BitOr(flags, dlc)
    else BitOr(flags, dlc)
  }

  /** Bit 5 of the type byte, `t & 0x20`: the id is extended (four bytes on the wire). */
  predicate ExtendedFlag(t: byte): (e: bool)
    ensures e <==> 0x20 <= t as int % 0x40
  {
    (t as int / 0x20) % 2 == 1
  }

  /** Bit 4 of the type byte, `t & 0x10`: remote frame. */
  predicate RemoteFlag(t: byte): (r: bool)
    ensures r <==> 0x10 <= t as int % 0x20
  {
    (t as int / 0x10) % 2 == 1
  }

  /** Bits 7 and 6 of the type byte are both set, `t & 0xC0 == 0xC0`. */
  predicate TopBitsSet(t: byte)
  {
    t as int / 0x40 == 3
  }

  /** The data length code as the receiver computes it, `((t << 4) & 0xFF) >> 4`: the low
      nibble, so 0..15 and never checked against 8. */
  function DlcOf(t: byte): (n: nat)
    ensures n < 16 && n == t as int % 16
  {
    ((t as int * 16) % 256) / 16
  }

  /** For a length code that fits the nibble, the type value is a byte with its top two bits
      set, and the receiver reads back exactly the flags and the code the sender put in. */
  lemma TypeValueFields(extended: bool, remote: bool, dlc: nat)
    requires dlc <= 15
    ensures var v := TypeValue(extended, remote, dlc);
      v < 256 &&
      v == 0xC0 + (if extended then 0x20 else 0) + (if remote then 0x10 else 0) + dlc &&
      TopBitsSet(v as byte) && ExtendedFlag(v as byte) == extended &&
      RemoteFlag(v as byte) == remote && DlcOf(v as byte) == dlc
  {
    var q := 0xC + (if extended then 2 else 0) + (if remote then 1 else 0);
    assert Flags(extended, remote) == 16 * q;
    assert Pow2(4) == 16;
    BitOrDisjoint(q, dlc, 4);
    SumFields(extended, remote, dlc);
  }

  lemma SumFields(extended: bool, remote: bool, dlc: nat)
    requires dlc <= 15
    ensures var t := (0xC0 + (if extended then 0x20 else 0) + (if remote then 0x10 else 0) + dlc) as byte;
      TopBitsSet(t) && ExtendedFlag(t) == extended && RemoteFlag(t) == remote && DlcOf(t) == dlc
  {
    if extended && remote {
      assert 0xF0 <= 0xF0 + dlc < 0x100;
    } else if extended {
      assert 0xE0 <= 0xE0 + dlc < 0xF0;
    } else if remote {
      assert 0xD0 <= 0xD0 + dlc < 0xE0;
    } else {
      assert 0xC0 <= 0xC0 + dlc < 0xD0;
    }
  }

  /** A byte is its top bits, its two flags and its low nibble. */
  lemma ByteFields(t: byte)
    ensures t as int == 0x40 * (t as int / 0x40) + (if ExtendedFlag(t) then 0x20 else 0) +
      (if RemoteFlag(t) then 0x10 else 0) + DlcOf(t)
  {
    var x := t as int;
    Halve(x / 0x40, x / 0x20);
    Halve(x / 0x20, x / 0x10);
    assert x == 0x10 * (x / 0x10) + DlcOf(t);
  }

  /** Shifting right by one more bit halves the value and drops its lowest bit. */
  lemma Halve(high: int, low: int)
    requires 0 <= low && high == low / 2
    ensures low == 2 * high + low % 2
  {
  }

  /** Conversely, the fields decoded from a type byte rebuild it exactly when its two top
      bits are set; the receiver never looks at those bits. */
  lemma TypeValueOfFields(t: byte)
    ensures TypeValue(ExtendedFlag(t), RemoteFlag(t), DlcOf(t)) == t as int <==> TopBitsSet(t)
  {
    TypeValueFields(ExtendedFlag(t), RemoteFlag(t), DlcOf(t));
    ByteFields(t);
  }
}
