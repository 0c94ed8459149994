/**
 * 16-bit quantities of the register store and how they cross the wire.
 *
 * Registers are SHORT (int16_t).  A register leaves the store as two bytes,
 * high byte first, and a holding-register write joins two bytes back into one
 * SHORT.  C's conversions are written out: storing an int into a SHORT or a
 * UCHAR keeps the low 16 or 8 bits, and `%` truncates toward zero.
 */
module Words {
  import opened Bits

  /** SHORT / int16_t */
  type Short = x: int | -32768 <= x < 32768

  /** USHORT / uint16_t */
  type UShort = x: int | 0 <= x < 65536

  /** Conversion of an int to SHORT: two's complement wrap-around. */
  function ToShort(x: int): (r: Short)
    ensures (r - x) % 65536 == 0
  {
    var m := x % 65536;
    if m < 32768 then m else m - 65536
  }

  /** Conversion of an int to UCHAR: the low eight bits. */
  function ToByte(x: int): (r: Byte)
    ensures (r - x) % 256 == 0
  {
    x % 256
  }

  /** Conversion of an int to USHORT: the low sixteen bits. */
  function ToUShort(x: int): (r: UShort)
    ensures (r - x) % 65536 == 0
  {
    x % 65536
  }

  /** C's `a % 8`: the remainder takes the sign of a (truncating division). */
  function CRem8(a: int): (r: int)
    ensures -8 < r < 8
    ensures a >= 0 ==> r == a % 8
    ensures a < 0 ==> r <= 0 && (a - r) % 8 == 0
  {
    if a >= 0 then a % 8 else -((-a) % 8)
  }

  /** `(UCHAR)(w >> 8)`: the high byte of a register. */
  function Hi(w: Short): Byte
  {
    (w / 256) % 256
  }

  /** `(UCHAR)(w & 0xFF)`: the low byte of a register. */
  function Lo(w: Short): Byte
  {
    w % 256
  }

  /**
   * `w = h << 8; w |= l;` on a SHORT: the shifted high byte is stored (and
   * wraps) first, then the low byte is or-ed into its clear low bits.
   */
  function Join(h: Byte, l: Byte): Short
  {
    ToShort(h * 256 + l)
  }

  /** Splitting a register into bytes and joining them gives it back. */
  lemma JoinSplit(w: Short)
    ensures Join(Hi(w), Lo(w)) == w
  {
    var h := w / 256;
    assert w == 256 * h + Lo(w);
    if w >= 0 {
      assert Hi(w) == h;
    } else {
      assert Hi(w) == h + 256;
    }
  }

  /** Joining two bytes and splitting the register gives them back. */
  lemma SplitJoin(h: Byte, l: Byte)
    ensures Hi(Join(h, l)) == h && Lo(Join(h, l)) == l
  {
    var x := h * 256 + l;
    if x >= 32768 {
      assert Join(h, l) == x - 65536;
      assert (x - 65536) / 256 == h - 256;
    } else {
      assert Join(h, l) == x;
      assert x / 256 == h;
    }
  }

  /** Registers as they are sent: high byte, then low byte, per register. */
  function Wire(ws: seq<Short>): (r: seq<Byte>)
    ensures |r| == 2 * |ws|
  {
    if ws == [] then [] else [Hi(ws[0]), Lo(ws[0])] + Wire(ws[1..])
  }

  /** Registers as a holding write builds them from the received bytes. */
  function Unwire(b: seq<Byte>): (r: seq<Short>)
    requires |b| % 2 == 0
    ensures |r| == |b| / 2
  {
    if b == [] then [] else [Join(b[0], b[1])] + Unwire(b[2..])
  }

  /** Byte 2k of the wire form is the high byte of register k, byte 2k+1 its low byte. */
  lemma {:induction false} WireAt(ws: seq<Short>, k: nat)
    requires k < |ws|
    ensures Wire(ws)[2 * k] == Hi(ws[k]) && Wire(ws)[2 * k + 1] == Lo(ws[k])
  {
    if k > 0 {
      WireAt(ws[1..], k - 1);
    }
  }

  /** Register k of a received frame is joined from bytes 2k and 2k+1. */
  lemma {:induction false} UnwireAt(b: seq<Byte>, k: nat)
    requires |b| % 2 == 0 && k < |b| / 2
    ensures Unwire(b)[k] == Join(b[2 * k], b[2 * k + 1])
  {
    if k > 0 {
      UnwireAt(b[2..], k - 1);
    }
  }

  /** Receiving what was sent gives the registers back. */
  lemma {:induction false} UnwireWire(ws: seq<Short>)
    ensures Unwire(Wire(ws)) == ws
  {
    if ws != [] {
      JoinSplit(ws[0]);
      UnwireWire(ws[1..]);
      assert Wire(ws)[2..] == Wire(ws[1..]);
    }
  }

  /** Sending what was received gives the same bytes back. */
  lemma {:induction false} WireUnwire(b: seq<Byte>)
    requires |b| % 2 == 0
    ensures Wire(Unwire(b)) == b
  {
    if b != [] {
      var u := Unwire(b);
      assert u[0] == Join(b[0], b[1]) && u[1..] == Unwire(b[2..]);
      SplitJoin(b[0], b[1]);
      WireUnwire(b[2..]);
      assert Wire(u) == [b[0], b[1]] + Wire(u[1..]);
      assert b == [b[0], b[1]] + b[2..];
    }
  }

  /** `usAddress--` on a USHORT: address 0 wraps to 65535. */
  function Decrement(a: UShort): (r: UShort)
    ensures a > 0 ==> r + 1 == a
    ensures a == 0 ==> r == 65535
  {
    ToUShort(a - 1)
  }
}
