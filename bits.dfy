/**
 * Bytes, their bits, and byte sequences read as packed bit strings.
 *
 * The register store keeps discrete inputs and coils packed eight to a byte,
 * least-significant bit first: bit k of a byte sequence s is bit k % 8 of byte
 * k / 8 (`BitAt`).  The two FreeModbus helpers the store calls,
 * xMBUtilGetBits and xMBUtilSetBits, are given here by what they do to those
 * bits.
 */
module Bits {
  /** UCHAR */
  type Byte = x: int | 0 <= x < 256

  function Pow2(k: nat): (r: nat)
    ensures r >= 1
  {
    if k == 0 then 1 else 2 * Pow2(k - 1)
  }

  /** Bit j of x; bit 0 is the least significant. */
  function Bit(x: nat, j: nat): bool
  {
    if j == 0 then x % 2 == 1 else Bit(x / 2, j - 1)
  }

  /** Bit k of the packed string s. */
  function BitAt(s: seq<Byte>, k: nat): bool
    requires k < 8 * |s|
  {
    Bit(s[k / 8], k % 8)
  }

  /** Bit d = 8i + j of the packed string is bit j of byte i. */
  lemma BitAtByte(s: seq<Byte>, i: nat, j: nat, d: nat)
    requires i < |s| && j < 8 && d == 8 * i + j
    ensures BitAt(s, d) == Bit(s[i], j)
  {
    assert d / 8 == i && d % 8 == j;
  }

  /** A number below 2^k has no bit set at position k or above. */
  lemma {:induction false} BitAbove(x: nat, k: nat, j: nat)
    requires x < Pow2(k) && k <= j
    ensures !Bit(x, j)
  {
    if j > 0 {
      if k > 0 {
        BitAbove(x / 2, k - 1, j - 1);
      } else {
        BitAbove(0, 0, j - 1);
      }
    }
  }

  /** Adding a multiple of 2^k changes no bit below k. */
  lemma {:induction false} BitShift(y: nat, q: nat, k: nat, j: nat)
    requires j < k
    ensures Bit(y + Pow2(k) * q, j) == Bit(y, j)
  {
    var t := Pow2(k - 1) * q;
    assert Pow2(k) * q == 2 * t;
    if j > 0 {
      assert (y + 2 * t) / 2 == y / 2 + t;
      BitShift(y / 2, q, k - 1, j - 1);
    }
  }

  /** Two numbers below 2^k with the same k low bits are equal. */
  lemma {:induction false} SameBits(x: nat, y: nat, k: nat)
    requires x < Pow2(k) && y < Pow2(k)
    requires forall j | 0 <= j < k :: Bit(x, j) == Bit(y, j)
    ensures x == y
  {
    if k > 0 {
      assert Bit(x, 0) == Bit(y, 0);
      forall j | 0 <= j < k - 1
        ensures Bit(x / 2, j) == Bit(y / 2, j)
      {
        assert Bit(x, j + 1) == Bit(y, j + 1);
      }
      SameBits(x / 2, y / 2, k - 1);
    }
  }

  /** The number whose bits, least significant first, are c. */
  function FromBits(c: seq<bool>): (r: nat)
    ensures r < Pow2(|c|)
  {
    if c == [] then 0 else (if c[0] then 1 else 0) + 2 * FromBits(c[1..])
  }

  lemma {:induction false} BitFromBits(c: seq<bool>, j: nat)
    ensures Bit(FromBits(c), j) == (j < |c| && c[j])
  {
    if c == [] {
      BitAbove(0, 0, j);
    } else if j > 0 {
      var b := if c[0] then 1 else 0;
      assert (b + 2 * FromBits(c[1..])) / 2 == FromBits(c[1..]);
      BitFromBits(c[1..], j - 1);
    }
  }

  /** The byte whose eight bits, least significant first, are c. */
  function ByteOf(c: seq<bool>): (r: Byte)
    requires |c| == 8
    ensures forall j | 0 <= j < 8 :: Bit(r, j) == c[j]
  {
    assert Pow2(8) == 256;
    assert forall j | 0 <= j < 8 :: Bit(FromBits(c), j) == c[j] by {
      forall j | 0 <= j < 8
        ensures Bit(FromBits(c), j) == c[j]
      {
        BitFromBits(c, j);
      }
    }
    FromBits(c)
  }

  /** Two bytes with the same eight bits are equal. */
  lemma SameByte(x: Byte, y: Byte)
    requires forall j | 0 <= j < 8 :: Bit(x, j) == Bit(y, j)
    ensures x == y
  {
    assert Pow2(8) == 256;
    SameBits(x, y, 8);
  }

  /**
   * xMBUtilGetBits(s, o, n): the n bits of the packed string starting at bit
   * o, as the low bits of a byte whose other bits are clear.
   */
  function GetBits(s: seq<Byte>, o: nat, n: nat): (r: Byte)
    requires n <= 8 && o + n <= 8 * |s|
    ensures forall j | 0 <= j < 8 :: Bit(r, j) == (j < n && BitAt(s, o + j))
  {
    ByteOf(seq(8, j requires 0 <= j < 8 => j < n && BitAt(s, o + j)))
  }

  /** Bit j of byte i once bits o .. o+n-1 are replaced by the low n bits of v. */
  function NewBit(s: seq<Byte>, o: nat, n: nat, v: Byte, i: nat, j: nat): bool
    requires i < |s|
  {
    if o <= 8 * i + j < o + n then Bit(v, 8 * i + j - o) else Bit(s[i], j)
  }

  /**
   * xMBUtilSetBits(s, o, n, v): the low n bits of v replace bits o .. o+n-1
   * of the packed string (SetBitsBit states it bit by bit).
   */
  function SetBits(s: seq<Byte>, o: nat, n: nat, v: Byte): (r: seq<Byte>)
    requires n <= 8 && o + n <= 8 * |s|
    ensures |r| == |s|
  {
    seq(|s|, i requires 0 <= i < |s| => ByteOf(seq(8, j requires 0 <= j < 8 => NewBit(s, o, n, v, i, j))))
  }

  /** After SetBits, bit k holds bit k - o of v inside the replaced run and is unchanged outside it. */
  lemma SetBitsBit(s: seq<Byte>, o: nat, n: nat, v: Byte, k: nat)
    requires n <= 8 && o + n <= 8 * |s| && k < 8 * |s|
    ensures BitAt(SetBits(s, o, n, v), k) == if o <= k < o + n then Bit(v, k - o) else BitAt(s, k)
  {
    var i, j := k / 8, k % 8;
    var r := SetBits(s, o, n, v);
    BitAtByte(r, i, j, k);
    BitAtByte(s, i, j, k);
    assert Bit(r[i], j) == NewBit(s, o, n, v, i, j);
  }

  /** A byte holding none of the replaced bits is left as it was. */
  lemma SetBitsFrame(s: seq<Byte>, o: nat, n: nat, v: Byte, i: nat)
    requires n <= 8 && o + n <= 8 * |s|
    requires i < |s| && (8 * i + 8 <= o || o + n <= 8 * i)
    ensures SetBits(s, o, n, v)[i] == s[i]
  {
    var r := SetBits(s, o, n, v);
    forall j | 0 <= j < 8
      ensures Bit(r[i], j) == Bit(s[i], j)
    {
      assert Bit(r[i], j) == NewBit(s, o, n, v, i, j);
    }
    SameByte(r[i], s[i]);
  }

  /**
   * xMBUtilSetBits as the callbacks call it, on the static array itself: only
   * the bytes holding bits o .. o+n-1 are written.
   */
  method SetBitsInPlace(a: array<Byte>, o: nat, n: nat, v: Byte)
    requires n <= 8 && o + n <= 8 * a.Length
    modifies a
    ensures a[..] == SetBits(old(a[..]), o, n, v)
  {
    var t := SetBits(a[..], o, n, v);
    ghost var before := a[..];
    forall i | o / 8 <= i < (o + n + 7) / 8 && i < a.Length {
      a[i] := t[i];
    }
    forall i | 0 <= i < a.Length
      ensures a[i] == t[i]
    {
      if i < o / 8 || (o + n + 7) / 8 <= i {
        SetBitsFrame(before, o, n, v, i);
      }
    }
    assert a[..] == t;
  }

  /**
   * `(UCHAR)(x << s)`: the shift happens on the promoted int and the store back
   * into a UCHAR keeps the low eight bits, one doubling at a time.
   */
  function ShiftLeft8(x: Byte, s: nat): Byte
    decreases s
  {
    if s == 0 then x else ShiftLeft8((2 * x) % 256, s - 1)
  }

  /** `x >> s` on a UCHAR. */
  function ShiftRight(x: Byte, s: nat): Byte
  {
    if s == 0 then x else ShiftRight(x / 2, s - 1)
  }

  /** Doubling a byte and keeping eight bits moves every bit up by one. */
  lemma DoubleBit(x: Byte, j: nat)
    requires j < 8
    ensures Bit((2 * x) % 256, j) == (j >= 1 && Bit(x, j - 1))
  {
    var y := (2 * x) % 256;
    var h := x / 128;
    assert x == 128 * h + x % 128;
    assert y == 2 * (x % 128);
    if j > 0 {
      assert y / 2 == x % 128;
      assert Pow2(7) == 128;
      BitShift(x % 128, h, 7, j - 1);
    }
  }

  /** Halving a byte moves every bit down by one and clears bit 7. */
  lemma HalveBit(x: Byte, j: nat)
    requires j < 8
    ensures Bit(x / 2, j) == (j < 7 && Bit(x, j + 1))
  {
    if j == 7 {
      assert Pow2(7) == 128;
      BitAbove(x / 2, 7, 7);
    }
  }

  lemma {:induction false} ShiftLeftBit(x: Byte, s: nat, j: nat)
    requires s <= 8 && j < 8
    decreases s
    ensures Bit(ShiftLeft8(x, s), j) == (j >= s && Bit(x, j - s))
  {
    if s > 0 {
      var y := (2 * x) % 256;
      ShiftLeftBit(y, s - 1, j);
      if j >= s - 1 {
        DoubleBit(x, j - (s - 1));
      }
    }
  }

  lemma {:induction false} ShiftRightBit(x: Byte, s: nat, j: nat)
    requires s <= 8 && j < 8
    ensures Bit(ShiftRight(x, s), j) == (j + s < 8 && Bit(x, j + s))
  {
    if s > 0 {
      ShiftRightBit(x / 2, s - 1, j);
      if j + s - 1 < 8 {
        HalveBit(x, j + s - 1);
      }
    }
  }

  /**
   * The two shifts the bit callbacks apply to the last byte they return
   * (`b << (8 - r)` stored back as UCHAR, then `>> (8 - r)`).
   */
  function MaskHigh(b: Byte, r: nat): Byte
    requires r <= 8
  {
    ShiftRight(ShiftLeft8(b, 8 - r), 8 - r)
  }

  /** MaskHigh keeps the low r bits of a byte and clears the rest. */
  lemma KeepLow(x: Byte, r: nat, j: nat)
    requires r <= 8 && j < 8
    ensures Bit(MaskHigh(x, r), j) == (j < r && Bit(x, j))
  {
    ShiftRightBit(ShiftLeft8(x, 8 - r), 8 - r, j);
    if j < r {
      ShiftLeftBit(x, 8 - r, j + (8 - r));
    }
  }
}
