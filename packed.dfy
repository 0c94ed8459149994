/**
 * The packed (discrete input and coil) stores, read and written in groups.
 *
 * A bit callback works from a starting bit `pos` (byte index times eight plus
 * the bit index inside that byte) and a count `n`.  A read copies `n/8 + 1`
 * groups of eight bits, group j starting at bit pos + 8j, and then clears the
 * high bits of the last group so that only `n % 8` of them stay.  A write
 * stores `n/8` whole groups of eight and then, only when `n % 8 != 0`, a last
 * group of `n % 8` bits.
 */
module Packed {
  import opened Bits

  /** The groups of eight bits a bit read copies, before the last one is masked. */
  function Groups(s: seq<Byte>, pos: nat, count: nat): (r: seq<Byte>)
    requires pos + 8 * count <= 8 * |s|
    ensures |r| == count
    ensures forall j | 0 <= j < count :: r[j] == GetBits(s, pos + 8 * j, 8)
  {
    seq(count, j requires 0 <= j < count => GetBits(s, pos + 8 * j, 8))
  }

  /** What eMBRegDiscreteCB and eMBRegCoilsCB (read) leave in the caller's buffer. */
  function PackedRead(s: seq<Byte>, pos: nat, n: nat): (r: seq<Byte>)
    requires pos + 8 * (n / 8 + 1) <= 8 * |s|
  {
    var raw := Groups(s, pos, n / 8 + 1);
    raw[n / 8 := MaskHigh(raw[n / 8], n % 8)]
  }

  /** Bit i of byte j of a bit read. */
  lemma PackedReadByte(s: seq<Byte>, pos: nat, n: nat, j: nat, i: nat)
    requires pos + 8 * (n / 8 + 1) <= 8 * |s|
    requires j <= n / 8 && i < 8
    ensures |PackedRead(s, pos, n)| == n / 8 + 1
    ensures Bit(PackedRead(s, pos, n)[j], i) == (8 * j + i < n && BitAt(s, pos + 8 * j + i))
  {
    var r := PackedRead(s, pos, n);
    var b := Groups(s, pos, n / 8 + 1)[j];
    assert Bit(b, i) == BitAt(s, pos + 8 * j + i);
    if j < n / 8 {
      assert r[j] == b;
      assert 8 * j + i < n;
    } else {
      assert r[j] == MaskHigh(b, n % 8);
      KeepLow(b, n % 8, i);
      assert i < n % 8 <==> 8 * j + i < n;
    }
  }

  lemma PackedReadBit(s: seq<Byte>, pos: nat, n: nat, j: nat, i: nat)
    requires pos + 8 * (n / 8 + 1) <= 8 * |s|
    requires j <= n / 8 && i < 8
    ensures |PackedRead(s, pos, n)| == n / 8 + 1
    ensures BitAt(PackedRead(s, pos, n), 8 * j + i) == (8 * j + i < n && BitAt(s, pos + 8 * j + i))
  {
    PackedReadByte(s, pos, n, j, i);
    BitAtByte(PackedRead(s, pos, n), j, i, 8 * j + i);
  }

  /**
   * Bit k of what a bit read returns is bit pos + k of the store for k < n and
   * clear for the rest of the last byte (so the last byte is 0 when n % 8 == 0).
   */
  lemma PackedReadBits(s: seq<Byte>, pos: nat, n: nat)
    requires pos + 8 * (n / 8 + 1) <= 8 * |s|
    ensures |PackedRead(s, pos, n)| == n / 8 + 1
    ensures forall k | 0 <= k < 8 * (n / 8 + 1) ::
      BitAt(PackedRead(s, pos, n), k) == (k < n && BitAt(s, pos + k))
  {
    forall k | 0 <= k < 8 * (n / 8 + 1)
      ensures BitAt(PackedRead(s, pos, n), k) == (k < n && BitAt(s, pos + k))
    {
      PackedReadBit(s, pos, n, k / 8, k % 8);
    }
  }

  /** The store after the first g whole groups of src are written from bit pos on. */
  function WriteGroups(s: seq<Byte>, pos: nat, g: nat, src: seq<Byte>): (r: seq<Byte>)
    requires (g == 0 || pos + 8 * g <= 8 * |s|) && g <= |src|
    ensures |r| == |s|
    decreases g
  {
    if g == 0 then s else SetBits(WriteGroups(s, pos, g - 1, src), pos + 8 * (g - 1), 8, src[g - 1])
  }

  /** What eMBRegCoilsCB (write) leaves in the coil store. */
  function PackedWrite(s: seq<Byte>, pos: nat, n: nat, src: seq<Byte>): (r: seq<Byte>)
    requires (n == 0 || pos + n <= 8 * |s|) && n <= 8 * |src|
    ensures |r| == |s|
  {
    var t := WriteGroups(s, pos, n / 8, src);
    if n % 8 != 0 then SetBits(t, pos + 8 * (n / 8), n % 8, src[n / 8]) else t
  }

  lemma {:induction false} WriteGroupsBit(s: seq<Byte>, pos: nat, g: nat, src: seq<Byte>, k: nat)
    requires pos + 8 * g <= 8 * |s| && g <= |src| && k < 8 * |s|
    ensures BitAt(WriteGroups(s, pos, g, src), k) ==
      if pos <= k < pos + 8 * g then BitAt(src, k - pos) else BitAt(s, k)
  {
    if g > 0 {
      var o := pos + 8 * (g - 1);
      var t := WriteGroups(s, pos, g - 1, src);
      var w := WriteGroups(s, pos, g, src);
      assert w == SetBits(t, o, 8, src[g - 1]);
      WriteGroupsBit(s, pos, g - 1, src, k);
      SetBitsBit(t, o, 8, src[g - 1], k);
      if o <= k < o + 8 {
        BitAtByte(src, g - 1, k - o, k - pos);
        assert BitAt(w, k) == BitAt(src, k - pos);
      } else {
        assert BitAt(w, k) == BitAt(t, k);
      }
    }
  }

  lemma PackedWriteBit(s: seq<Byte>, pos: nat, n: nat, src: seq<Byte>, k: nat)
    requires pos + n <= 8 * |s| && n <= 8 * |src| && k < 8 * |s|
    ensures BitAt(PackedWrite(s, pos, n, src), k) ==
      if pos <= k < pos + n then BitAt(src, k - pos) else BitAt(s, k)
  {
    var g, r := n / 8, n % 8;
    var t := WriteGroups(s, pos, g, src);
    var w := PackedWrite(s, pos, n, src);
    WriteGroupsBit(s, pos, g, src, k);
    if r == 0 {
      assert w == t;
    } else {
      var o := pos + 8 * g;
      assert w == SetBits(t, o, r, src[g]);
      SetBitsBit(t, o, r, src[g], k);
      if o <= k < o + r {
        BitAtByte(src, g, k - o, k - pos);
        assert BitAt(w, k) == BitAt(src, k - pos);
      } else {
        assert BitAt(w, k) == BitAt(t, k);
      }
    }
  }

  /**
   * A bit write replaces bits pos .. pos+n-1 of the store by the first n bits
   * of the source and leaves every other bit alone.
   */
  lemma PackedWriteBits(s: seq<Byte>, pos: nat, n: nat, src: seq<Byte>)
    requires pos + n <= 8 * |s| && n <= 8 * |src|
    ensures forall k | 0 <= k < 8 * |s| ::
      BitAt(PackedWrite(s, pos, n, src), k) ==
        if pos <= k < pos + n then BitAt(src, k - pos) else BitAt(s, k)
  {
    forall k | 0 <= k < 8 * |s|
      ensures BitAt(PackedWrite(s, pos, n, src), k) ==
        if pos <= k < pos + n then BitAt(src, k - pos) else BitAt(s, k)
    {
      PackedWriteBit(s, pos, n, src, k);
    }
  }

  /** Reading back the range just written returns the written bits, high bits clear. */
  lemma PackedWriteThenRead(s: seq<Byte>, pos: nat, n: nat, src: seq<Byte>)
    requires pos + 8 * (n / 8 + 1) <= 8 * |s| && n <= 8 * |src|
    ensures forall k | 0 <= k < 8 * (n / 8 + 1) ::
      BitAt(PackedRead(PackedWrite(s, pos, n, src), pos, n), k) == (k < n && BitAt(src, k))
  {
    var w := PackedWrite(s, pos, n, src);
    PackedWriteBits(s, pos, n, src);
    PackedReadBits(w, pos, n);
  }

  /**
   * The read the bit callbacks evidently intend: (n + 7) / 8 bytes, the last
   * holding only the bits that remain, so nothing past bit pos + n - 1 is read.
   */
  function IntendedRead(s: seq<Byte>, pos: nat, n: nat): (r: seq<Byte>)
    requires pos + n <= 8 * |s|
    ensures |r| == (n + 7) / 8
  {
    seq((n + 7) / 8, j requires 0 <= j < (n + 7) / 8 =>
      CeilGroups(n, j);
      GetBits(s, pos + 8 * j, if n - 8 * j < 8 then n - 8 * j else 8))
  }

  /** Group j of an n-bit read holds some of its bits exactly when j < (n + 7) / 8. */
  lemma CeilGroups(n: nat, j: nat)
    ensures 8 * j < n <==> j < (n + 7) / 8
  {
    var q := (n + 7) / 8;
    assert n + 7 == 8 * q + (n + 7) % 8;
  }

  lemma IntendedReadBit(s: seq<Byte>, pos: nat, n: nat, j: nat, i: nat)
    requires pos + n <= 8 * |s|
    requires 8 * j < n && i < 8
    ensures BitAt(IntendedRead(s, pos, n), 8 * j + i) == (8 * j + i < n && BitAt(s, pos + 8 * j + i))
  {
    var r := IntendedRead(s, pos, n);
    CeilGroups(n, j);
    var m := if n - 8 * j < 8 then n - 8 * j else 8;
    var b := GetBits(s, pos + 8 * j, m);
    assert r[j] == b;
    assert Bit(b, i) == (i < m && BitAt(s, pos + 8 * j + i));
    assert i < m <==> 8 * j + i < n;
    BitAtByte(r, j, i, 8 * j + i);
  }

  /** The intended read returns exactly bits pos .. pos+n-1, and clear bits after them. */
  lemma IntendedReadBits(s: seq<Byte>, pos: nat, n: nat)
    requires pos + n <= 8 * |s|
    ensures 8 * |IntendedRead(s, pos, n)| < n + 8
    ensures forall k | 0 <= k < 8 * |IntendedRead(s, pos, n)| ::
      BitAt(IntendedRead(s, pos, n), k) == (k < n && BitAt(s, pos + k))
  {
    var r := IntendedRead(s, pos, n);
    forall k | 0 <= k < 8 * |r|
      ensures BitAt(r, k) == (k < n && BitAt(s, pos + k))
    {
      IntendedReadBit(s, pos, n, k / 8, k % 8);
    }
  }
}
