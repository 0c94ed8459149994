/**
 * The register store of the application: four static arrays, the four
 * FreeModbus register callbacks that the protocol stack calls on them, and the
 * application's own read and write entry points.
 *
 * Every operation checks the request's range first and touches nothing when
 * it is out of range.  Array indices are computed from index bases that are
 * never assigned, so whether an accepted request stays inside its array is a
 * precondition here (`*Safe` below); StoreMap shows which accepted requests
 * break it under the shipped constants.
 */
module RegisterStore {
  import opened Bits
  import opened Words
  import opened Packed
  import opened StoreMap
  import opened Seqs

  /** The two outcomes of a callback (eMBErrorCode). */
  datatype ErrorCode = NoErr | NoReg

  /** Whether the protocol stack reads from or writes to the store (eMBRegisterMode). */
  datatype RegMode = RegRead | RegWrite

  /** `(UCHAR)` applied to each element of an int16_t buffer. */
  function ToBytes(ws: seq<Short>): (r: seq<Byte>)
    ensures |r| == |ws|
    ensures forall i | 0 <= i < |ws| :: (r[i] - ws[i]) % 256 == 0
  {
    seq(|ws|, i requires 0 <= i < |ws| => ToByte(ws[i]))
  }

  /**
   * What bModbus_ReadRegs leaves in its buffer for DISCRETE_INPUT and COIL:
   * the n/8 + 1 groups of eight bits, each as a SHORT, and then the last one
   * overwritten with `(SHORT)n % 8`.
   */
  function AppBitRead(s: seq<Byte>, pos: nat, n: UShort): (r: seq<Short>)
    requires pos + 8 * (n / 8 + 1) <= 8 * |s|
  {
    var raw := Groups(s, pos, n / 8 + 1);
    seq(n / 8 + 1, j requires 0 <= j < n / 8 + 1 => raw[j] as Short)[n / 8 := CRem8(ToShort(n))]
  }

  /**
   * Of an application bit read, the first n/8 elements are the groups of eight
   * bits from pos on, and the last is n % 8 whatever the store holds.
   */
  lemma AppBitReadShape(s: seq<Byte>, pos: nat, n: UShort)
    requires pos + 8 * (n / 8 + 1) <= 8 * |s|
    ensures |AppBitRead(s, pos, n)| == n / 8 + 1
    ensures forall j | 0 <= j < n / 8 :: AppBitRead(s, pos, n)[j] == GetBits(s, pos + 8 * j, 8)
    ensures n < 32768 ==> AppBitRead(s, pos, n)[n / 8] == n % 8
  {
    var r := AppBitRead(s, pos, n);
    var raw := Groups(s, pos, n / 8 + 1);
    forall j | 0 <= j < n / 8
      ensures r[j] == GetBits(s, pos + 8 * j, 8)
    {
      assert r[j] == raw[j];
    }
  }

  /** The last element of an application bit read does not depend on the store. */
  lemma AppBitReadLastIgnoresStore(s: seq<Byte>, t: seq<Byte>, pos: nat, n: UShort)
    requires pos + 8 * (n / 8 + 1) <= 8 * |s| && |t| == |s|
    ensures AppBitRead(s, pos, n)[n / 8] == AppBitRead(t, pos, n)[n / 8]
  {
  }

  /**
   * The application bit read the "filling zero to high bit" comment evidently
   * intends: the groups of the callback read, the last one masked, each as a
   * SHORT, so that the last element keeps the n % 8 bits that remain.
   */
  function IntendedAppBitRead(s: seq<Byte>, pos: nat, n: UShort): (r: seq<Short>)
    requires pos + 8 * (n / 8 + 1) <= 8 * |s|
    ensures |r| == n / 8 + 1
    ensures forall j | 0 <= j < |r| :: 0 <= r[j] < 256
  {
    var p := PackedRead(s, pos, n);
    seq(n / 8 + 1, j requires 0 <= j < n / 8 + 1 => p[j] as Short)
  }

  /**
   * Bit i of element j of the intended read is bit pos + 8j + i of the store
   * when that bit was asked for, and clear otherwise.
   */
  lemma IntendedAppBitReadBit(s: seq<Byte>, pos: nat, n: UShort, j: nat, i: nat)
    requires pos + 8 * (n / 8 + 1) <= 8 * |s|
    requires j <= n / 8 && i < 8
    ensures Bit(IntendedAppBitRead(s, pos, n)[j], i) == (8 * j + i < n && BitAt(s, pos + 8 * j + i))
  {
    PackedReadByte(s, pos, n, j, i);
  }

  /**
   * A holding write of bytes b at index idx followed by a holding read of the
   * same range sends back b.
   */
  lemma HoldingWriteThenRead(s: seq<Short>, idx: nat, b: seq<Byte>)
    requires |b| % 2 == 0 && WordsFit(|s|, idx, |b| / 2)
    ensures Wire(Window(Splice(s, idx, Unwire(b)), idx, |b| / 2)) == b
  {
    SpliceRead(s, idx, Unwire(b));
    WireUnwire(b);
  }

  /**
   * The application writes holding registers at address a; the protocol stack
   * asks for address a + 1, which the callback steps back down to a.  When the
   * input and holding spaces agree, the callback accepts the same range and
   * sends back the written registers.
   */
  lemma AppWriteThenCallbackRead(cfg: MapConfig, base: UShort, a: UShort, s: seq<Short>, w: seq<Short>)
    requires a < 65535 && cfg.input == cfg.holding && |w| < 65536
    requires AppAccepts(cfg, HoldingReg, a, |w|)
    requires WordsFit(|s|, Offset(a, base), |w|)
    ensures CallbackAccepts(cfg.holding, a + 1, |w|)
    ensures Offset(Decrement(a + 1), base) == Offset(a, base)
    ensures Unwire(Wire(Window(Splice(s, Offset(a, base), w), Offset(a, base), |w|))) == w
  {
    SpliceRead(s, Offset(a, base), w);
    UnwireWire(w);
  }

  /** Copies the groups of a bit read into the caller's buffer and masks the last. */
  method CopyGroups(src: array<Byte>, pos: nat, n: UShort, buf: array<Byte>)
    requires src != buf
    requires BitReadFits(src.Length, pos, n) && n / 8 + 1 <= buf.Length
    modifies buf
    ensures buf[..n / 8 + 1] == PackedRead(src[..], pos, n)
    ensures buf[n / 8 + 1..] == old(buf[n / 8 + 1..])
  {
    var count := n / 8 + 1;
    var j := 0;
    while j < count
      invariant 0 <= j <= count
      invariant forall i | 0 <= i < j :: buf[i] == GetBits(src[..], pos + 8 * i, 8)
      invariant forall i | j <= i < buf.Length :: buf[i] == old(buf[i])
    {
      buf[j] := GetBits(src[..], pos + 8 * j, 8);
      j := j + 1;
    }
    var last := count - 1;
    buf[last] := ShiftLeft8(buf[last], 8 - n % 8);
    buf[last] := ShiftRight(buf[last], 8 - n % 8);
    assert buf[..count] == PackedRead(src[..], pos, n);
  }

  /** Copies the groups of an application bit read and overwrites the last with n % 8. */
  method CopyGroupsAsShorts(src: array<Byte>, pos: nat, n: UShort, data: array<Short>)
    requires BitReadFits(src.Length, pos, n) && n / 8 + 1 <= data.Length
    modifies data
    ensures data[..n / 8 + 1] == AppBitRead(src[..], pos, n)
    ensures data[n / 8 + 1..] == old(data[n / 8 + 1..])
  {
    var count := n / 8 + 1;
    var j := 0;
    while j < count
      invariant 0 <= j <= count
      invariant forall i | 0 <= i < j :: data[i] == GetBits(src[..], pos + 8 * i, 8)
      invariant forall i | j <= i < data.Length :: data[i] == old(data[i])
    {
      data[j] := GetBits(src[..], pos + 8 * j, 8);
      j := j + 1;
    }
    data[count - 1] := CRem8(ToShort(n));
    assert data[..count] == AppBitRead(src[..], pos, n);
  }

  /** Writes n/8 whole groups of eight bits and then, if any remain, the last n % 8. */
  method WriteGroupsIn(dst: array<Byte>, pos: nat, n: UShort, src: seq<Byte>)
    requires BitWriteFits(dst.Length, pos, n) && n <= 8 * |src|
    modifies dst
    ensures dst[..] == PackedWrite(old(dst[..]), pos, n, src)
  {
    var g := n / 8;
    assert 8 * g <= n;
    var j := 0;
    while j < g
      invariant 0 <= j <= g
      invariant dst[..] == WriteGroups(old(dst[..]), pos, j, src)
    {
      SetBitsInPlace(dst, pos + 8 * j, 8, src[j]);
      j := j + 1;
    }
    if n % 8 != 0 {
      SetBitsInPlace(dst, pos + 8 * g, n % 8, src[g]);
    }
  }

  /** Sends n registers from index idx, high byte first. */
  method SendWords(src: array<Short>, idx: nat, n: UShort, buf: array<Byte>)
    requires WordsFit(src.Length, idx, n) && 2 * n <= buf.Length
    modifies buf
    ensures buf[..2 * n] == Wire(Window(src[..], idx, n))
    ensures buf[2 * n..] == old(buf[2 * n..])
  {
    var k := 0;
    while k < n
      invariant 0 <= k <= n
      invariant forall i | 0 <= i < 2 * k :: buf[i] == if i % 2 == 0 then Hi(src[idx + i / 2]) else Lo(src[idx + i / 2])
      invariant forall i | 2 * k <= i < buf.Length :: buf[i] == old(buf[i])
    {
      buf[2 * k] := Hi(src[idx + k]);
      buf[2 * k + 1] := Lo(src[idx + k]);
      k := k + 1;
    }
    ghost var w := Window(src[..], idx, n);
    forall i | 0 <= i < 2 * n
      ensures buf[i] == Wire(w)[i]
    {
      WireAt(w, i / 2);
    }
    assert buf[..2 * n] == Wire(w);
  }

  /** Stores n registers from index idx, each joined from two received bytes. */
  method ReceiveWords(dst: array<Short>, idx: nat, n: UShort, buf: array<Byte>)
    requires WordsFit(dst.Length, idx, n) && 2 * n <= buf.Length
    modifies dst
    ensures dst[..] == Splice(old(dst[..]), idx, Unwire(buf[..2 * n]))
  {
    ghost var w := Unwire(buf[..2 * n]);
    var k := 0;
    while k < n
      invariant 0 <= k <= n
      invariant forall i | 0 <= i < dst.Length ::
        dst[i] == if idx <= i < idx + k then w[i - idx] else old(dst[i])
    {
      UnwireAt(buf[..2 * n], k);
      dst[idx + k] := Join(buf[2 * k], buf[2 * k + 1]);
      k := k + 1;
    }
    forall i | 0 <= i < dst.Length
      ensures dst[i] == Splice(old(dst[..]), idx, w)[i]
    {
      SpliceAt(old(dst[..]), idx, w, i);
    }
    assert dst[..] == Splice(old(dst[..]), idx, w);
  }

  /** Copies n registers from index idx into the application's buffer. */
  method CopyWords(src: array<Short>, idx: nat, n: UShort, data: array<Short>)
    requires src != data
    requires WordsFit(src.Length, idx, n) && n <= data.Length
    modifies data
    ensures data[..n] == Window(src[..], idx, n)
    ensures data[n..] == old(data[n..])
  {
    var k := 0;
    while k < n
      invariant 0 <= k <= n
      invariant forall i | 0 <= i < k :: data[i] == src[idx + i]
      invariant forall i | k <= i < data.Length :: data[i] == old(data[i])
    {
      data[k] := src[idx + k];
      k := k + 1;
    }
  }

  /** Stores n registers from the application's buffer at index idx. */
  method StoreWords(dst: array<Short>, idx: nat, n: UShort, data: array<Short>)
    requires dst != data
    requires WordsFit(dst.Length, idx, n) && n <= data.Length
    modifies dst
    ensures dst[..] == Splice(old(dst[..]), idx, data[..n])
  {
    var k := 0;
    while k < n
      invariant 0 <= k <= n
      invariant forall i | 0 <= i < dst.Length ::
        dst[i] == if idx <= i < idx + k then data[i - idx] else old(dst[i])
    {
      dst[idx + k] := data[k];
      k := k + 1;
    }
    forall i | 0 <= i < dst.Length
      ensures dst[i] == Splice(old(dst[..]), idx, data[..n])[i]
    {
      SpliceAt(old(dst[..]), idx, data[..n], i);
    }
    assert dst[..] == Splice(old(dst[..]), idx, data[..n]);
  }

  class Store {
    /** START and QTY of each space. */
    const config: MapConfig
    /** aucRegDiscrete */
    const discrete: array<Byte>
    /** aucRegCoils */
    const coils: array<Byte>
    /** asRegInput */
    const inputRegs: array<Short>
    /** asRegHolding */
    const holdingRegs: array<Short>
    /** usRegDiscreteStart, usRegCoilsStart, usRegInputStart, usRegHoldingStart */
    var discreteBase: UShort
    var coilsBase: UShort
    var inputBase: UShort
    var holdingBase: UShort

    /** The arrays have the sizes the configuration gives them and are distinct. */
    ghost predicate Valid()
      reads this
    {
      && discrete.Length == PackedBytes(config.discrete.qty)
      && coils.Length == PackedBytes(config.coils.qty)
      && inputRegs.Length == config.input.qty
      && holdingRegs.Length == config.holding.qty
      && discrete != coils
      && inputRegs != holdingRegs
    }

    /** Static storage: every array cleared, every index base 0. */
    constructor (cfg: MapConfig)
      ensures Valid() && config == cfg
      ensures fresh(discrete) && fresh(coils) && fresh(inputRegs) && fresh(holdingRegs)
      ensures discreteBase == 0 && coilsBase == 0 && inputBase == 0 && holdingBase == 0
      ensures forall i | 0 <= i < discrete.Length :: discrete[i] == 0
      ensures forall i | 0 <= i < coils.Length :: coils[i] == 0
      ensures forall i | 0 <= i < inputRegs.Length :: inputRegs[i] == 0
      ensures forall i | 0 <= i < holdingRegs.Length :: holdingRegs[i] == 0
    {
      config := cfg;
      discrete := new Byte[PackedBytes(cfg.discrete.qty)](_ => 0);
      coils := new Byte[PackedBytes(cfg.coils.qty)](_ => 0);
      inputRegs := new Short[cfg.input.qty](_ => 0);
      holdingRegs := new Short[cfg.holding.qty](_ => 0);
      discreteBase, coilsBase, inputBase, holdingBase := 0, 0, 0, 0;
    }

    /** An accepted bit read of the discrete inputs stays inside the array and the buffer. */
    ghost predicate DiscreteReadSafe(buf: array<Byte>, addr: UShort, n: UShort)
      reads this
    {
      CallbackAccepts(config.discrete, addr, n) ==>
        BitReadFits(discrete.Length, Offset(Decrement(addr), discreteBase), n) && n / 8 + 1 <= buf.Length
    }

    /** eMBRegDiscreteCB: a read of n discrete inputs into the protocol stack's buffer. */
    method DiscreteCB(buf: array<Byte>, addr: UShort, n: UShort) returns (status: ErrorCode)
      requires Valid() && buf != discrete && buf != coils
      requires DiscreteReadSafe(buf, addr, n)
      modifies buf
      ensures status == if CallbackAccepts(config.discrete, addr, n) then NoErr else NoReg
      ensures status == NoReg ==> buf[..] == old(buf[..])
      ensures status == NoErr ==>
        buf[..n / 8 + 1] == PackedRead(discrete[..], Offset(Decrement(addr), discreteBase), n)
        && buf[n / 8 + 1..] == old(buf[n / 8 + 1..])
    {
      var a := Decrement(addr);
      if a >= config.discrete.start && a + n <= config.discrete.start + config.discrete.qty {
        CopyGroups(discrete, Offset(a, discreteBase), n, buf);
        status := NoErr;
      } else {
        status := NoReg;
      }
    }

    /** An accepted coil request stays inside the array and the buffer. */
    ghost predicate CoilsSafe(buf: array<Byte>, addr: UShort, n: UShort, mode: RegMode)
      reads this
    {
      CallbackAccepts(config.coils, addr, n) ==>
        match mode
        case RegRead => BitReadFits(coils.Length, Offset(Decrement(addr), coilsBase), n) && n / 8 + 1 <= buf.Length
        case RegWrite => BitWriteFits(coils.Length, Offset(Decrement(addr), coilsBase), n) && n <= 8 * buf.Length
    }

    /** eMBRegCoilsCB: a read of n coils into the buffer, or a write of n coils from it. */
    method CoilsCB(buf: array<Byte>, addr: UShort, n: UShort, mode: RegMode) returns (status: ErrorCode)
      requires Valid() && buf != discrete && buf != coils
      requires CoilsSafe(buf, addr, n, mode)
      modifies buf, coils
      ensures status == if CallbackAccepts(config.coils, addr, n) then NoErr else NoReg
      ensures status == NoReg ==> buf[..] == old(buf[..]) && coils[..] == old(coils[..])
      ensures status == NoErr && mode == RegRead ==>
        buf[..n / 8 + 1] == PackedRead(coils[..], Offset(Decrement(addr), coilsBase), n)
        && buf[n / 8 + 1..] == old(buf[n / 8 + 1..])
        && coils[..] == old(coils[..])
      ensures status == NoErr && mode == RegWrite ==>
        coils[..] == PackedWrite(old(coils[..]), Offset(Decrement(addr), coilsBase), n, old(buf[..]))
        && buf[..] == old(buf[..])
    {
      var a := Decrement(addr);
      if a >= config.coils.start && a + n <= config.coils.start + config.coils.qty {
        var pos := Offset(a, coilsBase);
        match mode {
          case RegRead =>
            CopyGroups(coils, pos, n, buf);
          case RegWrite =>
            WriteGroupsIn(coils, pos, n, buf[..]);
        }
        status := NoErr;
      } else {
        status := NoReg;
      }
    }

    /** An accepted input register read stays inside the array and the buffer. */
    ghost predicate InputReadSafe(buf: array<Byte>, addr: UShort, n: UShort)
      reads this
    {
      CallbackAccepts(config.input, addr, n) ==>
        WordsFit(inputRegs.Length, Offset(Decrement(addr), inputBase), n) && 2 * n <= buf.Length
    }

    /** eMBRegInputCB: n input registers, high byte first, into the buffer. */
    method InputCB(buf: array<Byte>, addr: UShort, n: UShort) returns (status: ErrorCode)
      requires Valid()
      requires InputReadSafe(buf, addr, n)
      modifies buf
      ensures status == if CallbackAccepts(config.input, addr, n) then NoErr else NoReg
      ensures status == NoReg ==> buf[..] == old(buf[..])
      ensures status == NoErr ==>
        buf[..2 * n] == Wire(Window(inputRegs[..], Offset(Decrement(addr), inputBase), n))
        && buf[2 * n..] == old(buf[2 * n..])
    {
      var a := Decrement(addr);
      if a >= config.input.start && a + n <= config.input.start + config.input.qty {
        SendWords(inputRegs, Offset(a, inputBase), n, buf);
        status := NoErr;
      } else {
        status := NoReg;
      }
    }

    /** An accepted holding register request stays inside the array and the buffer. */
    ghost predicate HoldingSafe(buf: array<Byte>, addr: UShort, n: UShort)
      reads this
    {
      CallbackAccepts(config.holding, addr, n) ==>
        WordsFit(holdingRegs.Length, Offset(Decrement(addr), holdingBase), n) && 2 * n <= buf.Length
    }

    /** eMBRegHoldingCB: n holding registers sent high byte first, or stored from received bytes. */
    method HoldingCB(buf: array<Byte>, addr: UShort, n: UShort, mode: RegMode) returns (status: ErrorCode)
      requires Valid()
      requires HoldingSafe(buf, addr, n)
      modifies buf, holdingRegs
      ensures status == if CallbackAccepts(config.holding, addr, n) then NoErr else NoReg
      ensures status == NoReg ==> buf[..] == old(buf[..]) && holdingRegs[..] == old(holdingRegs[..])
      ensures status == NoErr && mode == RegRead ==>
        buf[..2 * n] == Wire(Window(holdingRegs[..], Offset(Decrement(addr), holdingBase), n))
        && buf[2 * n..] == old(buf[2 * n..])
        && holdingRegs[..] == old(holdingRegs[..])
      ensures status == NoErr && mode == RegWrite ==>
        holdingRegs[..] == Splice(old(holdingRegs[..]), Offset(Decrement(addr), holdingBase), Unwire(old(buf[..2 * n])))
        && buf[..] == old(buf[..])
    {
      var a := Decrement(addr);
      if a >= config.holding.start && a + n <= config.holding.start + config.holding.qty {
        var idx := Offset(a, holdingBase);
        match mode {
          case RegRead =>
            SendWords(holdingRegs, idx, n, buf);
          case RegWrite =>
            ReceiveWords(holdingRegs, idx, n, buf);
        }
        status := NoErr;
      } else {
        status := NoReg;
      }
    }

    /** The packed array and index base of a bit kind. */
    function BitArray(t: RegType): array<Byte>
      requires t == DiscreteInput || t == Coil
      reads this
    {
      if t == DiscreteInput then discrete else coils
    }

    function BitBase(t: RegType): UShort
      requires t == DiscreteInput || t == Coil
      reads this
    {
      if t == DiscreteInput then discreteBase else coilsBase
    }

    /** The register array and index base of a register kind. */
    function WordArray(t: RegType): array<Short>
      requires t == InputReg || t == HoldingReg
      reads this
    {
      if t == InputReg then inputRegs else holdingRegs
    }

    function WordBase(t: RegType): UShort
      requires t == InputReg || t == HoldingReg
      reads this
    {
      if t == InputReg then inputBase else holdingBase
    }

    /** An accepted application read stays inside the array and the buffer. */
    ghost predicate AppReadSafe(t: RegType, data: array<Short>, addr: UShort, n: UShort)
      reads this
    {
      AppAccepts(config, t, addr, n) ==>
        if t == DiscreteInput || t == Coil then
          BitReadFits(BitArray(t).Length, Offset(addr, BitBase(t)), n) && n / 8 + 1 <= data.Length
        else
          WordsFit(WordArray(t).Length, Offset(addr, WordBase(t)), n) && n <= data.Length
    }

    /** bModbus_ReadRegs: copies n objects of one kind into the application's buffer. */
    method ReadRegs(t: RegType, data: array<Short>, addr: UShort, n: UShort) returns (ok: bool)
      requires Valid() && data != inputRegs && data != holdingRegs
      requires AppReadSafe(t, data, addr, n)
      modifies data
      ensures ok == AppAccepts(config, t, addr, n)
      ensures !ok ==> data[..] == old(data[..])
      ensures ok && (t == DiscreteInput || t == Coil) ==>
        data[..n / 8 + 1] == AppBitRead(BitArray(t)[..], Offset(addr, BitBase(t)), n)
        && data[n / 8 + 1..] == old(data[n / 8 + 1..])
      ensures ok && (t == InputReg || t == HoldingReg) ==>
        data[..n] == Window(WordArray(t)[..], Offset(addr, WordBase(t)), n)
        && data[n..] == old(data[n..])
    {
      match t
      case DiscreteInput =>
        if addr >= config.discrete.start && addr + n <= config.discrete.start + config.discrete.qty {
          CopyGroupsAsShorts(discrete, Offset(addr, discreteBase), n, data);
          ok := true;
        } else {
          ok := false;
        }
      case Coil =>
        if addr >= config.coils.start && addr + n <= config.coils.start + config.coils.qty {
          CopyGroupsAsShorts(coils, Offset(addr, coilsBase), n, data);
          ok := true;
        } else {
          ok := false;
        }
      case InputReg =>
        if addr >= config.input.start && addr + n <= config.input.start + config.input.qty {
          CopyWords(inputRegs, Offset(addr, inputBase), n, data);
          ok := true;
        } else {
          ok := false;
        }
      case HoldingReg =>
        if addr >= config.input.start && addr + n <= config.input.start + config.input.qty {
          CopyWords(holdingRegs, Offset(addr, holdingBase), n, data);
          ok := true;
        } else {
          ok := false;
        }
    }

    /** An accepted application write stays inside the array and reads only the buffer. */
    ghost predicate AppWriteSafe(t: RegType, data: array<Short>, addr: UShort, n: UShort)
      reads this
    {
      AppAccepts(config, t, addr, n) ==>
        if t == DiscreteInput || t == Coil then
          BitWriteFits(BitArray(t).Length, Offset(addr, BitBase(t)), n) && n <= 8 * data.Length
        else
          WordsFit(WordArray(t).Length, Offset(addr, WordBase(t)), n) && n <= data.Length
    }

    /** bModbus_WriteRegs: stores n objects of one kind from the application's buffer. */
    method WriteRegs(t: RegType, data: array<Short>, addr: UShort, n: UShort) returns (ok: bool)
      requires Valid() && data != inputRegs && data != holdingRegs
      requires AppWriteSafe(t, data, addr, n)
      modifies discrete, coils, inputRegs, holdingRegs
      ensures ok == AppAccepts(config, t, addr, n)
      ensures t != DiscreteInput || !ok ==> discrete[..] == old(discrete[..])
      ensures t != Coil || !ok ==> coils[..] == old(coils[..])
      ensures t != InputReg || !ok ==> inputRegs[..] == old(inputRegs[..])
      ensures t != HoldingReg || !ok ==> holdingRegs[..] == old(holdingRegs[..])
      ensures ok && (t == DiscreteInput || t == Coil) ==>
        BitArray(t)[..] == PackedWrite(old(BitArray(t)[..]), Offset(addr, BitBase(t)), n, ToBytes(data[..]))
      ensures ok && (t == InputReg || t == HoldingReg) ==>
        WordArray(t)[..] == Splice(old(WordArray(t)[..]), Offset(addr, WordBase(t)), data[..n])
    {
      match t
      case DiscreteInput =>
        if addr >= config.discrete.start && addr + n <= config.discrete.start + config.discrete.qty {
          WriteGroupsIn(discrete, Offset(addr, discreteBase), n, ToBytes(data[..]));
          ok := true;
        } else {
          ok := false;
        }
      case Coil =>
        if addr >= config.coils.start && addr + n <= config.coils.start + config.coils.qty {
          WriteGroupsIn(coils, Offset(addr, coilsBase), n, ToBytes(data[..]));
          ok := true;
        } else {
          ok := false;
        }
      case InputReg =>
        if addr >= config.input.start && addr + n <= config.input.start + config.input.qty {
          StoreWords(inputRegs, Offset(addr, inputBase), n, data);
          ok := true;
        } else {
          ok := false;
        }
      case HoldingReg =>
        if addr >= config.input.start && addr + n <= config.input.start + config.input.qty {
          StoreWords(holdingRegs, Offset(addr, holdingBase), n, data);
          ok := true;
        } else {
          ok := false;
        }
    }
  }
}
