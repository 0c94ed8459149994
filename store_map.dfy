/**
 * How a request (address, count) is mapped onto the static register arrays.
 *
 * Each of the four spaces has a build-time START and QTY.  A request is
 * accepted when it lies inside [START, START + QTY); the array index is then
 * the address minus the space's index base, a USHORT variable that nothing
 * ever assigns, so it keeps the zero of static storage.  The FreeModbus
 * callbacks first step the address down by one; the application API does not.
 */
module StoreMap {
  import opened Bits
  import opened Words
  import opened Packed
  import opened Seqs

  /** One address space: START and QTY. */
  datatype Space = Space(start: nat, qty: nat)

  /** The four spaces, in the order discrete inputs, coils, input and holding registers. */
  datatype MapConfig = MapConfig(discrete: Space, coils: Space, input: Space, holding: Space)

  /** The constants the firmware is built with. */
  const Shipped: MapConfig :=
    MapConfig(Space(1, 8), Space(1, 8), Space(1, 2048), Space(1, 2048))

  /** The register kinds of the application API (ModbusRegType_Typedef). */
  datatype RegType = DiscreteInput | Coil | InputReg | HoldingReg

  /**
   * Bytes in a packed array for qty bits: `qty >> 3` when qty is a multiple of
   * eight (the *_BYTE_ALIGNED case), one more otherwise.
   */
  function PackedBytes(qty: nat): (r: nat)
    ensures qty <= 8 * r < qty + 8
  {
    if qty % 8 == 0 then qty / 8 else qty / 8 + 1
  }

  /** The range check: `a >= START && a + n <= START + QTY`, in int arithmetic. */
  predicate InSpace(sp: Space, a: int, n: int)
  {
    a >= sp.start && a + n <= sp.start + sp.qty
  }

  /** The array position of an address: `(USHORT)(a - base)`. */
  function Offset(a: UShort, base: UShort): (r: UShort)
    ensures a >= base ==> r == a - base
    ensures a < base ==> r == a - base + 65536
  {
    ToUShort(a - base)
  }

  /** What a FreeModbus callback accepts: the range check on the decremented address. */
  predicate CallbackAccepts(sp: Space, addr: UShort, n: UShort)
  {
    InSpace(sp, Decrement(addr), n)
  }

  /** What the application API accepts, as written: HOLDING_REG is checked against the INPUT_REG space. */
  predicate AppAccepts(cfg: MapConfig, t: RegType, addr: UShort, n: UShort)
  {
    match t
    case DiscreteInput => InSpace(cfg.discrete, addr, n)
    case Coil => InSpace(cfg.coils, addr, n)
    case InputReg => InSpace(cfg.input, addr, n)
    case HoldingReg => InSpace(cfg.input, addr, n)
  }

  /** What the application API evidently means to accept: each kind against its own space. */
  predicate IntendedAppAccepts(cfg: MapConfig, t: RegType, addr: UShort, n: UShort)
  {
    match t
    case DiscreteInput => InSpace(cfg.discrete, addr, n)
    case Coil => InSpace(cfg.coils, addr, n)
    case InputReg => InSpace(cfg.input, addr, n)
    case HoldingReg => InSpace(cfg.holding, addr, n)
  }

  /** A bit read from bit pos touches n/8 + 1 whole groups of eight bits. */
  predicate BitReadFits(len: nat, pos: nat, n: nat)
  {
    pos + 8 * (n / 8 + 1) <= 8 * len
  }

  /** A bit write from bit pos touches exactly n bits, so a write of none touches nothing. */
  predicate BitWriteFits(len: nat, pos: nat, n: nat)
  {
    n == 0 || pos + n <= 8 * len
  }

  /** A register access from index idx touches n consecutive registers, so one of none touches nothing. */
  predicate WordsFit(len: nat, idx: nat, n: nat)
  {
    n == 0 || idx + n <= len
  }

  /**
   * With the shipped constants the stepped-down address of any accepted
   * callback request is at least 1, and from that bit on the
   * one-byte discrete and coil arrays cannot hold n/8 + 1 groups of eight.
   */
  lemma ShippedBitReadOverruns(addr: UShort, n: UShort)
    requires CallbackAccepts(Shipped.coils, addr, n)
    ensures Decrement(addr) >= 1
    ensures !BitReadFits(PackedBytes(Shipped.coils.qty), Offset(Decrement(addr), 0), n)
  {
    var a := Decrement(addr);
    assert PackedBytes(8) == 1;
    assert Offset(a, 0) == a;
    assert 8 * (n / 8 + 1) >= 8;
  }

  /** The same holds for the application API, which does not step the address down. */
  lemma ShippedAppBitReadOverruns(t: RegType, addr: UShort, n: UShort)
    requires t == DiscreteInput || t == Coil
    requires AppAccepts(Shipped, t, addr, n)
    ensures !BitReadFits(PackedBytes(8), Offset(addr, 0), n)
  {
    assert PackedBytes(8) == 1;
    assert 8 * (n / 8 + 1) >= 8;
  }

  /**
   * Holding address 2049, count 1: the callback steps it to 2048, which passes
   * the check against [1, 2049), and with base 0 the register written or read
   * is index 2048 of a 2048-register array.
   */
  lemma ShippedHoldingOverrun()
    ensures CallbackAccepts(Shipped.holding, 2049, 1)
    ensures Offset(Decrement(2049), 0) == 2048
    ensures !WordsFit(Shipped.holding.qty, Offset(Decrement(2049), 0), 1)
  {
  }

  /**
   * With base 0 and START 1, an accepted register request overruns exactly
   * when it covers at least one register and reaches the last address of the
   * space.
   */
  lemma {:induction false} WordOverrunExactly(sp: Space, a: UShort, n: UShort)
    requires sp.start == 1 && InSpace(sp, a, n)
    ensures WordsFit(sp.qty, Offset(a, 0), n) <==> n == 0 || a + n < sp.start + sp.qty
  {
    assert Offset(a, 0) == a;
  }

  /**
   * A request for zero objects at the end of a space is accepted and touches
   * nothing: holding address 2050 steps down to 2049, the register loop runs
   * zero times, and a zero-count coil write at address 10 sets no bits.
   */
  lemma ZeroCountAtEndAccepted()
    ensures CallbackAccepts(Shipped.holding, 2050, 0)
    ensures Offset(Decrement(2050), 0) == 2049 && WordsFit(Shipped.holding.qty, 2049, 0)
    ensures CallbackAccepts(Shipped.coils, 10, 0)
    ensures BitWriteFits(PackedBytes(Shipped.coils.qty), Offset(Decrement(10), 0), 0)
  {
  }

  /**
   * With the index base set to START, every request a callback accepts lies
   * inside the array: registers fit, and so do the bits of a packed space.
   */
  lemma CorrectedBaseFits(sp: Space, addr: UShort, n: UShort)
    requires sp.start < 65536
    requires CallbackAccepts(sp, addr, n)
    ensures WordsFit(sp.qty, Offset(Decrement(addr), sp.start), n)
    ensures BitWriteFits(PackedBytes(sp.qty), Offset(Decrement(addr), sp.start), n)
  {
    var a := Decrement(addr);
    assert Offset(a, sp.start) == a - sp.start;
  }

  /** The same for the application API. */
  lemma CorrectedAppBaseFits(sp: Space, addr: UShort, n: UShort)
    requires sp.start < 65536
    requires InSpace(sp, addr, n)
    ensures WordsFit(sp.qty, Offset(addr, sp.start), n)
    ensures BitWriteFits(PackedBytes(sp.qty), Offset(addr, sp.start), n)
  {
    assert Offset(addr, sp.start) == addr - sp.start;
  }

  /**
   * Even with the corrected base, the as-written bit read runs past the array
   * for a whole-space request: all eight coils (request address 2, stepped
   * down to 1, bit 0 of the array) need a second byte.
   */
  lemma CorrectedBaseStillOverreads()
    ensures CallbackAccepts(Shipped.coils, 2, 8)
    ensures Offset(Decrement(2), Shipped.coils.start) == 0
    ensures !BitReadFits(PackedBytes(8), 0, 8)
  {
  }

  /**
   * The corrected read (corrected base and IntendedRead) returns exactly the
   * requested bits of any request a callback accepts.
   */
  lemma CorrectedBitRead(sp: Space, s: seq<Byte>, addr: UShort, n: UShort)
    requires sp.start < 65536 && |s| == PackedBytes(sp.qty)
    requires CallbackAccepts(sp, addr, n)
    ensures Offset(Decrement(addr), sp.start) + n <= 8 * |s|
    ensures forall k | 0 <= k < 8 * |IntendedRead(s, Offset(Decrement(addr), sp.start), n)| ::
      BitAt(IntendedRead(s, Offset(Decrement(addr), sp.start), n), k) ==
        (k < n && BitAt(s, Offset(Decrement(addr), sp.start) + k))
  {
    CorrectedBaseFits(sp, addr, n);
    IntendedReadBits(s, Offset(Decrement(addr), sp.start), n);
  }

  /** The holding check of the application API uses the input space's bounds. */
  lemma HoldingCheckUsesInputBounds(cfg: MapConfig, addr: UShort, n: UShort)
    ensures AppAccepts(cfg, HoldingReg, addr, n) == InSpace(cfg.input, addr, n)
    ensures cfg.input == cfg.holding ==>
      (AppAccepts(cfg, HoldingReg, addr, n) <==> IntendedAppAccepts(cfg, HoldingReg, addr, n))
  {
  }

  /**
   * A build with 4 input and 8 holding registers: holding address 5 is inside
   * the holding space but the API rejects it.
   */
  lemma HoldingCheckRejectsValid()
    ensures IntendedAppAccepts(MapConfig(Space(1, 8), Space(1, 8), Space(1, 4), Space(1, 8)), HoldingReg, 5, 1)
    ensures !AppAccepts(MapConfig(Space(1, 8), Space(1, 8), Space(1, 4), Space(1, 8)), HoldingReg, 5, 1)
  {
  }

  /** Under the shipped constants both checks agree on every request and kind. */
  lemma ShippedChecksAgree(t: RegType, addr: UShort, n: UShort)
    ensures AppAccepts(Shipped, t, addr, n) <==> IntendedAppAccepts(Shipped, t, addr, n)
  {
  }
}
