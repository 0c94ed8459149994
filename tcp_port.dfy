/**
 * The Modbus TCP port on the W5500 Ethernet chip: the socket descriptor
 * (hW5500MBTCP) with its request and response buffers, its initialisation,
 * the hand-off of frames to and from the protocol engine, and the poll that
 * follows the chip's socket status.
 *
 * The chip is seen only through what one poll reads from it (`Chip`): the
 * network configuration read back, the PHY link bit, the socket status and
 * the bytes waiting in its receive buffer.  Every command given to the chip is
 * appended to an effect log.  One run of the protocol engine (eMBPoll) is an
 * abstract `Step`: the event it leaves queued and the response, if any, it
 * hands to xMBTCPPortSendResponse.
 *
 * Each method is tied to a function on a snapshot of the whole state
 * (`PortView`); the lemmas at the end state what the poll promises.
 */
module PortTcp {
  import opened Bits
  import opened Words
  import opened Options
  import opened Protocol
  import opened Seqs

  /** MB_TCP_BUF_SIZE: the size of the request and of the response buffer. */
  const BufSize: nat := 256
  /** u16MBTCPPortDefined */
  const ModbusPort: nat := 502
  /** The chip's retransmission settings: 5 retries of 2000 * 100 us. */
  const TimeoutRetries: nat := 5
  const Timeout100us: nat := 2000
  /** Socket buffer sizes in KiB handed to the chip, for transmit and for receive. */
  const SocketBufKb: seq<nat> := [16, 0, 0, 0, 0, 0, 0, 0]
  /** The probe sent to the discard port: the string "0" with its terminating NUL. */
  const Probe: seq<Byte> := [0x30, 0]
  const Broadcast: Ip4 := Ip4(255, 255, 255, 255)
  const DiscardPort: nat := 9
  /** Keep-alive interval, in units of 5 seconds. */
  const KeepAliveUnits: nat := 1

  /** Which SPI-attached chip the driver talks to (eSpiPort). */
  datatype SpiPort = SpiNone | SpiMbTcp

  datatype DhcpMode = Static | Dhcp

  /** A MAC address, six bytes. */
  datatype Mac = Mac(m0: Byte, m1: Byte, m2: Byte, m3: Byte, m4: Byte, m5: Byte)

  /** An IPv4 address or mask, four bytes. */
  datatype Ip4 = Ip4(a0: Byte, a1: Byte, a2: Byte, a3: Byte)

  /** wiz_NetInfo */
  datatype NetInfo = NetInfo(mac: Mac, ip: Ip4, sn: Ip4, gw: Ip4, dns: Ip4, dhcp: DhcpMode)

  /** stMBDefaultNetInfo */
  const DefaultNetInfo: NetInfo :=
    NetInfo(Mac(0x00, 0x08, 0xdc, 0x00, 0x00, 0xff), Ip4(192, 168, 1, 254), Ip4(255, 255, 255, 0),
            Ip4(192, 168, 1, 1), Ip4(0, 0, 0, 0), Static)

  /** The socket statuses the poll distinguishes; any other status code is `SockOther`. */
  datatype SockStatus = SockClosed | SockInit | SockListen | SockEstablished | SockCloseWait | SockOther(code: Byte)

  /** W5500TcpSocketErr_TypeDef */
  datatype SocketErr = NoErr | InitialErr

  /** A command given to the chip (or to the protocol engine, for EnginePoll). */
  datatype Effect =
    | SelectSpi(spi: SpiPort)
    | SetTimeout(retries: nat, time100us: nat)
    | InitChip(txKb: seq<nat>, rxKb: seq<nat>)
    | SetNetInfo(info: NetInfo)
    | GetNetInfo
    | SendTo(data: seq<Byte>, ip: Ip4, toPort: nat)
    | CloseSocket
    | ReleaseSocket
    | OpenSocket(localPort: nat)
    | ListenSocket
    | Recv(count: nat)
    | EnginePoll(mode: Mode, pending: Option<Event>)
    | Send(frame: seq<Byte>)
    | KeepAlive(units: nat)
    | Disconnect

  /** The commands given so far, the latest last. */
  datatype Trace = NoEffects | Then(earlier: Trace, last: Effect)

  /** What one poll reads from the chip. */
  datatype Chip = Chip(readBack: NetInfo, linkUp: bool, status: SockStatus, incoming: seq<Byte>)

  /** One run of eMBPoll: the event it leaves queued and the response it hands over, if any. */
  datatype Step = Step(leaves: Option<Event>, reply: Option<seq<Byte>>)

  /** A snapshot of the descriptor, both buffers, the engine and the effect log. */
  datatype PortView = PortView(
    spi: SpiPort, netInfo: NetInfo, port: nat, phy: bool, state: SockStatus,
    connected: bool, txEnable: bool, txSent: bool, rxEnable: bool, rxReceived: bool,
    txSize: UShort, rxSize: UShort, rx: seq<Byte>, tx: seq<Byte>,
    slot: Option<Event>, mode: Mode, effects: Trace)

  datatype InitOutcome = InitOutcome(view: PortView, err: SocketErr)

  predicate ValidView(v: PortView)
  {
    |v.rx| == BufSize && |v.tx| == BufSize && v.txSize <= BufSize
  }

  /** A response a step hands over fits the response buffer. */
  predicate ReplyFits(step: Step)
  {
    step.reply.Some? ==> |step.reply.value| <= BufSize
  }

  /** The chip commands of one initialisation, in order, after those in t. */
  function WithInit(t: Trace): Trace
  {
    Then(Then(Then(Then(Then(Then(Then(t, SelectSpi(SpiMbTcp)), SetTimeout(TimeoutRetries, Timeout100us)),
      InitChip(SocketBufKb, SocketBufKb)), SetNetInfo(DefaultNetInfo)), GetNetInfo),
      SendTo(Probe, Broadcast, DiscardPort)), CloseSocket)
  }

  /** The descriptor fields initialisation sets, before any command reaches the chip. */
  function ResetSpec(v: PortView): (r: PortView)
    requires ValidView(v)
    ensures ValidView(r)
  {
    v.(spi := SpiMbTcp, netInfo := DefaultNetInfo, port := ModbusPort, phy := false, state := SockClosed,
       connected := false, txEnable := false, txSent := false, rxEnable := false, rxReceived := false,
       txSize := BufSize, rxSize := BufSize)
  }

  /** eW5500SPIMBTCP_TCPSocket_Init, given the configuration the chip reads back. */
  function InitSpec(v: PortView, readBack: NetInfo): (r: InitOutcome)
    requires ValidView(v)
    ensures ValidView(r.view)
  {
    var ok := readBack == DefaultNetInfo;
    var w := ResetSpec(v).(spi := if ok then SpiMbTcp else SpiNone, effects := WithInit(v.effects));
    InitOutcome(w, if ok then NoErr else InitialErr)
  }

  /** xMBTCPPortSendResponse: the frame goes to the front of the response buffer and is marked for sending. */
  function SendResponseSpec(v: PortView, frame: seq<Byte>): (r: PortView)
    requires ValidView(v) && |frame| <= BufSize
    ensures ValidView(r)
  {
    v.(txSize := |frame|, tx := Splice(v.tx, 0, frame), txEnable := true)
  }

  /** recv: the waiting bytes go to the front of the request buffer. */
  function ReceiveSpec(v: PortView, incoming: seq<Byte>): (r: PortView)
    requires ValidView(v) && |incoming| <= BufSize
    ensures ValidView(r)
  {
    v.(rx := Splice(v.rx, 0, incoming), effects := Then(v.effects, Recv(|incoming|)))
  }

  /** eMBPoll, as seen from the port. */
  function EnginePollSpec(v: PortView, step: Step): (r: PortView)
    requires ValidView(v) && ReplyFits(step)
    ensures ValidView(r)
  {
    var w := v.(effects := Then(v.effects, EnginePoll(v.mode, v.slot)), slot := step.leaves);
    if step.reply.Some? then SendResponseSpec(w, step.reply.value) else w
  }

  /**
   * The event the poll puts back after serving a request: the one it took, or,
   * when there was none, the uninitialised local variable (`junk`).
   */
  function Restored(before: Option<Event>, junk: Event): Option<Event>
  {
    Some(if before.Some? then before.value else junk)
  }

  /** What the restore evidently intends: the queue as it was before the request. */
  function IntendedRestored(before: Option<Event>): Option<Event>
  {
    before
  }

  /** Taking the request: the queued event is taken, the bytes received, the engine switched to TCP and told a frame arrived. */
  function TakeSpec(v: PortView, incoming: seq<Byte>): (r: PortView)
    requires ValidView(v) && |incoming| <= BufSize
    ensures ValidView(r)
  {
    ReceiveSpec(v.(slot := None), incoming).(mode := Tcp, slot := Some(FrameReceived))
  }

  /** Sending the response, if the engine handed one over. */
  function FlushSpec(v: PortView): (r: PortView)
    requires ValidView(v)
    ensures ValidView(r)
  {
    if v.txEnable then v.(effects := Then(v.effects, Send(v.tx[..v.txSize])), txSent := true, txEnable := false) else v
  }

  /** Serving one request (porttcp.c, the body of `u16RxSize > 0`). */
  function ServeSpec(v: PortView, incoming: seq<Byte>, step: Step, junk: Event): (r: PortView)
    requires ValidView(v) && |incoming| <= BufSize && ReplyFits(step)
    ensures ValidView(r)
  {
    FlushSpec(EnginePollSpec(TakeSpec(v, incoming), step)).(mode := Rtu, slot := Restored(v.slot, junk))
  }

  /** The link check: a lost link releases a connected socket. */
  function LinkSpec(v: PortView, up: bool): (r: PortView)
  {
    var w := v.(phy := up);
    if !up && w.connected then w.(connected := false, effects := Then(w.effects, ReleaseSocket)) else w
  }

  /** The socket is established: it counts as connected and the bytes waiting are recorded. */
  function OpenSpec(v: PortView, waiting: UShort): (r: PortView)
  {
    v.(connected := true, rxSize := waiting)
  }

  /** The keep-alive command that ends every poll of an established socket. */
  function KeepAliveSpec(v: PortView): (r: PortView)
  {
    v.(effects := Then(v.effects, KeepAlive(KeepAliveUnits)))
  }

  /** An established connection: serve the request if bytes are waiting, then set the keep-alive. */
  function EstablishedSpec(v: PortView, incoming: seq<Byte>, step: Step, junk: Event): (r: PortView)
    requires ValidView(v) && |incoming| <= BufSize && ReplyFits(step)
    ensures ValidView(r)
  {
    var w := OpenSpec(v, |incoming|);
    KeepAliveSpec(if |incoming| > 0 then ServeSpec(w, incoming, step, junk) else w)
  }

  /** The switch on the socket status. */
  function DispatchSpec(v: PortView, chip: Chip, step: Step, junk: Event): (r: PortView)
    requires ValidView(v) && |chip.incoming| <= BufSize && ReplyFits(step)
    ensures ValidView(r)
  {
    match v.state
    case SockClosed => v.(connected := false, effects := Then(v.effects, OpenSocket(v.port)))
    case SockInit => v.(effects := Then(v.effects, ListenSocket))
    case SockListen => v
    case SockEstablished => EstablishedSpec(v, chip.incoming, step, junk)
    case SockCloseWait => v.(effects := Then(v.effects, Disconnect))
    case SockOther(_) => v
  }

  /** The poll up to the switch: initialise if no chip is selected, select it, check the link, read the status. */
  function PrepareSpec(v: PortView, chip: Chip): (r: PortView)
    requires ValidView(v)
    ensures ValidView(r)
  {
    var w1 := if v.spi == SpiNone then InitSpec(v, chip.readBack).view else v;
    var w2 := w1.(effects := Then(w1.effects, SelectSpi(w1.spi)));
    LinkSpec(w2, chip.linkUp).(state := chip.status)
  }

  /** vModbusTCPServerPoll */
  function PollSpec(v: PortView, chip: Chip, step: Step, junk: Event): (r: PortView)
    requires ValidView(v) && |chip.incoming| <= BufSize && ReplyFits(step)
    ensures ValidView(r)
  {
    DispatchSpec(PrepareSpec(v, chip), chip, step, junk)
  }

  /** W5500TcpSocket_TypeDef, with the buffers it points to and the protocol engine it drives. */
  class TcpSocket {
    var spiPort: SpiPort
    var netInfo: NetInfo
    var port: nat
    var phyConnected: bool
    var sockState: SockStatus
    var connected: bool
    var txEnable: bool
    var txSent: bool
    var rxEnable: bool
    var rxReceived: bool
    var txSize: UShort
    var rxSize: UShort
    /** au8TCPRequestFrame, which pu8RxData points to */
    const rxBuf: array<Byte>
    /** au8TCPResponseFrame, which pu8TxData points to */
    const txBuf: array<Byte>
    /** The commands given to the chip so far. */
    var effects: Trace
    const engine: Engine

    ghost predicate Valid()
      reads this
    {
      rxBuf.Length == BufSize && txBuf.Length == BufSize && rxBuf != txBuf && txSize <= BufSize
    }

    function View(): PortView
      reads this, rxBuf, txBuf, engine
    {
      PortView(spiPort, netInfo, port, phyConnected, sockState, connected, txEnable, txSent, rxEnable,
               rxReceived, txSize, rxSize, rxBuf[..], txBuf[..], engine.slot, engine.mode, effects)
    }

    /**
     * The descriptor in static storage before the first poll: no chip selected
     * (so the first poll initialises), every flag false, both sizes zero.
     */
    constructor (e: Engine)
      ensures Valid() && ValidView(View()) && engine == e
      ensures fresh(rxBuf) && fresh(txBuf)
      ensures spiPort == SpiNone && effects == NoEffects
      ensures !phyConnected && sockState == SockClosed && !connected
      ensures !txEnable && !txSent && !rxEnable && !rxReceived && txSize == 0 && rxSize == 0
    {
      engine := e;
      spiPort := SpiNone;
      netInfo := NetInfo(Mac(0, 0, 0, 0, 0, 0), Ip4(0, 0, 0, 0), Ip4(0, 0, 0, 0), Ip4(0, 0, 0, 0), Ip4(0, 0, 0, 0), Static);
      port := 0;
      phyConnected, sockState, connected := false, SockClosed, false;
      txEnable, txSent, rxEnable, rxReceived := false, false, false, false;
      txSize, rxSize := 0, 0;
      rxBuf := new Byte[BufSize](_ => 0);
      txBuf := new Byte[BufSize](_ => 0);
      effects := NoEffects;
    }

    /** Selects the chip and gives the descriptor the default configuration and port. */
    method SetDefaults()
      requires Valid()
      modifies this
      ensures Valid()
      ensures View() == old(View()).(spi := SpiMbTcp, netInfo := DefaultNetInfo, port := ModbusPort)
    {
      spiPort := SpiMbTcp;
      netInfo := DefaultNetInfo;
      port := ModbusPort;
    }

    /** Marks the link down, the socket closed and not connected. */
    method ClearConnection()
      requires Valid()
      modifies this
      ensures Valid()
      ensures View() == old(View()).(phy := false, state := SockClosed, connected := false)
    {
      phyConnected := false;
      sockState := SockClosed;
      connected := false;
    }

    /** Clears the four transfer flags. */
    method ClearTransfer()
      requires Valid()
      modifies this
      ensures Valid()
      ensures View() == old(View()).(txEnable := false, txSent := false, rxEnable := false, rxReceived := false)
    {
      txEnable := false;
      txSent := false;
      rxEnable := false;
      rxReceived := false;
    }

    /** The field resets at the start of initialisation. */
    method Reset()
      requires Valid()
      modifies this
      ensures Valid()
      ensures View() == ResetSpec(old(View()))
    {
      SetDefaults();
      ClearConnection();
      ClearTransfer();
      txSize := BufSize;
      rxSize := BufSize;
    }

    /** eW5500SPIMBTCP_TCPSocket_Init */
    method Init(readBack: NetInfo) returns (err: SocketErr)
      requires Valid()
      modifies this
      ensures Valid()
      ensures View() == InitSpec(old(View()), readBack).view
      ensures err == InitSpec(old(View()), readBack).err
    {
      var log := Then(effects, SelectSpi(SpiMbTcp));
      Reset();
      log := Then(Then(log, SetTimeout(TimeoutRetries, Timeout100us)), InitChip(SocketBufKb, SocketBufKb));
      log := Then(Then(log, SetNetInfo(netInfo)), GetNetInfo);
      err := NoErr;
      if readBack != netInfo {
        spiPort := SpiNone;
        err := InitialErr;
      }
      effects := Then(Then(log, SendTo(Probe, Broadcast, DiscardPort)), CloseSocket);
    }

    /** xMBTCPPortGetRequest: the request buffer and the count last received; nothing changes. */
    method GetRequest() returns (frame: array<Byte>, len: UShort, ok: bool)
      ensures frame == rxBuf && len == rxSize && ok
    {
      frame := rxBuf;
      len := rxSize;
      ok := true;
    }

    /** xMBTCPPortSendResponse: copies the first len bytes of the frame into the response buffer. */
    method SendResponse(frame: seq<Byte>, len: UShort) returns (ok: bool)
      requires Valid() && len <= |frame| && len <= BufSize
      modifies this, txBuf
      ensures Valid()
      ensures View() == SendResponseSpec(old(View()), frame[..len])
      ensures ok
    {
      txSize := len;
      forall i | 0 <= i < len {
        txBuf[i] := frame[i];
      }
      assert txBuf[..] == Splice(old(txBuf[..]), 0, frame[..len]);
      txEnable := true;
      ok := true;
    }

    /** recv: copies the waiting bytes into the request buffer. */
    method Receive(incoming: seq<Byte>)
      requires Valid() && |incoming| <= BufSize
      modifies this, rxBuf
      ensures Valid()
      ensures View() == ReceiveSpec(old(View()), incoming)
    {
      forall i | 0 <= i < |incoming| {
        rxBuf[i] := incoming[i];
      }
      assert rxBuf[..] == Splice(old(rxBuf[..]), 0, incoming);
      effects := Then(effects, Recv(|incoming|));
    }

    /** eMBPoll: one run of the protocol engine, which may hand a response to SendResponse. */
    method RunEngine(step: Step)
      requires Valid() && ReplyFits(step)
      modifies this, txBuf, engine
      ensures Valid()
      ensures View() == EnginePollSpec(old(View()), step)
    {
      effects := Then(effects, EnginePoll(engine.mode, engine.slot));
      engine.slot := step.leaves;
      if step.reply.Some? {
        var sent := SendResponse(step.reply.value, |step.reply.value|);
      }
    }

    /**
     * The start of serving a request: the queued event is saved, the bytes
     * received, and the engine switched to TCP with a frame-received event.
     */
    method TakeRequest(incoming: seq<Byte>, junk: Event) returns (queued: Event)
      requires Valid() && |incoming| <= BufSize
      modifies this, rxBuf, engine
      ensures Valid()
      ensures View() == TakeSpec(old(View()), incoming)
      ensures queued == if old(engine.slot).Some? then old(engine.slot).value else junk
    {
      var got;
      got, queued := engine.EventGet(junk);
      Receive(incoming);
      engine.SwitchMode(Tcp);
      var posted := engine.EventPost(FrameReceived);
    }

    /** Sends the response buffer if a response is pending. */
    method Flush()
      requires Valid()
      modifies this
      ensures Valid()
      ensures View() == FlushSpec(old(View()))
    {
      if txEnable {
        effects := Then(effects, Send(txBuf[..txSize]));
        txSent := true;
        txEnable := false;
      }
    }

    /** The end of serving a request: back to RTU, and the saved event is queued again. */
    method Requeue(queued: Event)
      requires Valid()
      modifies engine
      ensures Valid()
      ensures View() == old(View()).(mode := Rtu, slot := Some(queued))
    {
      engine.SwitchMode(Rtu);
      var posted := engine.EventPost(queued);
    }

    /** Serves one received request: the body of `u16RxSize > 0` in the poll. */
    method Serve(incoming: seq<Byte>, step: Step, junk: Event)
      requires Valid() && |incoming| <= BufSize && ReplyFits(step)
      modifies this, rxBuf, txBuf, engine
      ensures Valid()
      ensures View() == ServeSpec(old(View()), incoming, step, junk)
    {
      var queued := TakeRequest(incoming, junk);
      RunEngine(step);
      Flush();
      Requeue(queued);
    }

    /** The link check of the poll: a lost link releases a connected socket. */
    method CheckLink(up: bool)
      requires Valid()
      modifies this
      ensures Valid()
      ensures View() == LinkSpec(old(View()), up)
    {
      phyConnected := up;
      if !phyConnected {
        if connected {
          effects := Then(effects, ReleaseSocket);
          connected := false;
        }
      }
    }

    /** Marks the socket connected and records the number of bytes waiting. */
    method Open(waiting: UShort)
      requires Valid()
      modifies this
      ensures Valid()
      ensures View() == OpenSpec(old(View()), waiting)
    {
      connected := true;
      rxSize := waiting;
    }

    /** Sets the socket's keep-alive interval. */
    method SetKeepAlive()
      requires Valid()
      modifies this
      ensures Valid()
      ensures View() == KeepAliveSpec(old(View()))
    {
      effects := Then(effects, KeepAlive(KeepAliveUnits));
    }

    /** The SOCK_ESTABLISHED case of the poll. */
    method Established(incoming: seq<Byte>, step: Step, junk: Event)
      requires Valid() && |incoming| <= BufSize && ReplyFits(step)
      modifies this, rxBuf, txBuf, engine
      ensures Valid()
      ensures View() == EstablishedSpec(old(View()), incoming, step, junk)
    {
      Open(|incoming|);
      if rxSize > 0 {
        Serve(incoming, step, junk);
      }
      SetKeepAlive();
    }

    /** The switch of the poll on the socket status just read. */
    method Dispatch(chip: Chip, step: Step, junk: Event)
      requires Valid() && |chip.incoming| <= BufSize && ReplyFits(step)
      modifies this, rxBuf, txBuf, engine
      ensures Valid()
      ensures View() == DispatchSpec(old(View()), chip, step, junk)
    {
      match sockState {
        case SockClosed =>
          connected := false;
          effects := Then(effects, OpenSocket(port));
        case SockInit =>
          effects := Then(effects, ListenSocket);
        case SockListen =>
        case SockEstablished =>
          Established(chip.incoming, step, junk);
        case SockCloseWait =>
          effects := Then(effects, Disconnect);
        case SockOther(_) =>
      }
    }

    /** The poll up to the switch on the socket status. */
    method Prepare(chip: Chip)
      requires Valid()
      modifies this
      ensures Valid()
      ensures View() == PrepareSpec(old(View()), chip)
    {
      if spiPort == SpiNone {
        var err := Init(chip.readBack);
      }
      ghost var w1 := View();
      effects := Then(effects, SelectSpi(spiPort));
      ghost var w2 := View();
      assert w2 == w1.(effects := Then(w1.effects, SelectSpi(w1.spi)));
      CheckLink(chip.linkUp);
      sockState := chip.status;
    }

    /** vModbusTCPServerPoll, called with this descriptor. */
    method Poll(chip: Chip, step: Step, junk: Event)
      requires Valid() && |chip.incoming| <= BufSize && ReplyFits(step)
      modifies this, rxBuf, txBuf, engine
      ensures Valid()
      ensures View() == PollSpec(old(View()), chip, step, junk)
    {
      Prepare(chip);
      Dispatch(chip, step, junk);
    }
  }
}
