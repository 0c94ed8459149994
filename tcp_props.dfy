/**
 * What the TCP port promises, stated on the functions PortTcp's methods are
 * proved against: initialisation, the hand-over of request and response
 * buffers, serving one request, the switch on the socket status and the poll
 * as a whole.
 */
module TcpProps {
  import opened Bits
  import opened Words
  import opened Options
  import opened Protocol
  import opened Seqs
  import opened PortTcp

  /**
   * Initialisation resets the descriptor, gives the chip its fixed sequence of
   * commands, and fails, leaving no chip selected, exactly when the
   * configuration read back differs from the one written.
   */
  lemma InitOutcome(v: PortView, readBack: NetInfo)
    requires ValidView(v)
    ensures InitSpec(v, readBack).err == InitialErr <==> readBack != DefaultNetInfo
    ensures InitSpec(v, readBack).view.spi == SpiMbTcp <==> InitSpec(v, readBack).err == NoErr
    ensures InitSpec(v, readBack).view.spi == SpiNone <==> InitSpec(v, readBack).err == InitialErr
    ensures var w := InitSpec(v, readBack).view;
      && w.netInfo == DefaultNetInfo && w.port == ModbusPort && w.state == SockClosed
      && !w.phy && !w.connected && !w.txEnable && !w.txSent && !w.rxEnable && !w.rxReceived
      && w.txSize == BufSize && w.rxSize == BufSize
      && w.rx == v.rx && w.tx == v.tx && w.slot == v.slot && w.mode == v.mode
      && w.effects == WithInit(v.effects)
  {
  }

  /**
   * A response handed over is at the front of the response buffer, the rest
   * of the buffer is as it was, and the response is marked for sending.
   */
  lemma ResponseAtFront(v: PortView, frame: seq<Byte>)
    requires ValidView(v) && |frame| <= BufSize
    ensures var r := SendResponseSpec(v, frame);
      && r.tx[..r.txSize] == frame && r.tx[|frame|..] == v.tx[|frame|..]
      && r.txEnable && r.effects == v.effects && r.rx == v.rx
  {
    var r := SendResponseSpec(v, frame);
    SpliceRead(v.tx, 0, frame);
    assert r.tx[..r.txSize] == r.tx[0..|frame|];
  }

  /** The bytes received are at the front of the request buffer; the rest is as it was. */
  lemma RequestAtFront(v: PortView, incoming: seq<Byte>)
    requires ValidView(v) && |incoming| <= BufSize
    ensures var r := ReceiveSpec(v, incoming);
      && r.rx[..|incoming|] == incoming && r.rx[|incoming|..] == v.rx[|incoming|..]
      && r.effects == Then(v.effects, Recv(|incoming|)) && r.tx == v.tx && r.rxSize == v.rxSize
  {
    var r := ReceiveSpec(v, incoming);
    SpliceRead(v.rx, 0, incoming);
    assert r.rx[..|incoming|] == r.rx[0..|incoming|];
  }

  /**
   * The commands of serving a request: the request is received, the engine
   * is run once in TCP mode with a frame-received event pending, and the
   * response is sent when one is pending afterwards (the one just handed
   * over, or one left from before).
   */
  lemma ServeCommands(v: PortView, incoming: seq<Byte>, step: Step, junk: Event)
    requires ValidView(v) && |incoming| <= BufSize && ReplyFits(step)
    ensures var r := ServeSpec(v, incoming, step, junk);
      var sends := step.reply.Some? || v.txEnable;
      var frame := if step.reply.Some? then step.reply.value else v.tx[..v.txSize];
      var polled := Then(Then(v.effects, Recv(|incoming|)), EnginePoll(Tcp, Some(FrameReceived)));
      && r.effects == (if sends then Then(polled, Send(frame)) else polled)
      && !r.txEnable && r.txSent == (sends || v.txSent)
  {
    var w1 := TakeSpec(v, incoming);
    var u := w1.(effects := Then(w1.effects, EnginePoll(w1.mode, w1.slot)), slot := step.leaves);
    if step.reply.Some? {
      ResponseAtFront(u, step.reply.value);
    }
  }

  /**
   * The state after serving a request: the engine is back in RTU mode with
   * the saved event queued, the request is at the front of the request
   * buffer, the response size is that of the response just handed over, and
   * the descriptor's connection state is left alone.
   */
  lemma ServeState(v: PortView, incoming: seq<Byte>, step: Step, junk: Event)
    requires ValidView(v) && |incoming| <= BufSize && ReplyFits(step)
    ensures var r := ServeSpec(v, incoming, step, junk);
      && r.mode == Rtu && r.slot == Restored(v.slot, junk)
      && r.txSize == (if step.reply.Some? then |step.reply.value| else v.txSize)
      && r.rx[..|incoming|] == incoming
      && r.spi == v.spi && r.netInfo == v.netInfo && r.port == v.port && r.phy == v.phy
      && r.state == v.state && r.connected == v.connected && r.rxSize == v.rxSize
  {
    RequestAtFront(v.(slot := None), incoming);
    assert TakeSpec(v, incoming).rx == ReceiveSpec(v.(slot := None), incoming).rx;
  }

  /** The event queued after serving a request is the one queued before, unless there was none. */
  lemma RestoreAsWritten(before: Option<Event>, junk: Event)
    ensures Restored(before, junk) == IntendedRestored(before) <==> before.Some?
    ensures before.None? ==> Restored(before, junk) == Some(junk)
  {
  }

  /** Serving a request as evidently intended: the queue is left as it was found. */
  function IntendedServeSpec(v: PortView, incoming: seq<Byte>, step: Step): (r: PortView)
    requires ValidView(v) && |incoming| <= BufSize && ReplyFits(step)
    ensures ValidView(r)
  {
    FlushSpec(EnginePollSpec(TakeSpec(v, incoming), step)).(mode := Rtu, slot := IntendedRestored(v.slot))
  }

  /**
   * The intended serve leaves the queued event as it was; the as-written one
   * agrees with it exactly when an event was queued, and otherwise queues the
   * uninitialised variable.
   */
  lemma IntendedServeKeepsQueue(v: PortView, incoming: seq<Byte>, step: Step, junk: Event)
    requires ValidView(v) && |incoming| <= BufSize && ReplyFits(step)
    ensures IntendedServeSpec(v, incoming, step).slot == v.slot
    ensures ServeSpec(v, incoming, step, junk) == IntendedServeSpec(v, incoming, step) <==> v.slot.Some?
    ensures v.slot.None? ==> ServeSpec(v, incoming, step, junk).slot == Some(junk)
  {
    if v.slot.None? {
      assert ServeSpec(v, incoming, step, junk).slot != IntendedServeSpec(v, incoming, step).slot;
    }
  }

  /**
   * An established connection is marked connected, records the number of
   * bytes waiting and ends with the keep-alive command; the engine runs only
   * when bytes are waiting, and then sees exactly those bytes as its request.
   */
  lemma EstablishedOutcome(v: PortView, incoming: seq<Byte>, step: Step, junk: Event)
    requires ValidView(v) && |incoming| <= BufSize && ReplyFits(step)
    ensures var r := EstablishedSpec(v, incoming, step, junk);
      && r.connected && r.rxSize == |incoming| && r.rx[..r.rxSize] == incoming
      && r.spi == v.spi && r.netInfo == v.netInfo && r.port == v.port && r.phy == v.phy && r.state == v.state
      && r.effects.Then? && r.effects.last == KeepAlive(KeepAliveUnits)
      && (|incoming| == 0 ==>
            r == v.(connected := true, rxSize := 0, effects := Then(v.effects, KeepAlive(KeepAliveUnits))))
      && (|incoming| > 0 ==>
            r.mode == Rtu && r.slot == Restored(v.slot, junk) && !r.txEnable)
  {
    if |incoming| > 0 {
      var w := OpenSpec(v, |incoming|);
      ServeCommands(w, incoming, step, junk);
      ServeState(w, incoming, step, junk);
    }
  }

  /**
   * The switch on the socket status: the descriptor is connected afterwards
   * exactly when the socket is established or was connected and is not
   * closed; the engine and both buffers are touched only when an established
   * socket has bytes waiting; the chip selection, configuration and port
   * never change.
   */
  lemma DispatchOutcome(v: PortView, chip: Chip, step: Step, junk: Event)
    requires ValidView(v) && |chip.incoming| <= BufSize && ReplyFits(step)
    ensures var r := DispatchSpec(v, chip, step, junk);
      && r.connected == (v.state == SockEstablished || (v.state != SockClosed && v.connected))
      && r.spi == v.spi && r.netInfo == v.netInfo && r.port == v.port && r.phy == v.phy && r.state == v.state
      && (v.state != SockEstablished || |chip.incoming| == 0 ==>
            r.slot == v.slot && r.mode == v.mode && r.tx == v.tx && r.txEnable == v.txEnable)
  {
    if v.state == SockEstablished {
      EstablishedOutcome(v, chip.incoming, step, junk);
    } else {
      DispatchCommands(v, chip, step, junk);
    }
  }

  /**
   * The command the switch gives the chip for each status other than
   * established: open the socket on the descriptor's port when it is closed,
   * listen once it is initialised, disconnect when the peer has closed, and
   * nothing at all while listening or in any other status.
   */
  lemma DispatchCommands(v: PortView, chip: Chip, step: Step, junk: Event)
    requires ValidView(v) && |chip.incoming| <= BufSize && ReplyFits(step)
    requires v.state != SockEstablished
    ensures var r := DispatchSpec(v, chip, step, junk);
      && (v.state == SockClosed ==> r == v.(connected := false, effects := Then(v.effects, OpenSocket(v.port))))
      && (v.state == SockInit ==> r == v.(effects := Then(v.effects, ListenSocket)))
      && (v.state == SockCloseWait ==> r == v.(effects := Then(v.effects, Disconnect)))
      && (v.state == SockListen || v.state.SockOther? ==> r == v)
  {
  }

  /**
   * The poll up to the switch: it initialises exactly when no chip is
   * selected, then selects the chip, records the link bit and the socket
   * status, and releases the socket when the link is down on a connected
   * descriptor.
   */
  lemma PrepareOutcome(v: PortView, chip: Chip)
    requires ValidView(v)
    ensures var r := PrepareSpec(v, chip);
      var w := if v.spi == SpiNone then InitSpec(v, chip.readBack).view else v;
      var released := !chip.linkUp && w.connected;
      var selected := Then(w.effects, SelectSpi(w.spi));
      && r.effects == (if released then Then(selected, ReleaseSocket) else selected)
      && r.spi == w.spi && r.phy == chip.linkUp && r.state == chip.status
      && r.connected == (chip.linkUp && w.connected)
      && (v.spi == SpiNone ==> r.netInfo == DefaultNetInfo && w.effects == WithInit(v.effects))
      && (v.spi != SpiNone ==> r.netInfo == v.netInfo && r.port == v.port && r.spi == v.spi)
      && (v.spi == SpiNone ==> (r.spi == SpiNone <==> chip.readBack != DefaultNetInfo))
  {
    if v.spi == SpiNone {
      InitOutcome(v, chip.readBack);
    }
  }

  /**
   * Over a whole poll: a selected chip is never initialised again, a failed
   * initialisation leaves the chip unselected so that the next poll tries
   * again, and the socket counts as connected afterwards exactly when it is
   * established, or it was connected with the link up and is neither closed
   * nor newly initialised.
   */
  lemma PollOutcome(v: PortView, chip: Chip, step: Step, junk: Event)
    requires ValidView(v) && |chip.incoming| <= BufSize && ReplyFits(step)
    ensures var r := PollSpec(v, chip, step, junk);
      && (v.spi == SpiNone ==> (r.spi == SpiNone <==> chip.readBack != DefaultNetInfo))
      && (v.spi != SpiNone ==> r.spi == v.spi && r.netInfo == v.netInfo && r.port == v.port)
      && r.phy == chip.linkUp && r.state == chip.status
      && r.connected == (chip.status == SockEstablished ||
                         (chip.status != SockClosed && chip.linkUp && v.spi != SpiNone && v.connected))
  {
    var p := PrepareSpec(v, chip);
    PrepareOutcome(v, chip);
    if v.spi == SpiNone {
      InitOutcome(v, chip.readBack);
    }
    DispatchOutcome(p, chip, step, junk);
  }
}
