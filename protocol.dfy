/**
 * The parts of the FreeModbus protocol engine that the TCP port drives: the
 * single-event queue of the port layer and the engine's current transport.
 * Their code is not part of this model; they are given by the small contracts
 * below, which are what the TCP poll relies on.
 */
module Protocol {
  import opened Options

  /** eMBEventType */
  datatype Event = Ready | FrameReceived | Execute | FrameSent

  /** eMBMode */
  datatype Mode = Rtu | Ascii | Tcp

  class Engine {
    /** The queued event: xEventInQueue together with eQueuedEvent. */
    var slot: Option<Event>
    /** The transport eMBSwitchMode last selected. */
    var mode: Mode

    constructor (m: Mode)
      ensures slot == None && mode == m
    {
      slot := None;
      mode := m;
    }

    /**
     * xMBPortEventGet: takes the queued event if there is one and reports
     * whether there was; without one, the caller's variable keeps the value it
     * had (`prior`).
     */
    method EventGet(prior: Event) returns (got: bool, e: Event)
      modifies this`slot
      ensures got <==> old(slot).Some?
      ensures e == if got then old(slot).value else prior
      ensures slot == None
    {
      got := slot.Some?;
      e := if got then slot.value else prior;
      slot := None;
    }

    /** xMBPortEventPost: the event replaces whatever was queued. */
    method EventPost(e: Event) returns (ok: bool)
      modifies this`slot
      ensures slot == Some(e) && ok
    {
      slot := Some(e);
      ok := true;
    }

    /** eMBSwitchMode */
    method SwitchMode(m: Mode)
      modifies this`mode
      ensures mode == m
    {
      mode := m;
    }
  }
}
