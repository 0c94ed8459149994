# Modbus register store and W5500 Modbus TCP port

A Dafny model of two parts of an STM32 Modbus slave built on FreeModbus:

- **The register store** (`function/user_mb_app.c`). It holds four static arrays: discrete inputs and coils packed
  eight to a byte, and input and holding registers as SHORTs. On them run the four FreeModbus register callbacks
  (`eMBRegDiscreteCB`, `eMBRegCoilsCB`, `eMBRegInputCB`, `eMBRegHoldingCB`) and the application's own entry points
  `bModbus_ReadRegs` and `bModbus_WriteRegs`.
- **The Modbus TCP port on the W5500 Ethernet chip** (`function/porttcp.c`). This covers the socket descriptor
  `hW5500MBTCP` and its two 256-byte buffers. It also covers initialisation, the hand-over of a request to the
  protocol engine and of its response back, and the server poll that follows the socket status.

Layout:

- `bits.dfy` (module `Bits`): bytes as LSB-first bit strings. `xMBUtilGetBits` and `xMBUtilSetBits` are given by
  what they do to those bits. The UCHAR shifts that mask the last byte of a bit read are proved to keep exactly
  the low bits.
- `words.dfy` (module `Words`): C integer conversions and the big-endian byte pair of a register on the wire.
  - `ToShort`, `ToByte` and `ToUShort` are wrap-around casts.
  - `CRem8` is C's truncating `% 8`.
  - `Hi`, `Lo` and `Join` split a register into its two bytes and put it back together.
  - `Wire` and `Unwire` are the register sequence as bytes and back.
  - `Decrement` is USHORT `--`.
- `packed.dfy` (module `Packed`): the group-of-eight bit read and write of the callbacks, and the read they
  evidently intend.
- `store_map.dfy` (module `StoreMap`): how an (address, count) request is range-checked and mapped to an array
  index. It also holds what that mapping does under the shipped constants.
- `register_store.dfy` (module `RegisterStore`): the class `Store` with the four arrays, the callbacks and the
  application API as methods on arrays, and the loop methods they use.
- `protocol.dfy` (module `Protocol`): the single-event queue and transport mode of the FreeModbus engine, as far
  as the TCP port uses them.
- `tcp_port.dfy` (module `PortTcp`): the class `TcpSocket`.
  - Each method is proved equal to a function on a snapshot of the whole state (`PortView`).
  - The chip is seen through what one poll reads from it (`Chip`), and every command given to it is appended to
    an effect log (`Trace`).
  - One run of `eMBPoll` is an abstract `Step`: the event it leaves queued and the response it hands over.
- `tcp_props.dfy` (module `TcpProps`): what initialisation, serving a request, the status switch and the whole
  poll promise, proved on those functions.
- `seqs.dfy` and `options.dfy`: reading and replacing a run of a sequence, and `Option`.

A zero-width final bit write is skipped: the code guards it with `n % 8 != 0` (user_mb_app.c:144, :531, :555), and
the model follows the code.

## Model

| member | source | states |
|---|---|---|
| Bits.GetBits | function/user_mb_app.c:77 | bit j of the result is bit o + j of the packed store for j < n and clear for the other bits |
| Bits.SetBits | function/user_mb_app.c:138 | a set keeps the store's length; what it does to each bit is stated by Bits.SetBitsBit and Bits.SetBitsFrame |
| Bits.SetBitsBit | function/user_mb_app.c:138 | after a set, each bit inside the run o .. o+n-1 holds the matching bit of the value, and each bit outside it is unchanged |
| Bits.SetBitsFrame | function/user_mb_app.c:138 | a byte that holds none of the replaced bits is left as it was |
| Bits.SetBitsInPlace | function/user_mb_app.c:146 | writing in place on the array leaves exactly the contents the set describes |
| Bits.ShiftLeft8 | function/user_mb_app.c:84 | no contract of its own; its meaning is stated by Bits.ShiftLeftBit |
| Bits.ShiftRight | function/user_mb_app.c:85 | no contract of its own; its meaning is stated by Bits.ShiftRightBit |
| Bits.MaskHigh | function/user_mb_app.c:84-85 | no contract of its own; its meaning is stated by Bits.KeepLow |
| Bits.ShiftLeftBit | function/user_mb_app.c:84 | the UCHAR left shift moves every bit up by s and drops what passes bit 7 |
| Bits.ShiftRightBit | function/user_mb_app.c:85 | the right shift moves every bit down by s and clears the top s bits |
| Bits.KeepLow | function/user_mb_app.c:82-85 | the two shifts keep the low r bits of the last byte and clear the rest |
| Bits.ByteOf | function/user_mb_app.c:77 | the byte built from eight bits has exactly those bits |
| Bits.SameByte | function/user_mb_app.c:138 | two bytes with the same eight bits are equal |
| Bits.FromBits | function/user_mb_app.c:77 | a number built from k bits is below 2^k |
| Bits.BitFromBits | function/user_mb_app.c:77 | bit j of the number built from a bit list is element j of the list, and clear past the list |
| Words.ToShort | function/user_mb_app.c:228 | the SHORT cast keeps the value modulo 65536 |
| Words.ToByte | function/user_mb_app.c:527 | the UCHAR cast keeps the value modulo 256 |
| Words.ToUShort | function/user_mb_app.c:72 | the USHORT cast keeps the value modulo 65536 |
| Words.CRem8 | function/user_mb_app.c:442 | C's `% 8` truncates toward zero: equal to the Euclidean remainder for a non-negative operand, never positive for a negative one, and always congruent modulo 8 |
| Words.Hi | function/user_mb_app.c:178 | no contract of its own; with Lo it is inverted by Join, as Words.JoinSplit and Words.SplitJoin state |
| Words.Lo | function/user_mb_app.c:179 | no contract of its own; see Words.JoinSplit and Words.SplitJoin |
| Words.Join | function/user_mb_app.c:228-229 | no contract of its own; it inverts Hi and Lo, as Words.JoinSplit and Words.SplitJoin state |
| Words.Wire | function/user_mb_app.c:176-182 | n registers go out as 2n bytes; byte by byte as Words.WireAt states, inverted by Unwire (Words.UnwireWire) |
| Words.Unwire | function/user_mb_app.c:226-232 | 2n received bytes give n registers; register by register as Words.UnwireAt states, inverted by Wire (Words.WireUnwire) |
| Words.JoinSplit | function/user_mb_app.c:217-229 | putting back together the two bytes a register is sent as gives the register back |
| Words.SplitJoin | function/user_mb_app.c:217-229 | splitting a register put together from two bytes gives those bytes back |
| Words.WireAt | function/user_mb_app.c:176-182 | register k goes out as bytes 2k (high) and 2k+1 (low) |
| Words.UnwireAt | function/user_mb_app.c:226-232 | register k is put together from received bytes 2k and 2k+1 |
| Words.UnwireWire | function/user_mb_app.c:215-232 | decoding the bytes of a register sequence gives that sequence back |
| Words.WireUnwire | function/user_mb_app.c:215-232 | encoding the registers decoded from an even-length byte string gives the string back |
| Words.Decrement | function/user_mb_app.c:68 | USHORT `--` steps a non-zero address down by one and wraps 0 to 65535 |
| Seqs.Window | function/user_mb_app.c:176-182 | the n elements from idx on, element by element; empty for n = 0 wherever it starts |
| Seqs.Splice | function/user_mb_app.c:226-232 | replacing a run keeps the length; element by element as Seqs.SpliceAt states |
| Seqs.SpliceAt | function/user_mb_app.c:226-232 | after a splice, each element inside the run comes from w and each element outside is unchanged |
| Seqs.SpliceRead | function/user_mb_app.c:214-233 | reading back the spliced run gives w |
| Packed.Groups | function/user_mb_app.c:75-79 | a bit read copies count groups, group j being the eight bits from pos + 8j |
| Packed.PackedRead | function/user_mb_app.c:65-85 | no contract of its own; its meaning is stated by Packed.PackedReadByte and Packed.PackedReadBits |
| Packed.PackedReadByte | function/user_mb_app.c:65-85 | bit i of returned byte j is the store's bit pos + 8j + i when that bit was asked for, and clear otherwise |
| Packed.PackedReadBits | function/user_mb_app.c:65-85 | a bit read returns n/8 + 1 bytes; bit k of them is store bit pos + k for k < n and clear after that |
| Packed.WriteGroups | function/user_mb_app.c:136-140 | writing whole groups keeps the store's length |
| Packed.PackedWrite | function/user_mb_app.c:136-147 | a bit write keeps the store's length |
| Packed.WriteGroupsBit | function/user_mb_app.c:136-140 | after g whole groups, bits pos .. pos+8g-1 come from the source and every other bit is unchanged |
| Packed.PackedWriteBit | function/user_mb_app.c:136-147 | after a write of n bits, bit k comes from the source inside pos .. pos+n-1 and is unchanged outside |
| Packed.PackedWriteBits | function/user_mb_app.c:136-147 | the same for every bit of the store at once |
| Packed.PackedWriteThenRead | function/user_mb_app.c:120-147 | a coil read of the range just written returns the written bits, with the remaining high bits clear |
| Packed.IntendedRead | function/user_mb_app.c:65-85 | the corrected read returns (n + 7) / 8 bytes, so it reads nothing past the requested bits |
| Packed.CeilGroups | function/user_mb_app.c:65 | group j holds some requested bit exactly when j < (n + 7) / 8 |
| Packed.IntendedReadBit | function/user_mb_app.c:65-85 | bit 8j + i of the corrected read is the requested store bit, and clear past n |
| Packed.IntendedReadBits | function/user_mb_app.c:65-85 | the corrected read holds exactly bits pos .. pos+n-1 and clear bits after them, in fewer than n + 8 bits |
| StoreMap.InSpace | function/user_mb_app.c:70 | no contract of its own: the range check `a >= START && a + n <= START + QTY`, used by the predicates below |
| StoreMap.CallbackAccepts | function/user_mb_app.c:68-70 | no contract of its own: the callbacks' check on the decremented address (also :111-113, :171-173, :206-208); see StoreMap.ZeroCountAtEndAccepted and StoreMap.ShippedHoldingOverrun |
| StoreMap.AppAccepts | function/user_mb_app.c:429-582 | no contract of its own: the API's check per kind, with HOLDING_REG against the input bounds; see StoreMap.HoldingCheckUsesInputBounds |
| StoreMap.IntendedAppAccepts | function/user_mb_app.c:487 | no contract of its own: the check against each kind's own bounds; see StoreMap.HoldingCheckRejectsValid and StoreMap.ShippedChecksAgree |
| StoreMap.PackedBytes | function/user_mb_app.c:27-38 | a packed array for qty bits has room for qty bits and wastes fewer than eight |
| StoreMap.Offset | function/user_mb_app.c:72 | the array index is address minus base, wrapped modulo 65536 when the address is below the base |
| StoreMap.ShippedBitReadOverruns | function/user_mb_app.c:65-77 | with the shipped constants, every coil request a callback accepts reads more groups than the one-byte array holds |
| StoreMap.ShippedAppBitReadOverruns | function/user_mb_app.c:429-438 | the same holds for every accepted bit read of the application API |
| StoreMap.ShippedHoldingOverrun | function/user_mb_app.c:206-210 | holding address 2049, count 1 is accepted and maps to index 2048 of a 2048-register array |
| StoreMap.WordOverrunExactly | function/user_mb_app.c:208-210 | with base 0 and START 1, an accepted register request fits exactly when it covers no register or stops short of the last address |
| StoreMap.ZeroCountAtEndAccepted | function/user_mb_app.c:206-215 | a zero-count request at the end of a space is accepted and fits, since it touches no element: holding address 2050, coil write at address 10 |
| StoreMap.CorrectedBaseFits | function/user_mb_app.c:206-210 | with the index base set to START, every request a callback accepts fits its array: the registers of a register request, and the bits of a bit write (a bit read as written still overreads, see CorrectedBaseStillOverreads) |
| StoreMap.CorrectedAppBaseFits | function/user_mb_app.c:471-474 | the same for the application API |
| StoreMap.CorrectedBaseStillOverreads | function/user_mb_app.c:65-77 | even with the corrected base, a read of all eight coils needs a second byte |
| StoreMap.CorrectedBitRead | function/user_mb_app.c:65-85 | the corrected base and the corrected read return exactly the requested bits of any request a callback accepts |
| StoreMap.HoldingCheckUsesInputBounds | function/user_mb_app.c:487 | the API's holding check accepts exactly what the input space accepts, and agrees with the holding space only when the two spaces coincide |
| StoreMap.HoldingCheckRejectsValid | function/user_mb_app.c:582 | with 4 input and 8 holding registers, holding address 5 is inside the holding space but is rejected |
| StoreMap.ShippedChecksAgree | header/user_mb_app.h:29-34 | with the shipped constants, the as-written and the intended checks agree on every request |
| RegisterStore.ToBytes | function/user_mb_app.c:527 | each SHORT passed as a bit value becomes its low byte |
| RegisterStore.AppBitRead | function/user_mb_app.c:431-443 | no contract of its own; its meaning is stated by RegisterStore.AppBitReadShape and RegisterStore.AppBitReadLastIgnoresStore |
| RegisterStore.AppBitReadShape | function/user_mb_app.c:431-443 | an API bit read returns n/8 + 1 elements: the first n/8 are the groups of eight bits from pos, and for n below 32768 the last is n % 8 |
| RegisterStore.AppBitReadLastIgnoresStore | function/user_mb_app.c:442 | the last element of an API bit read is the same whatever the store holds |
| RegisterStore.IntendedAppBitRead | function/user_mb_app.c:431-443 | the corrected API bit read returns n/8 + 1 elements, each a byte value |
| RegisterStore.IntendedAppBitReadBit | function/user_mb_app.c:431-443 | bit i of element j of the corrected read is the requested store bit, and clear past n |
| RegisterStore.HoldingWriteThenRead | function/user_mb_app.c:214-233 | reading back a holding range just written returns the written bytes |
| RegisterStore.AppWriteThenCallbackRead | function/user_mb_app.c:582-590 | registers the API writes at address a are the ones a protocol request for a + 1 reads back, when the input and holding spaces coincide |
| RegisterStore.CopyGroups | function/user_mb_app.c:75-85 | the caller's buffer starts with the packed read and the rest of it is unchanged |
| RegisterStore.CopyGroupsAsShorts | function/user_mb_app.c:435-442 | the API buffer starts with the API bit read and the rest of it is unchanged |
| RegisterStore.WriteGroupsIn | function/user_mb_app.c:136-147 | the array afterwards is the packed write of the buffer |
| RegisterStore.SendWords | function/user_mb_app.c:176-182 | the buffer starts with the registers idx .. idx+n-1, high byte first, and the rest is unchanged |
| RegisterStore.ReceiveWords | function/user_mb_app.c:226-232 | registers idx .. idx+n-1 become the registers decoded from the first 2n bytes, and the others are unchanged |
| RegisterStore.CopyWords | function/user_mb_app.c:476-479 | the API buffer starts with registers idx .. idx+n-1 and the rest is unchanged |
| RegisterStore.StoreWords | function/user_mb_app.c:571-574 | registers idx .. idx+n-1 become the first n values of the API buffer, and the others are unchanged |
| RegisterStore.Store.constructor | function/user_mb_app.c:25-44 | the arrays are sized from the configuration and cleared, and every index base is 0 |
| RegisterStore.Store.DiscreteCB | function/user_mb_app.c:60-93 | NoErr exactly when the decremented address range is inside the space, and then the buffer starts with the packed read; NoReg otherwise, with the buffer untouched |
| RegisterStore.Store.CoilsCB | function/user_mb_app.c:103-156 | the same range check; a read fills the buffer with the packed read, and a write stores the packed write of the buffer into the coils; a rejected request changes nothing |
| RegisterStore.Store.InputCB | function/user_mb_app.c:165-190 | the same range check; on success the buffer starts with the requested registers, high byte first |
| RegisterStore.Store.HoldingCB | function/user_mb_app.c:200-241 | the same range check; a read sends the registers high byte first, and a write stores the registers decoded from the buffer; a rejected request changes nothing |
| RegisterStore.Store.ReadRegs | function/user_mb_app.c:424-504 | true exactly when the as-written check accepts (holding checked against the input space); then the buffer holds the API bit read or the requested registers; false leaves the buffer untouched |
| RegisterStore.Store.WriteRegs | function/user_mb_app.c:514-599 | true exactly when the as-written check accepts; then only the array of that kind changes: the packed write of the low bytes, or the registers spliced in; false changes nothing |
| Protocol.Engine.EventGet | function/porttcp.c:155-156 | reports whether an event was queued, takes it and empties the queue; without one the caller's variable keeps its prior value |
| Protocol.Engine.EventPost | function/porttcp.c:159 | the posted event replaces whatever was queued |
| Protocol.Engine.SwitchMode | function/porttcp.c:158 | the engine's transport becomes the one given |
| PortTcp.ResetSpec | function/porttcp.c:36-49 | the reset keeps both buffers at 256 bytes with the response size inside them |
| PortTcp.InitSpec | function/porttcp.c:30-80 | initialisation keeps both buffers at 256 bytes with the response size inside them (its outcome: TcpProps.InitOutcome) |
| PortTcp.WithInit | function/porttcp.c:34-77 | no contract of its own: the chip commands of one initialisation in source order, stated as part of TcpProps.InitOutcome |
| PortTcp.SendResponseSpec | function/porttcp.c:106-113 | the hand-over keeps the buffer sizes (its outcome: TcpProps.ResponseAtFront) |
| PortTcp.ReceiveSpec | function/porttcp.c:157 | receiving keeps the buffer sizes (its outcome: TcpProps.RequestAtFront) |
| PortTcp.EnginePollSpec | function/porttcp.c:160 | a run of the engine keeps the buffer sizes |
| PortTcp.TakeSpec | function/porttcp.c:155-159 | taking a request keeps the buffer sizes |
| PortTcp.FlushSpec | function/porttcp.c:162-167 | sending the response keeps the buffer sizes |
| PortTcp.ServeSpec | function/porttcp.c:152-170 | serving a request keeps the buffer sizes (its outcome: TcpProps.ServeCommands and TcpProps.ServeState) |
| PortTcp.Restored | function/porttcp.c:169 | no contract of its own; TcpProps.RestoreAsWritten states when it differs from the queue as found |
| PortTcp.LinkSpec | function/porttcp.c:126-134 | no contract of its own; its outcome is stated by TcpProps.PrepareOutcome |
| PortTcp.OpenSpec | function/porttcp.c:149-151 | no contract of its own; its outcome is stated by TcpProps.EstablishedOutcome |
| PortTcp.KeepAliveSpec | function/porttcp.c:172 | no contract of its own; TcpProps.EstablishedOutcome states that the keep-alive is the last command |
| PortTcp.EstablishedSpec | function/porttcp.c:148-173 | the established case keeps the buffer sizes (its outcome: TcpProps.EstablishedOutcome) |
| PortTcp.DispatchSpec | function/porttcp.c:137-179 | the status switch keeps the buffer sizes (its outcome: TcpProps.DispatchOutcome) |
| PortTcp.PrepareSpec | function/porttcp.c:117-135 | the start of the poll keeps the buffer sizes (its outcome: TcpProps.PrepareOutcome) |
| PortTcp.PollSpec | function/porttcp.c:115-180 | a poll keeps the buffer sizes (its outcome: TcpProps.PollOutcome) |
| PortTcp.TcpSocket.constructor | function/porttcp.c:11-18 | the descriptor starts with no chip selected, the socket closed, all six flags false, sizes zero, both buffers at 256 bytes and an empty command log |
| PortTcp.TcpSocket.SetDefaults | function/porttcp.c:36-38 | selects the chip and sets the default configuration and port 502; nothing else changes |
| PortTcp.TcpSocket.ClearConnection | function/porttcp.c:39-41 | link down, socket closed, not connected; nothing else changes |
| PortTcp.TcpSocket.ClearTransfer | function/porttcp.c:42-45 | the four transfer flags are cleared; nothing else changes |
| PortTcp.TcpSocket.Reset | function/porttcp.c:36-49 | the new state is the reset of the old one |
| PortTcp.TcpSocket.Init | function/porttcp.c:30-80 | the new state and the error code are those of InitSpec for the configuration read back |
| PortTcp.TcpSocket.GetRequest | function/porttcp.c:97-104 | returns the request buffer itself and the count last received, always succeeding |
| PortTcp.TcpSocket.SendResponse | function/porttcp.c:106-113 | the new state is SendResponseSpec of the first len bytes of the frame, and it reports success |
| PortTcp.TcpSocket.Receive | function/porttcp.c:157 | the new state is ReceiveSpec of the waiting bytes |
| PortTcp.TcpSocket.RunEngine | function/porttcp.c:160 | the new state is EnginePollSpec of the step |
| PortTcp.TcpSocket.TakeRequest | function/porttcp.c:155-159 | the new state is TakeSpec, and the saved event is the queued one, or the uninitialised variable if none was queued |
| PortTcp.TcpSocket.Flush | function/porttcp.c:162-167 | the new state is FlushSpec |
| PortTcp.TcpSocket.Requeue | function/porttcp.c:168-169 | the engine is back in RTU mode with the saved event queued; nothing else changes |
| PortTcp.TcpSocket.Serve | function/porttcp.c:152-170 | the new state is ServeSpec |
| PortTcp.TcpSocket.CheckLink | function/porttcp.c:126-134 | the new state is LinkSpec of the link bit |
| PortTcp.TcpSocket.Open | function/porttcp.c:149-151 | connected, with the waiting count recorded; nothing else changes |
| PortTcp.TcpSocket.SetKeepAlive | function/porttcp.c:172 | the keep-alive command is logged; nothing else changes |
| PortTcp.TcpSocket.Established | function/porttcp.c:148-173 | the new state is EstablishedSpec |
| PortTcp.TcpSocket.Dispatch | function/porttcp.c:137-179 | the new state is DispatchSpec |
| PortTcp.TcpSocket.Prepare | function/porttcp.c:117-135 | the new state is PrepareSpec |
| PortTcp.TcpSocket.Poll | function/porttcp.c:115-180 | the new state is PollSpec |
| TcpProps.InitOutcome | function/porttcp.c:30-80 | initialisation fails, and leaves no chip selected, exactly when the configuration read back differs from the default; it resets every descriptor field, issues the fixed command sequence, and leaves the buffers and engine alone |
| TcpProps.ResponseAtFront | function/porttcp.c:106-113 | the response is at the front of the response buffer, the rest is unchanged, and it is marked for sending |
| TcpProps.RequestAtFront | function/porttcp.c:157 | the received bytes are at the front of the request buffer and the rest is unchanged |
| TcpProps.ServeCommands | function/porttcp.c:152-170 | serving receives the request, runs the engine once in TCP mode with a frame-received event, and sends a response exactly when one is pending, leaving none pending |
| TcpProps.ServeState | function/porttcp.c:152-170 | after serving, the engine is in RTU mode with the saved event re-queued, the request is at the front of the buffer, and the connection fields are unchanged |
| TcpProps.RestoreAsWritten | function/porttcp.c:155-169 | the re-queued event equals the one queued before exactly when there was one; otherwise it is the uninitialised variable |
| TcpProps.IntendedServeSpec | function/porttcp.c:152-170 | serving with the queue restored as found keeps the buffer sizes |
| TcpProps.IntendedServeKeepsQueue | function/porttcp.c:155-169 | the intended serve leaves the queue as found; the as-written serve equals it exactly when an event was queued |
| TcpProps.EstablishedOutcome | function/porttcp.c:148-173 | an established socket is connected, records the waiting count, serves exactly those bytes when there are any, and ends with the keep-alive |
| TcpProps.DispatchOutcome | function/porttcp.c:137-179 | after the switch the socket is connected exactly when it is established, or it was connected and is not closed; the engine and buffers change only for an established socket with bytes waiting |
| TcpProps.DispatchCommands | function/porttcp.c:139-178 | closed: open the socket on the port; init: listen; close-wait: disconnect; listen or any other status: nothing |
| TcpProps.PrepareOutcome | function/porttcp.c:117-135 | the poll initialises exactly when no chip is selected, then selects the chip, records the link bit and status, and releases a connected socket when the link is down |
| TcpProps.PollOutcome | function/porttcp.c:115-180 | a selected chip is never re-initialised; a failed initialisation leaves it unselected so the next poll retries; connected afterwards exactly when established, or connected before with the link up and not closed |

## Left out

- `function/portserial.c` and `function/porttimer.c` (the RTU serial port and its timer) are not part of this model.
- `bModbus_Init`, the slave address, baud rate and parity setters and getters, and `vModbus_SetTcpNetCfg`
  (function/user_mb_app.c:250-414) are left out. They only reconfigure FreeModbus and the UART HAL, whose code is
  not part of this model.
- `xMBTCPPortInit`, `vMBTCPPortClose` and `vMBTCPPortDisable` (function/porttcp.c:82-95) are left out: they do
  nothing.
- The W5500 driver (SPI transfers, socket registers, `ctlwizchip`, `ctlnetwork`, `sendto`, `recv`, `send`) is
  represented by the per-poll inputs of `Chip` and by the commands logged in `Trace`. Its internal behaviour is not
  modelled.
- Protocol.Engine: `eMBPoll` (frame decoding, function codes, the callbacks it invokes) is the abstract `Step`.
  The port's event queue is reduced to one optional event.
- Bits.GetBits and Bits.SetBits specify `xMBUtilGetBits` and `xMBUtilSetBits` per bit. Their FreeModbus
  implementation is not part of this model.
- Interrupts and concurrency: the poll and the RTU side sharing the engine's queue are not modelled.
- PortTcp.TcpSocket.Poll models the poll called with `hW5500MBTCP` itself. The case of a different descriptor,
  where initialisation writes the global one, is not modelled.
- PortTcp.TcpSocket.Poll requires at most 256 waiting bytes and a response of at most 256 bytes. The source has no
  such bound at function/porttcp.c:151, :157 and :109, and larger values would overrun the buffers.
- PortTcp.TcpSocket.SendResponse requires `len` to be within the frame and the buffer, which memcpy at
  function/porttcp.c:109 assumes without checking.
- RegisterStore.Store.DiscreteCB, CoilsCB, InputCB, HoldingCB, ReadRegs and WriteRegs require an accepted request to
  stay inside its array and the caller's buffer (the `*Safe` predicates). The source does not ensure this; StoreMap
  shows which accepted requests break it. A request of zero registers and a zero-count bit write touch nothing and
  are always admitted. A zero-count bit read still reads one group of eight bits, so it must fit like any other.
- PortTcp.SockStatus: socket status codes other than the five the switch names are one constructor,
  `SockOther`.
- PortTcp.TcpSocket.constructor starts from the zero-initialised static descriptor (`eSpiPort` equal to
  `W5500SPI_NONE`). The pointers to the two buffers are fixed references rather than fields set by initialisation.
- PortTcp.TcpSocket.SendResponse takes the frame as a value; aliasing between it and the response buffer is not
  modelled.
- The uninitialised `eQueuedEventToStore` (function/porttcp.c:155) is the parameter `junk`. Its actual
  indeterminate value is not modelled.

## Findings

| source | as written | input that shows it | evidently intended | confidence | as-written member | corrected member |
|---|---|---|---|---|---|---|
| function/user_mb_app.c:26-44, :206-210 | the index bases `usReg*Start` are never assigned, so the index is the decremented address itself, one past the START-relative index | holding request at address 2049, count 1: accepted, writes index 2048 of a 2048-register array | index = address minus START | not executed | StoreMap.ShippedHoldingOverrun | StoreMap.CorrectedBaseFits |
| function/user_mb_app.c:65-77 | a bit read copies n/8 + 1 groups of eight bits, one more than needed whenever n % 8 == 0 and past the array's end | read of all 8 coils (address 2): needs 2 bytes of a 1-byte array, even with the corrected base | (n + 7) / 8 groups, the last holding only the remaining bits | not executed | StoreMap.CorrectedBaseStillOverreads | StoreMap.CorrectedBitRead |
| function/user_mb_app.c:487, :582 | the HOLDING_REG case of the API checks the INPUT_REG bounds | build with 4 input and 8 holding registers: holding address 5 is rejected | check against HOLDING_REG_START and HOLDING_REG_QTY | not executed | StoreMap.HoldingCheckRejectsValid | StoreMap.CorrectedAppBaseFits |
| function/user_mb_app.c:442, :463 | the last element of an API bit read is overwritten with `(SHORT)n % 8` instead of masked | any store, n = 3: the last element is 3 whatever the three bits are | keep only the low n % 8 bits of the last group | not executed | RegisterStore.AppBitReadLastIgnoresStore | RegisterStore.IntendedAppBitReadBit |
| function/porttcp.c:155-169 | when no event is queued, `xMBPortEventGet` leaves `eQueuedEventToStore` uninitialised and it is posted anyway | request served while the queue is empty: the queue afterwards holds an indeterminate event | leave the queue as it was found | not executed | TcpProps.RestoreAsWritten | TcpProps.IntendedServeKeepsQueue |
