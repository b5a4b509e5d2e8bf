# Serial-to-Ethernet bridge: verified model

The firmware joins sixteen UARTs, reached over an FSMC bus, to one UDP peer. Frames from the peer
carry data for a UART; bytes that arrive on a UART leave as report frames. Around this stand a
configuration kept in flash, a 5 ms timer, a serial console, and a main loop fed by a message ring.
This project models that application code and proves what it guarantees.

## What is modelled

- `Bytes`, `Ring`: bytes and their sum modulo 256; circular buffers.
- `FrameStream`: the frame format twice. `Feed` is a receiver that takes one byte at a time; `Parse` is a
  recursive description of a whole stream. `StreamTheorems` says what the format guarantees.
- `UartFsmc`, `Delivery`, `PeerFrames`, `Report`, `ProtocolLayer`: the UART device and the routines on it, what
  accepted frames write to the bus, the frames the peer builds, the layout of report frames, and the class
  `Layer` with the six-step receiver, the dispatch and the report builder.
- `Flash`, `Config`: sectored flash whose erase sets ones and whose program only clears bits, the
  erase-then-program routine, and the configuration record with its packed layout and its start-up logic.
- `MsgInterface`, `Console`, `Timer`, `UdpInterface`: the message ring, the line receiver with its
  command ring, the tick schedule, and the UDP callback.
- `EventLoop`, `DeviceTheorems`, `DeviceLimits`, `Firmware`: the whole device as a state machine, invariants
  of every run from boot on, the limits of console and link messages, and the class `Board`, whose interrupt
  handlers and main loop are written as in the source and proved to follow the state machine. The main loop
  advances piece by piece: taking a message is a step, and so is each thing its handler does (fetching a
  command, polling one channel, looking at the link, publishing, one bus write); interrupts may come between
  any two of them, and a run may end there.

Code that updates state in place is a class whose methods are proved against specification functions;
the main results are lemmas about these functions over all streams, runs and outcomes.

Where the code fails a reasonable expectation, the exact condition is proved instead:

- A header with declared length 0 makes the receiver swallow everything after it, because `udp_len-1`
  wraps to 0xFFFFFFFF in an unsigned comparison. A store outside the 1024-byte buffer happens exactly
  when 1023 bytes follow such a header of the stream (`StreamTheorems.OverrunExactly`, with a witness). The
  state `Overrun` and the flag `overrun` only record that it happened: the C behaviour is undefined from
  there on, so nothing is claimed past it. Results about data on its way through the device are stated for
  runs whose stream is in bounds.
- The UDP callback calls its handler inside the segment loop and not at all once 2048 bytes are reached, so
  a datagram is delivered once and whole exactly when it is a single segment below 2048 bytes. A pool buffer
  of this lwIP configuration holds 512 bytes, so a longer datagram arrives in several segments; for one frame
  in two segments the exact condition under which it is accepted is proved.
- A write to an address range that reaches behind the flash, into memory that can be read and is not blank,
  erases the last sector, which holds the configuration, again and again without end. The callers in this
  repository all pass the last sector itself.
- A configuration write that stops after the two mark bytes is taken for a complete one at the next boot,
  and a failed erase may leave anything in the store, whatever was in it.
- A console command whose message is refused stays in the queue without a message. No command is ever
  announced again exactly when eight commands wait of which no message is left, or the line receiver is
  latched, which a line that ends with eight commands waiting does for good.
- The link counts as lost before its loss is published. A loss is never announced while the link stays
  down exactly when the ring is full at the moment of publishing, and such a run exists.

Where code and documentation differ, the model follows the code: `USER/protocol.h` lists code 0xA3
(set config), which `handleProtocol` does not dispatch, and gives 1-255 as range of `num`, where the code
also accepts 0.

Assumptions. Interrupt handlers, ring operations, single polls and single bus writes are atomic; the code does
not mask interrupts inside them. Theorems on ring, console and timer take their memory as not damaged by an
overrun of the receive buffer. The pending-bytes register of a UART is 8 bits wide and reads 255 when more are
waiting; its sent counter wraps at 256. The receive queues of the UARTs are unbounded: bytes that a UART drops
because it is not polled in time never arrive in the model. What the UARTs hold after the reset that code 0xA2
asks for is not known; it is an input, any content of all sixteen queues. A completed erase leaves ones in the
whole sector; a failed flash operation may leave anything in the sector or cell it worked on. What a read
outside the flash meets, no memory or some byte, is an input that does not change during a write. Link state,
heap success, arriving bytes and flash outcomes are inputs.

## Model

| member | source | states |
|---|---|---|
| FrameStream.FeedIsParse | USER/protocol_layer.c:105-172 | On every byte stream the step-by-step receiver accepts the same frames and ends in the same state as the recursive description of the stream, zero lengths and overruns included. |
| FrameStream.ChunkingInvariance | USER/protocol_layer.c:9-12 | Because the receiver's state outlives a call, the result does not depend on how a stream is cut into calls. |
| FrameStream.FeedZeroLength | USER/protocol_layer.c:146-158 | After a declared length of 0 every byte is swallowed until the buffer is full, and the next one overruns it. |
| StreamTheorems.StreamRoundTrip | USER/protocol_layer.c:105-172 | Any list of well-formed frames between gaps that hold no header is accepted exactly, in order, byte for byte, even when frames contain `aa aa`. |
| StreamTheorems.ChunkedRoundTrip | USER/protocol_layer.c:105-172 | The same for any division of the transmission into calls. |
| StreamTheorems.AcceptedFramesWereSent | USER/protocol_layer.c:159-169 | Every accepted frame of any stream is well formed and stands in it behind its own header, in order and without overlap. |
| StreamTheorems.BodySource | USER/protocol_layer.c:117-158 | While a body is received the receiver holds exactly the bytes since the last `aa aa`. |
| StreamTheorems.BodyHistory | USER/protocol_layer.c:127-158 | j bytes earlier it held the same bytes without the last j. |
| StreamTheorems.OverrunExactly | USER/protocol_layer.c:146-158 | A store outside the buffer happens if and only if some header that the description of the stream reaches declares length 0 and at least 1023 bytes follow it. |
| StreamTheorems.OverrunWitness | USER/protocol_layer.c:146-158 | Every header with length 0 and 1023 more bytes is such a stream. |
| StreamTheorems.StuckUntilOverrun | USER/protocol_layer.c:146-158 | With a zero length pending every byte is swallowed and nothing accepted, up to the byte that leaves the buffer. |
| StreamTheorems.Resynchronisation | USER/protocol_layer.c:111-170 | From any state with memory intact, 1023 bytes other than 00 and aa lead back to hunting with at most one frame accepted on the way, unless a zero length is pending; then they lead out of the buffer. |
| StreamTheorems.FrameAfterFiller | USER/protocol_layer.c:111-170 | Unless a zero length is pending, any well-formed frame after such filler is accepted, and is the last one. |
| StreamTheorems.ResynchronisationBoundTight | USER/protocol_layer.c:139-158 | 1022 bytes are not enough. |
| StreamTheorems.DamagedFrame | USER/protocol_layer.c:159-169 | Damage behind the length field never disturbs later frames, and is accepted exactly when the sum is still zero. |
| StreamTheorems.SingleByteCorruption | USER/protocol.h:11-13 | One changed byte behind the length field: the frame is never accepted, and what follows is read as if it had not been sent. |
| StreamTheorems.RestartedFrame | USER/protocol_layer.c:105-172 | Two or more bytes of a frame, then the frame again with its header: it is accepted if and only if from the cut on it repeats its own wire form. |
| StreamTheorems.RestartedHeader | USER/protocol_layer.c:105-172 | One to three bytes of a frame's wire form before the frame make the receiver miss it. |
| ProtocolLayer.Layer.Unpacking | USER/protocol_layer.c:105-172 | The C-shaped loop over `step`, `udp_len`, `index_buff` and the buffer moves the receiver and the bus exactly as `Feed` and the accepted frames say, for any previous buffer content. |
| ProtocolLayer.Layer.OnContentByte | USER/protocol_layer.c:146-158 | The content step agrees with the receiver, lengths 0 to 3 and the wrapped comparison included. |
| ProtocolLayer.Layer.OnCheckByte | USER/protocol_layer.c:159-170 | The completed frame is dispatched exactly when its byte sum is zero modulo 256. |
| ProtocolLayer.Layer.HandleProtocol | USER/protocol_layer.c:92-102 | A dispatch appends to the bus log exactly what the frame's own bytes ask for, with the numbers written out: code 0xA1 its data at 0x2004 + 0x100 times the channel, code 0xA2 the reset 0, 1 at address 0, any other code nothing; older frames in the buffer do not matter. |
| ProtocolLayer.Layer.SendUart | USER/protocol_layer.c:34-40 | Data goes out only for channels 0 to 15 and if count and check byte fit into the declared length, and then exactly `data[0..num)`, to 0x2004 + 0x100 times the channel. |
| ProtocolLayer.Layer.CheckUartFsmc | USER/protocol_layer.c:43-62 | A poll sends one report that depends only on channel and received bytes, takes exactly these bytes from the UART, keeps the buffer header, and sends nothing for no bytes. |
| ProtocolLayer.Layer.BuildReport | USER/protocol_layer.c:49-57 | Count, length and check byte are filled in inside the 264-byte buffer, whatever it held behind the data. |
| ProtocolLayer.Layer.constructor | USER/protocol_layer.c:18-31 | The layer starts hunting; the report buffer has its header, code, size and initial length field, or is absent. |
| Report.ReportWellFormed | USER/protocol.h:5-13 | A report has length field size+7, a zero byte sum, and fits the buffer with its header. |
| Report.ReportRoundTrip | USER/protocol_layer.c:46-57 | A peer running the same receiver accepts exactly this frame, and reads channel and data back from it. |
| Report.ReportBytes | USER/protocol_layer.c:43-57 | The bytes of a report datagram: aa aa, length, b1 00, channel, count, the data, and a check byte that makes the sum zero. |
| Delivery.FrameDelivery | USER/protocol_layer.c:34-40 | The data register of a channel, 0x2004 + 0x100 times its number, gets from a frame with code 0xA1 for that channel exactly its data, and from any other frame nothing. |
| Delivery.DispatchExactly | USER/protocol_layer.c:92-102 | All writes of any frame of four or more bytes, in the numbers of protocol and bus. |
| Delivery.StreamDelivery | USER/protocol_layer.c:92-102 | A list of frames writes to each data register the payloads for that channel, joined in order. |
| Delivery.StreamResets | USER/protocol.h:15-19 | Accepted frames reset the UARTs if and only if one of them has code 0xA2. |
| Delivery.StreamReleases | HARDWARE/uart_fsmc.c:51-56 | Any list of accepted frames writes 0, 1 to address 0 once for each frame with code 0xA2, so the reset line ends released. |
| PeerFrames.DataFrameSends | USER/protocol.h:10-27 | A frame that the peer builds with code 0xA1, channel, count, up to 255 bytes and a check byte that makes the sum zero is accepted, and writes exactly its bytes to 0x2004 + 0x100 times the channel. |
| PeerFrames.DataFrameOnBus | USER/protocol_layer.c:92-172 | Fed to a hunting receiver, its wire form appends exactly these writes to the bus log. |
| PeerFrames.ResetFrameResets | USER/protocol.h:18-18 | The frame 05 00 a2 00 59 is accepted, and writes 0 and then 1 to address 0. |
| UartFsmc.DataWritesOfSend | HARDWARE/uart_fsmc.c:59-70 | Sending on one channel reaches the data register of that channel only. |
| UartFsmc.SendDataUartFsmc | HARDWARE/uart_fsmc.c:59-80 | All bytes are written in order, and the count computed from the wrapping counter is the number sent; a bad channel sends nothing. |
| UartFsmc.CounterGainIsSize | HARDWARE/uart_fsmc.c:71-77 | The 8-bit difference of the counter readings gives back every size from 0 to 255. |
| UartFsmc.ReceiveDataUartFsmc | HARDWARE/uart_fsmc.c:94-109 | The oldest pending bytes, at most `max`, move into the buffer, the rest stays queued, and no other buffer byte changes. |
| UartFsmc.ResetUartFsmc | HARDWARE/uart_fsmc.c:51-56 | The reset writes 0 and then 1 to address 0, and leaves in the receive queues what the UARTs keep, which may be anything. |
| Flash.GetFlashSector | HARDWARE/config.c:22-57 | The branch chain gives the sector that contains the address, for every flash address of the twelve unequal sectors. |
| Flash.AndWithOnes | HARDWARE/config.c:90-98 | Programming an erased cell stores the value exactly. |
| Flash.EraseDirtySectors | HARDWARE/config.c:76-89 | Inside the flash the erase loop ends, and erases exactly the sectors that hold a non-blank target byte or stops at the first such byte of a sector; behind the last sector it passes blank bytes, faults where there is no memory, and otherwise erases the last sector and never ends. |
| Flash.ProgramBytes | HARDWARE/config.c:91-98 | A program loop that stops at byte k has stored the first k bytes and touched no cell but the k-th besides. |
| Flash.WriteFlash | HARDWARE/config.c:63-102 | For every 32-bit address, length, outcome and content of the memory outside, the whole flash image afterwards: the buffer in its place, dirty sectors blank around it, everything else unchanged; a failed or endless erase programs nothing, and a wrapped range is empty. |
| Flash.EndlessRepeats | HARDWARE/config.c:54-89 | An endless erase loop has blanked the whole last sector, and another erase leads back to the same address, sector and image. |
| Flash.WriteLocality | HARDWARE/config.c:76-98 | Sectors the target does not meet never change, whatever fails; other bytes are unchanged or erased. |
| Config.DecodeEncode | HARDWARE/config.h:7-21 | Reading the packed bytes of a record gives the record back. |
| Config.EncodeDecode | HARDWARE/config.h:7-21 | Any 103 bytes are the packed form of the record read from them. |
| Config.Layout | HARDWARE/config.h:7-21 | The offset of every field in the packed bytes, ports lowest byte first. |
| Config.BaudRateLayout | HARDWARE/config.h:17-17 | Baud rate k lies at 22 + 4k, lowest byte first. |
| Config.ConfigStore.SetConfig | HARDWARE/config.c:205-213 | RAM holds the given record with the header aa aa and every other field as given, and the flash write has one of the outcomes its bytes allow. |
| Config.ConfigStore.DefaultConfig | HARDWARE/config.c:136-175 | RAM holds the default values of all ten fields, for all 16 channels, and the flash write has one of the outcomes its bytes allow. |
| Config.ConfigStore.PrepareConfig | HARDWARE/config.c:178-197 | A marked store is loaded byte for byte and not touched; otherwise the default is loaded and written. |
| Config.RunRefinesRegister | HARDWARE/config.c:136-213 | Over any run of completed operations the flash is a register of the last record written, RAM agrees with it, and the other eleven sectors never change. |
| Config.SetSurvivesReboots | HARDWARE/config.c:178-213 | After any history a record that was set is what every later boot has in RAM and flash, field by field, with the header aa aa. |
| Config.UnmarkedStoreBootsDefault | HARDWARE/config.c:136-193 | A store without the mark boots into the default values of all ten fields and writes them, and later boots reload them unchanged. |
| Config.FirstBootBytes | HARDWARE/config.c:136-175 | The 103 bytes such a boot leaves in the store. |
| Config.FirstBootPolls | USER/timer.c:45-69 | After such a boot a given phase is asked for once in 200 interrupts. |
| Config.BootAfterFailedProgram | HARDWARE/config.c:90-98 | After a write that stopped at byte k, exactly when the mark is taken for valid and which torn record is then loaded. |
| Config.EraseFailsAtFirst | HARDWARE/config.c:76-84 | Storing a configuration can fail in its erase only at the first non-blank byte of the store, which is the first byte of a marked one. |
| Config.FailedEraseLeavesAnything | HARDWARE/config.c:78-84 | When it fails there, any 103 bytes can be left, whatever was stored and was to be stored; RAM has the new record, and the next boot takes what is left for a configuration exactly when it has the mark. |
| Config.CompletedSetSurvives | HARDWARE/config.c:178-213 | In any run of failed and completed operations, a record whose write completed is, field by field and with the header aa aa, what RAM and flash hold after any boots that follow. |
| Config.FailuresKeepProgram | HARDWARE/config.c:63-102 | No run of operations, however they fail, changes the other eleven sectors. |
| Config.SetDecidesCycle | HARDWARE/config.c:178-213 | After a completed write the next boot starts with the query cycle that was set. |
| Config.TornWriteSlowsPolling | HARDWARE/config.c:90-98 | After a write that stopped behind the mark and before the last byte, the next boot has the longest query cycle, 255, whatever was set. |
| MsgInterface.MsgRing.PublishMsg | SYSTEM/msg_interface.c:28-40 | Appends to the pending messages, or refuses without any change exactly when 64 are pending. |
| MsgInterface.MsgRing.GetNextMsg | SYSTEM/msg_interface.c:49-61 | Takes the oldest pending message, or reports that there is none. |
| Ring.PushAppends | SYSTEM/msg_interface.c:31-34 | Writing the slot behind the occupied ones of a circular buffer appends, wherever they wrap. |
| Console.CollectIsScan | HARDWARE/console.c:116-144 | Byte-wise reception yields exactly the lines of the stream: clipped to 20 bytes, ended by 0d 0a, dropped with the byte after 0d otherwise. |
| Console.LineOfBytes | HARDWARE/console.c:116-144 | Bytes without 0d, then 0d and 0a, are the command of these bytes, at most the first 20; another byte than 0a drops them; either way what follows is read afresh. |
| Console.ConsoleUart.OnReceived | HARDWARE/console.c:110-148 | The interrupt handler on the bit-packed state, the buffer and the command ring makes exactly the step of the line machine, and publishes a message exactly when a command was stored. |
| Console.ConsoleUart.GetCommand | HARDWARE/console.c:98-107 | Hands out the oldest stored command, if any. |
| Console.ConsoleHandsOutLines | HARDWARE/console.c:98-148 | Over any interleaving of bytes and fetches, commands handed out followed by those waiting are exactly the lines received, until the receiver latches. |
| Console.LineEnd | HARDWARE/console.c:116-133 | At the end of a line 0a stores it while fewer than eight commands wait and latches the receiver otherwise; any other byte drops the line. |
| Console.ConsoleLatchesExactly | HARDWARE/console.c:121-133 | The receiver is latched if and only if some 0a ended a line while eight commands were waiting. |
| Console.LatchedHearsNothing | HARDWARE/console.c:116-133 | From that byte on nothing is received any more, for ever. |
| Timer.TickTimer.TimerProcess | USER/timer.c:54-69 | One interrupt advances clock and counter and publishes the tick that is due, if one is. |
| Timer.TickSchedule | USER/timer.c:58-68 | After n interrupts the ticks asked for are exactly i mod 10 for i below ceil(n/cycle). |
| Timer.CounterIsModular | USER/timer.c:64-68 | The counter is the number of interrupts modulo ten cycles. |
| Timer.PhasePeriod | USER/timer.c:45-69 | With query cycle q a given phase is asked for exactly at one residue modulo 200q, so polls of a channel are scheduled 200q interrupts apart. |
| UdpInterface.UdpRecv | HARDWARE/udp_interface.c:19-49 | The buffer ends with the first min(2048, total) bytes of the chain, and the protocol layer was fed exactly the handler calls. |
| UdpInterface.CallsArePrefixes | HARDWARE/udp_interface.c:24-44 | Call j gets the first j+1 payloads joined, and calls stop early exactly when the total reaches 2048. |
| UdpInterface.DeliveredOnceExactly | HARDWARE/udp_interface.c:24-44 | A datagram reaches the handler once and whole if and only if it is one segment below 2048 bytes. |
| UdpInterface.TwoSegmentsRepeatFirst | HARDWARE/udp_interface.c:43-43 | Two frames in two segments: the first is dispatched twice. |
| UdpInterface.FrameInTwoSegments | HARDWARE/udp_interface.c:24-44 | One frame cut into two segments is accepted if and only if a segment is empty or the frame repeats its own beginning from the cut on. |
| EventLoop.QueueStep | SYSTEM/msg_interface.c:28-61 | A step keeps taken messages followed by pending ones equal to the accepted ones, and a refused publish leaves the ring as it was. |
| EventLoop.ConsoleStep | USER/main.c:85-91 | Every step, also one between taking a console message and fetching its command, keeps waiting commands equal to pending messages plus fetches to come plus refused messages, and at most eight. |
| EventLoop.LineStep | USER/msg_handlers.c:15-21 | Every step keeps the commands fetched, followed by those waiting, equal to the lines typed. |
| EventLoop.LossStep | USER/msg_handlers.c:34-46 | A step keeps the losses found equal to those announced, refused, and about to be announced. |
| EventLoop.PollStep | USER/msg_handlers.c:25-29 | A step keeps polls made followed by polls left equal to the polls of the work ticks taken. |
| EventLoop.PulseStep | USER/main.c:95-101 | A step keeps the values written to address 1 followed by those of the pulses left equal to 0, 1, 0 for each message taken that asks for them. |
| EventLoop.LookStep | USER/msg_handlers.c:34-46 | A step keeps the link status equal to the last look, losses equal to the changes from up to down, and looks made and left equal to those of the work ticks taken. |
| EventLoop.PressStep | HARDWARE/config.c:222-228 | A step keeps the presses of the button equal to the changes of configuration accepted and refused. |
| EventLoop.DownStep | USER/main.c:108-115 | Up to an overrun, a step keeps every data register's history equal to the payloads of the frames accepted so far. |
| EventLoop.BusStep | USER/protocol_layer.c:92-102 | Up to an overrun, a step keeps the bus log besides address 1 equal to the writes of the frames accepted so far. |
| EventLoop.PollConserves | USER/msg_handlers.c:24-29 | A poll neither loses nor repeats a byte: arrived bytes stay equal to reported plus waiting ones, as a peer decodes them. |
| EventLoop.RunInv | USER/main.c:85-115 | All invariants hold after every interleaving of interrupts, datagrams and pieces of main loop work. |
| DeviceTheorems.RingIsFifo | SYSTEM/msg_interface.c:20-61 | From boot on, messages are delivered in the order they were accepted, and at most 64 wait. |
| DeviceTheorems.ConsoleMessagesFindCommands | USER/msg_handlers.c:15-21 | In every reachable state waiting commands = messages in the ring + taken messages whose fetch is to come + refused ones, at most 8; a fetch finds a command. |
| DeviceTheorems.CommandsAreLinesTyped | HARDWARE/console.c:98-148 | From boot on, the commands the main loop has fetched, followed by those waiting, are exactly the lines of the bytes typed, all of them while the receiver is not latched. |
| DeviceTheorems.PulsesFollowMessages | USER/main.c:95-101 | From boot on, address 1 was written 0, 1, 0 once for each configuration or link-loss message taken, in order, up to the pulses of the current handler. |
| DeviceTheorems.ButtonIsPublished | HARDWARE/config.c:222-228 | Every press of the button was accepted or refused as a change of configuration. |
| DeviceTheorems.LinkIsTracked | USER/msg_handlers.c:34-46 | The link counts as the last look found it, and one loss was announced, refused or is due for each change from up to down. |
| DeviceTheorems.LinkLookedAt | USER/msg_handlers.c:34-46 | If no tick was refused, the link is looked at once in ten ticks taken. |
| DeviceTheorems.TicksOfRun | USER/timer.c:45-69 | With query cycle q at boot, a run of n interrupts asks for ceil(n/20q) ticks, phases 0..9 in turn, each accepted or refused. |
| DeviceLimits.Drain | USER/main.c:108-115 | From every reachable state, any run of main loop work alone, with whatever link readings, empties ring and handler once it is as long as their weight; the weight is never more than 519. |
| DeviceLimits.ConsoleSilentExactly | HARDWARE/console.c:116-133 | No continuation announces another command if and only if the receiver is latched, or eight commands wait and neither the ring nor the current handler holds a message of them. |
| DeviceLimits.DeafIsRefusals | HARDWARE/console.c:124-132 | In terms of the history: latched, or eight announcements were refused. |
| DeviceLimits.CanBeHeard | HARDWARE/console.c:124-132 | Otherwise it gives a continuation that announces one. |
| DeviceLimits.SilenceReachable | HARDWARE/console.c:124-132 | A run from boot reaches this silence with the receiver not latched: lines typed while 64 messages wait. |
| DeviceLimits.LossUnannouncedExactly | USER/msg_handlers.c:35-41 | A loss found is never announced while the link stays down if and only if the ring is full when it is published. |
| DeviceLimits.LossUnannouncedReachable | USER/msg_handlers.c:35-41 | A run from boot reaches that moment. |
| DeviceTheorems.TakenTicksFollowSchedule | USER/timer.c:58-68 | If no tick was refused, the work ticks taken by the main loop are 0..9 over and over. |
| DeviceTheorems.FairPolling | USER/msg_handlers.c:24-29 | Then any ten of them in a row poll each of the 16 channels exactly once. |
| DeviceTheorems.PollingOrder | USER/msg_handlers.c:25-29 | Then the i-th poll made is of channel i mod 16, whatever came between the polls. |
| DeviceTheorems.Downstream | USER/protocol_layer.c:92-172 | In every reachable state with the received stream in bounds, each channel's data register was written exactly the payloads, in order, of the frames in the bytes received. |
| DeviceTheorems.DownstreamDelivery | USER/protocol_layer.c:175-177 | Well-formed frames sent in single-segment datagrams, cut anywhere, are delivered completely and in order to their channels, whatever else the device does meanwhile. |
| DeviceTheorems.PeerDataDelivered | USER/protocol_layer.c:34-40 | The data of the frames the peer builds, sent so, is exactly what is written to 0x2004 + 0x100 times each channel. |
| DeviceTheorems.BusHistory | USER/protocol_layer.c:92-102 | With the received stream in bounds, the bus log of a run besides address 1 is exactly the writes of its frames, frame by frame. |
| DeviceTheorems.ResetLineReleased | HARDWARE/uart_fsmc.c:51-56 | Then address 0 was written 0, 1 once for each reset frame, and the last value is 1. |
| DeviceTheorems.Upstream | USER/protocol_layer.c:43-62 | In every reachable state with the received stream in bounds, the frames a peer decodes from the sent datagrams carry for each channel exactly the bytes that arrived there and no reset dropped, less those still waiting; before any reset these are all that arrived. |
| DeviceTheorems.UpstreamBetween | USER/protocol_layer.c:43-62 | Between any two moments with no reset in between, what waited and what arrived since is what was reported since and what waits then. |
| DeviceTheorems.NeverResetExactly | USER/protocol_layer.c:92-102 | The UARTs were never reset if and only if no accepted frame of the received stream has code 0xA2. |
| DeviceTheorems.NoByteWaitsLonger | HARDWARE/uart_fsmc.c:94-109 | If at most 255 bytes come to a channel between its polls, exactly those that came since the last poll, or that a later reset left, wait; all earlier ones that no reset dropped were reported. |
| Firmware.Initialize | USER/main.c:39-72 | After initialisation the wired objects are the initial state of the device, with the query cycle that the flash holds, or the default one. |
| Firmware.Operate | USER/main.c:108-115 | From power-on, through any interleaving of interrupts, arriving data and pieces of main loop work the real objects follow the state machine; with the received stream in bounds every data register was written exactly the payloads of the frames received. |
| Firmware.Board.ProcessMsg | USER/main.c:85-106 | Taking a message and running its handler, with any interrupts before and in between, makes exactly the steps of the events that passed, and ends with nothing left of the handler unless the run ends first. |
| Firmware.Board.OnConsoleCommand | USER/msg_handlers.c:15-21 | The same for the handler that fetches a command. |
| Firmware.Board.OnWorkTick | USER/msg_handlers.c:24-46 | The same for a work tick: its two polls in their order, or the look at the link, or nothing. |
| Firmware.Board.LookAtLink | USER/msg_handlers.c:34-46 | The same for the link: a loss is noted and then published once, whatever came in between; the link's return arms it again. |
| Firmware.Board.PulseLine | USER/main.c:97-101 | The same for the three bus writes that end a configuration or link change. |
| Firmware.Board.OnTimer | USER/timer.c:72-77 | The timer interrupt is a step of the device state machine. |
| Firmware.Board.OnConsoleByte | HARDWARE/console.c:110-148 | The console interrupt is a step of the device state machine. |
| Firmware.Board.OnDatagram | USER/protocol_layer.c:175-177 | A received datagram is a step of the device state machine. |

## Left out

- Vendor code (`CORE`, `FWLIB`, `LWIP/arch`, start-up and fault handlers), the web pages in `HTTP/fsdata.c`, GPIO, NVIC, EXTI, LED, delay and watchdog code: register settings without algorithms.
- `initUartChlFsmc`, `initUartFsmc`: they program baud rate and parity registers; bus logs start after them.
- `prepareUDPConnection` and the inside of `sendUdpDatagram`: they depend on lwIP, which is not part of this model; sending appends to the list of sent datagrams.
- `testUart`: a bench helper. `updateConfig`: nothing calls it.
- Firmware.Board.OnButton: does not include the flash write of the button's `defaultConfig`, which `Config` covers; the message it publishes is modelled.
- Flash.WriteFlash: does not model what programming does to cells outside the twelve sectors, nor a fault on the way there; the source reaches them from 0x1FFF0000 on, or behind the last sector when all of that is blank.
- Timer.TickTimer.constructor: takes timer set-up as atomic. In the source the set-up call raises an update event before `cycle` is set, so the first interrupt may run early and publish an extra tick 0; TickSchedule, TakenTicksFollowSchedule, FairPolling and PollingOrder are about runs in which it does not.
- LED states, `printf`, `blink` and the pulse timing: no other state depends on them.
- Interrupts inside a ring operation and power loss during a flash operation: the code has no protection against either.
