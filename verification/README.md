# Orbtrace: verified trace and debug data path

This project models the Orbtrace trace and debug data path of the ZUBoard and proves what it
promises: the clocked modules that carry trace bytes from the pins to the DMA engine, the host code
that reads a capture back, the CMSIS-DAP engine with its register mailbox and the firmware that
drives it, the framed control service up to loading a Cortex-M3 image, the two DMA rings, and the
postmortem record. `dafny verify dfyconfig.toml` checks all of it.

Clocked modules are a `State` with a `Step` for one clock: every non-blocking assignment takes its
right-hand side from the state before the clock, and valid and ready inputs are arbitrary on every
clock. A `Trace` adds the bytes taken in and given out; `Advance` and `Run` extend it over whole runs,
and the theorems are about every run. Beside each stands a class with the module's registers and
memories, whose clock methods are proved to do exactly `Step`. Objects of the firmware and the host are
classes with the same fields, buffers are arrays updated in place, and their methods are proved
against the specification functions the theorems are about.

The main results, in the order data flows:

* **Clock crossing** (`GrayCode`, `AsyncFifo`). Two clocks tick in any order, or together, in which
  case every changing bit of a sampled pointer independently resolves to its old or new value. What is
  read is a prefix of what was written, no unread word is overwritten, the flags never lie in the
  dangerous direction, become exact two edges after the other side stops, and a ready reader gets
  everything, in every interleaving.
* **Front end** (`DdrCapture`, `BaudTick`, `Tpiu`, `TpiuDemux`). The capture registers give the bytes
  the reference gives on the same samples, stretch by stretch however enable and width change; the tick
  generator is exact precisely for rates up to a tick a clock; the host's formatter decoder recovers
  exactly the bytes any list of formatter frames carries, and the clocked demultiplexer gives what the
  host's decoder gives, with the Cortex-M3 gate up to the first identifier of another channel.
* **Transport** (`Cobs`, `Orbflow`, `CobsGroups`, `PacketStream`, `ChannelPacketizer`,
  `OrbflowEncoder`, `AxisPacker`, `TracePipeline`, `PipelineDrain`, `CorePath`,
  `Itm`). The packetizer, the clocked two-bank encoder and the 64-bit packer, composed under any input gaps
  and any DMA stalls: reading a capture back gives each channel's bytes, in order; and within a bounded
  number of clocks after the last byte all of it is out but the packer's partial beat; packets end only for
  a reason, and a byte offered is taken within a bounded number of clocks. With the
  demultiplexer in front, the host reads back what its own formatter decoder makes of the bytes at the
  pins, and what the formatter's frames carry. Damage between two delimiters stays there.
* **Debug** (`SyntheticDap`, `DapEngine`, `DapMailbox`, `DapService`, `AxiWrite`). Given the same
  conditions for each request, the clocked engine refines the reference target exactly on the requests
  `Agreeing` describes; over a session, in which the target uses conditions up and the register block
  keeps them, exactly when what is armed and the level have the same effect on every request. The
  mailbox loses a byte in exactly one situation, and the firmware's polling excludes it, so an exchange
  that succeeds moved exactly the request in and the whole answer out; with polls enough for the
  engine's latency every exchange succeeds; the framed service around it answers a stream of packets, in
  order, however it is cut.
* **Control** (`LengthFraming`, `ControlProtocol`, `Controller`, `RegisterBlock`, `ControlService`, `LoadM3`). The
  incremental decoder is the host's one-shot unframing; replies, effects and the bytes left
  over are the same however the stream of requests is cut if and only if nothing after its first byte is
  refused; commands reach the register block as what they mean; a load without a failed connection succeeds
  exactly when the memory keeps the image's first bytes, and leaves the image in the memory and releases
  the core only after the readback matched, whatever connection fails on the way, before, within or after a
  request.
* **Rings** (`AxiDmaRing`, `TraceDmaRing`). Buffers come back in order with their own address and
  capacity; packets are always in exactly one place and never released twice; with nothing refused every
  poll of a capture that finds a transfer sends it.
* **Postmortem** (`Crc32`, `Postmortem`). Any damage within four consecutive bytes of a record is
  noticed, wherever it lies, and a sealed record is found and reported as written.

Where the parts of the repository disagree, the model follows the code of each and says where they
part:

* The host's formatter decoder locks on the bytes 7f ff ff ff in order of arrival, the
  demultiplexer on ff ff ff 7f (`Tpiu.HostLocksOn`, `TpiuDemux.DemuxLocksOn`). A comment in
  `orbtrace_tpiu_demux.sv` explains that the host's order was the earlier mistake. Everything after
  the lock agrees.
* The clocked engine and the reference target differ on Info 2, on transfer requests shorter than three
  bytes, on more than 32 transfers and on JTAG sequences without data
  (`DapEngine.EngineMatchesTarget` gives the exact set).
* Wait, fault and parity conditions are used up by one transfer request in the reference target; in the
  register block they are levels that stay until `DAP_CONTROL` is written again. A wait set once makes
  the target refuse one request and the engine every one (`DapEngine.WaitOnceAgainstLevel`;
  `DapEngine.SessionMatchesIff` says exactly when the two cannot be told apart).
* The demultiplexer's loss counter counts a lock twice when its reset falls on the clock of a frame's last byte
  and the Cortex-M3 gate then trips on that frame (`TpiuDemux.LossesCounted`, `TpiuDemux.CountedTwice`).
* The firmware accepts configure requests whose source or format names nothing, which the host's own
  decoder refuses (`Controller.FirmwareFollowsHost`).
* The C entry point of the control service reports one byte consumed on any refusal, whatever was taken.
  A refusal on a stream's first byte is therefore harmless, and with any other some cut of the stream
  gives other replies, another board or other bytes held (`ControlService.CutsDoNotMatterIff`,
  `ControlService.RefusalReplays`).
* The control service keeps one decoder for all connections and never resets it between them, so a
  connection that dies within a request leaves a partial frame, and the next client's first bytes are
  read as its missing ones (`LoadM3.OnPartial`, `LoadM3.Stranded`).

## Model

| member | source | states |
|---|---|---|
| GrayCode.GrayIsShiftXor | applications/orbtrace/rtl/orbtrace_async_fifo.sv:26-27 | The pointer encoding, `(x >> 1) ^ x` on registers, is the recursive Gray code the proofs use |
| GrayCode.GrayAdjacent | applications/orbtrace/rtl/orbtrace_async_fifo.sv:26-27 | One increment changes exactly one bit of the Gray pointer, also where it wraps |
| GrayCode.ResolveIsOldOrNew | applications/orbtrace/rtl/orbtrace_async_fifo.sv:21-22 | A synchroniser sampling a moving pointer holds its old or its new value, whatever each bit settles to |
| GrayCode.GrayDecides | applications/orbtrace/rtl/orbtrace_async_fifo.sv:28-29 | Comparing Gray codes decides equality of pointers less than the range apart |
| GrayCode.InvertTopTwoAddsHalf | applications/orbtrace/rtl/orbtrace_async_fifo.sv:28 | Inverting the top two Gray bits adds the depth to the pointer, so the full test compares with the pointer one depth ahead |
| AsyncFifo.StepKeeps | applications/orbtrace/rtl/orbtrace_async_fifo.sv:33-52 | Every edge of either clock, and every coincidence of both, keeps the order of true and seen pointers and the unread words |
| AsyncFifo.FifoOrder | applications/orbtrace/rtl/orbtrace_async_fifo.sv:20-52 | In every run the words read are a prefix of those accepted, at most the depth less one are waiting, and ready and valid are never raised wrongly |
| AsyncFifo.QuietFlagsAreExact | applications/orbtrace/rtl/orbtrace_async_fifo.sv:20-52 | Once the writer stops, valid is exactly not-empty after two edges of the read clock, and once the reader stops, ready is exactly not-full after two of the write clock, among any other edges and coincidences |
| AsyncFifo.DrainDelivers | applications/orbtrace/rtl/orbtrace_async_fifo.sv:20-52 | Once the writer stops, its clock running on or not, a reader that stays ready gets every word within two edges more than there are words, coinciding edges included |
| AsyncFifo.Registers.WriteClock | applications/orbtrace/rtl/orbtrace_async_fifo.sv:33-42 | The write clock's registers and memory move exactly as the specification's write edge |
| AsyncFifo.Registers.ReadClock | applications/orbtrace/rtl/orbtrace_async_fifo.sv:43-52 | The read clock's registers move exactly as the specification's read edge, and the word shown is the oldest slot's |
| AsyncFifo.Registers.BothClocks | applications/orbtrace/rtl/orbtrace_async_fifo.sv:33-52 | Coinciding edges take the other side's pointer bit by bit, old or new |
| DdrCapture.DecodeParallelDdr | applications/orbtrace/model/src/lib.rs:427-442 | Whole chunks of edge samples become bytes, first sample lowest, leftovers dropped; other widths are refused |
| DdrCapture.PairTaken | applications/orbtrace/rtl/orbtrace_ddr_capture.sv:46-73 | Each rising edge takes in exactly the pair of samples before it, growing or finishing the current byte |
| DdrCapture.CaptureMatchesReference | applications/orbtrace/rtl/orbtrace_ddr_capture.sv:35-75 | With enable and width held, the bytes given equal the reference decoding of the samples consumed, for every width and any start not already primed at it |
| DdrCapture.CaptureByStretches | applications/orbtrace/rtl/orbtrace_ddr_capture.sv:20-75 | Any enable and any width on every edge, from reset or any state not already primed at the first width: the bytes given are, stretch by stretch, the reference decoding of the samples consumed while enable stayed high at one supported width; a byte begun when a stretch ends is dropped and the next starts afresh |
| DdrCapture.Registers.PosEdge | applications/orbtrace/rtl/orbtrace_ddr_capture.sv:25-75 | The rising edge moves the registers as the specification says, width changes and disabling included |
| DdrCapture.Registers.NegEdge | applications/orbtrace/rtl/orbtrace_ddr_capture.sv:20-23 | The falling edge samples only while enabled |
| BaudTick.Conserves | applications/orbtrace/rtl/orbtrace_baud_tick.sv:14-28 | Up to a tick a clock, while sums fit the accumulator, accumulator plus ticks times the clock rate is all that was added, and the accumulator stays below the clock rate |
| BaudTick.ExactIff | applications/orbtrace/rtl/orbtrace_baud_tick.sv:14-28 | For every clock rate below 2^64: the ticks after every number of edges are four times the baud rate times the time, rounded down, if and only if that is at most a tick a clock and the clock rate less its common divisor with the step, plus the step, is below 2^64 |
| BaudTick.Registers.Clock | applications/orbtrace/rtl/orbtrace_baud_tick.sv:15-29 | One edge of the accumulator, 64-bit wrap included |
| Tpiu.TpiuDecoder.Push | applications/orbtrace/model/src/lib.rs:373-416 | One byte: the window shifts, a lock starts a frame, the sixteenth byte decodes the frame |
| Tpiu.TpiuDecoder.ResetSync | applications/orbtrace/model/src/lib.rs:365-371 | The lock and the partial frame are dropped, and a loss counted only if there was a lock |
| Tpiu.HostDecodesFrames | applications/orbtrace/model/src/lib.rs:373-416 | Once locked, pushing any bytes one by one decodes consecutive 16-byte frames, sources carried across them, the remainder kept |
| Tpiu.HostLocksOn | applications/orbtrace/model/src/lib.rs:374-380 | A searching decoder locks on a byte exactly when the last four are 7f ff ff ff |
| Tpiu.FrameDecodes | applications/orbtrace/model/src/lib.rs:387-415 | A frame built by the formatter's rules decodes to its data bytes with the source in force, immediate and delayed identifiers and the null source included |
| Tpiu.FramesDecode | applications/orbtrace/model/src/lib.rs:354-416 | Any list of formatter frames comes back as the bytes it carries, sources carried from frame to frame |
| TpiuDemux.StepKeeps | applications/orbtrace/rtl/orbtrace_tpiu_demux.sv:36-111 | Every calm clock keeps bytes taken, slots emitted and sources in step with the frame decoding |
| TpiuDemux.DemuxMatchesHost | applications/orbtrace/rtl/orbtrace_tpiu_demux.sv:36-111 | Under any stalls the output is a prefix of what the host's decoder gives on the same bytes, and equal whenever another byte can be taken |
| TpiuDemux.TakesInput | applications/orbtrace/rtl/orbtrace_tpiu_demux.sv:43-111 | From any state, resets and trips of the gate included, a stream of bytes is taken at sixteen in 31 clocks while the reader is ready |
| TpiuDemux.Registers.Clock | applications/orbtrace/rtl/orbtrace_tpiu_demux.sv:49-111 | One clock of the registers and the frame memory, the reset of the lock and the Cortex-M3 gate included |
| TpiuDemux.CalmOnBytes | applications/orbtrace/rtl/orbtrace_tpiu_demux.sv:85-102 | Without resets a run is calm if the Cortex-M3 is never the source or no whole frame taken names another channel, and with the Cortex-M3 as source only then |
| TpiuDemux.GateDropsAtForeign | applications/orbtrace/rtl/orbtrace_tpiu_demux.sv:85-102 | A run that is not calm stops at an identifier of another channel, the first if the Cortex-M3 was the source all along: up to it exactly the data before it was given, then lock and frame are dropped and a loss counted |
| TpiuDemux.DemuxLocksOn | applications/orbtrace/rtl/orbtrace_tpiu_demux.sv:53-84 | In any run, idle clocks, resets and trips of the gate included, a demultiplexer without a lock gets one exactly on the byte that makes the last four taken ff ff ff 7f |
| TpiuDemux.LossesCounted | applications/orbtrace/rtl/orbtrace_tpiu_demux.sv:54-101 | In every run the counter is the number of clocks on which a lock was lost, and one more for each trip of the gate without a lock |
| TpiuDemux.CountedTwice | applications/orbtrace/rtl/orbtrace_tpiu_demux.sv:54-101 | Such trips exist: a reset on the clock of a frame's last byte still starts the frame, and another channel's identifier at its front counts the one lock twice |
| Cobs.CobsEncode | applications/orbtrace/model/src/lib.rs:265-289 | The one-pass encoder with its back-patched code bytes computes the block encoding |
| Cobs.CobsDecode | applications/orbtrace/model/src/lib.rs:291-312 | The decoding loop computes the recursive decoding, errors included |
| Cobs.RoundTrip | applications/orbtrace/model/src/lib.rs:265-312 | Decoding an encoding gives back the input, for every input |
| Cobs.EncodingShape | applications/orbtrace/model/src/lib.rs:264-289 | An encoding has no zero byte and is one to `n/254 + 1` bytes longer than its input |
| Orbflow.UnframeFrame | applications/orbtrace/model/src/lib.rs:325-345 | Unframing gives back channel and payload, with or without the delimiter; the host refuses to frame exactly the channels above 0x7f |
| Orbflow.FrameCarries | applications/orbtrace/model/src/lib.rs:315-331 | A frame without its delimiter is the encoding of the channel, the payload, and one byte that brings the unbounded sum of them all to a multiple of 256 |
| Orbflow.FrameShape | applications/orbtrace/firmware/a53_app/src/main.c:137-142 | A frame has its only zero at the end; 8192 payload bytes take at most 8228, and two such frames fit the 16512-byte buffer |
| Orbflow.OneByteChangeRejected | applications/orbtrace/model/src/lib.rs:315-322 | A raw packet with any single byte changed fails the checksum |
| Orbflow.ReconstructChannelStream | applications/orbtrace/model/src/lib.rs:608-621 | The host's loop concatenates the payloads of the valid frames of one channel |
| Orbflow.ReconstructJoins | applications/orbtrace/model/src/lib.rs:608-621 | Reading back splits at any delimiter, for all byte strings |
| Orbflow.FramesReconstruct | applications/orbtrace/model/src/lib.rs:608-621 | Any list of frames reads back as the concatenated payloads of the channel |
| Orbflow.DamageIsLocal | applications/orbtrace/model/src/lib.rs:608-621 | Arbitrary bytes between two delimiters change nothing outside them |
| CobsGroups.GroupsEncode | applications/orbtrace/rtl/orbtrace_orbflow_encoder.sv:131-150 | Raw bytes with the group lengths the loader stores render to the reference COBS encoding |
| ChannelPacketizer.PacketsKeepBytes | applications/orbtrace/rtl/orbtrace_channel_packetizer.sv:17-53 | The bytes accepted are those of the packets, then of the open one, then the held byte; packets have one channel and 1 to the maximum bytes |
| ChannelPacketizer.EndsForReason | applications/orbtrace/rtl/orbtrace_channel_packetizer.sv:17-45 | In every run each packet handed on is full, or the next byte taken in has another channel, or its last byte was held for the whole idle limit |
| ChannelPacketizer.FullPackets | applications/orbtrace/rtl/orbtrace_channel_packetizer.sv:17-45 | The bytes of one channel without an idle gap at a packet's end go out in packets of exactly the maximum, up to the open one |
| ChannelPacketizer.IdleFlushes | applications/orbtrace/rtl/orbtrace_channel_packetizer.sv:21-45 | With the output ready and no input a held byte leaves as the last of its packet within the idle limit plus one clocks |
| ChannelPacketizer.Registers.Clock | applications/orbtrace/rtl/orbtrace_channel_packetizer.sv:17-54 | One clock of the registers, with the byte handed on and whether the input was taken |
| OrbflowEncoder.StepKeeps | applications/orbtrace/rtl/orbtrace_orbflow_encoder.sv:106-261 | Every clock keeps both halves: the bank being loaded holds the packet's raw bytes and groups, the full banks hold the next packets, the wire holds whole frames and part of one |
| OrbflowEncoder.EncoderSendsFrames | applications/orbtrace/rtl/orbtrace_orbflow_encoder.sv:60-262 | Under any gaps and stalls the bytes sent are the reference frames of the packets accepted that are not too long, in order, the last one possibly in part |
| OrbflowEncoder.QuietSentAll | applications/orbtrace/rtl/orbtrace_orbflow_encoder.sv:211-260 | With nothing in flight every such frame has been sent whole |
| OrbflowEncoder.CountersAccount | applications/orbtrace/rtl/orbtrace_orbflow_encoder.sv:153-192 | Bytes received are all those accepted, bytes dropped those of the packets too long, and the overrun flag is raised exactly when something was dropped |
| OrbflowEncoder.Registers.Clock | applications/orbtrace/rtl/orbtrace_orbflow_encoder.sv:73-261 | Registers and both banks' memories move exactly as the specification's step, loader and emitter on the same clock |
| AxisPacker.PackerKeepsBytes | applications/orbtrace/rtl/orbtrace_axis_packer.sv:31-76 | Kept lanes of the beats issued, then the partial buffer, are the bytes accepted; lanes are contiguous from the lowest and full except at the end; the last flag closes exactly every so many frames |
| AxisPacker.StallHolds | applications/orbtrace/rtl/orbtrace_axis_packer.sv:31-56 | However long the sink stalls and whatever is offered meanwhile, a waiting beat stays unchanged and nothing is taken in |
| AxisPacker.Registers.Clock | applications/orbtrace/rtl/orbtrace_axis_packer.sv:31-76 | One clock of buffer, lanes and output register |
| TracePipeline.EndToEnd | applications/orbtrace/rtl/orbtrace_core.sv:30-43 | For every run of the composed path and every channel, reading back a capture that ends at a frame boundary gives the payload of the first packets, a prefix of the channel's input, and all of it once drained |
| TracePipeline.TransfersAreFrames | applications/orbtrace/rtl/orbtrace_pl.v:256-259 | Every finished DMA transfer is the next two whole frames, never more than 16512 bytes |
| PipelineDrain.ComesToRest | applications/orbtrace/rtl/orbtrace_core.sv:30-43 | From any moment of any run, without input and with the sink ready, packetizer and encoder are empty after the idle limit, four longest frames and 17 clocks; the capture is then every byte accepted but for the packer's partial beat |
| PipelineDrain.TakesInput | applications/orbtrace/rtl/orbtrace_core.sv:30-43 | From any moment of any run, a byte offered while the sink stays ready is taken within the time of three longest frames and ten clocks |
| CorePath.CaptureMatchesHost | applications/orbtrace/rtl/orbtrace_core.sv:23-43 | Pins to host, from a lock on, in every calm run under any gaps and stalls: a channel read back from a capture that ends at a frame boundary is the beginning of what the host's formatter decoder makes of the bytes taken, and all of it once the core is empty |
| CorePath.FramesToCapture | applications/orbtrace/rtl/orbtrace_core.sv:23-43 | When those bytes are frames built by the formatter's rules, each channel reads back as the bytes the frames carry for it |
| CorePath.BypassToCapture | applications/orbtrace/rtl/orbtrace_core.sv:29-38 | With the demultiplexer bypassed the source's bytes read back as channel 1 |
| Itm.DecodeItmStream | applications/orbtrace/model/src/lib.rs:657-689 | The loop decodes packet after packet, an unknown or truncated header taking one byte |
| Itm.PrintDecode | applications/orbtrace/model/src/lib.rs:651-689 | Printing the decoded packets gives the original bytes, noise and truncated tails included |
| Itm.DecodePrintIff | applications/orbtrace/model/src/lib.rs:657-689 | Decoding a printed list gives it back exactly when each packet in it is one the decoder can give there |
| SyntheticDap.Target.Arm | applications/orbtrace/model/src/lib.rs:502-512 | A condition stays armed until used |
| SyntheticDap.Target.ExecuteRequest | applications/orbtrace/model/src/lib.rs:514-586 | Response, both counters and the armed conditions after every request, errors included |
| SyntheticDap.Target.EachTransfer | applications/orbtrace/model/src/lib.rs:548-570 | The transfer loop gives data, completed and started transfers and truncation of the list |
| SyntheticDap.TransferLaw | applications/orbtrace/model/src/lib.rs:548-572 | Every transfer list, its entries told apart by the mask 2 of their first bytes: as many complete as asked for, each read giving its first byte and the tag as a word, in order, writes giving none; a list that ends early completes what is there, reports an error, and counts a write cut short as started |
| SyntheticDap.ListSplits | applications/orbtrace/model/src/lib.rs:549-569 | Every list of bytes and every count is of that form |
| SyntheticDap.MaskLaws | applications/orbtrace/model/src/lib.rs:531 | The connect answer is the port's two low bits; a JTAG sequence's answer is its data with the lowest bit turned |
| SyntheticDap.SameEffect | applications/orbtrace/model/src/lib.rs:532-573 | A request is answered alike under two sets of armed conditions exactly when their effects on it agree: wait before fault before parity, a list cut short before its first transfer counting as a fault |
| SyntheticDap.ConditionsOnce | applications/orbtrace/model/src/lib.rs:502-551 | Conditions armed once reach one transfer request each, wait first, then fault, then parity; from the fourth on all are answered plainly |
| DapEngine.EngineMatchesTarget | applications/orbtrace/rtl/orbtrace_dap_engine.sv:98-173 | The engine's answer and counts equal the reference target's if and only if the request is one of those agreed |
| DapEngine.TransferLaw | applications/orbtrace/rtl/orbtrace_dap_engine.sv:190-229 | The engine's answer on every transfer list of up to 32 entries, told apart by the mask 2, without the engine's own test |
| DapEngine.StepKeeps | applications/orbtrace/rtl/orbtrace_dap_engine.sv:85-235 | Every clock of every phase keeps request memory, response memory and the transfers done in step with the answer |
| DapEngine.EngineRefinesTarget | applications/orbtrace/rtl/orbtrace_dap_engine.sv:62-235 | Under any stalls, octets sent and both counters equal the reference target's answers to the requests captured, given for each the conditions the engine saw, last flags included |
| DapEngine.AnswersSignalled | applications/orbtrace/rtl/orbtrace_dap_engine.sv:228-234 | In every run the end of an answer is signalled once for each answer sent to its last octet |
| DapEngine.SessionMatchesIff | applications/orbtrace/model/src/lib.rs:502-586 | Whatever is armed when: a session of the target, its conditions used up, gives what levels would give after every request if and only if on each request armed conditions and level have the same effect |
| DapEngine.LeftoversMatchIff | applications/orbtrace/model/src/lib.rs:538-548 | With each level armed again before its request, octets and counts at the end are those of the levels if and only if no leftover condition ever changes a request's effect |
| DapEngine.EngineRefinesSession | applications/orbtrace/rtl/orbtrace_axi_regs.sv:90-94 | The clocked engine under any stalls against a session of the target: sent octets and counters agree when the effects do, and with levels armed again only then |
| DapEngine.WaitOnceAgainstLevel | applications/orbtrace/model/src/lib.rs:538-541 | A wait set once: the target answers two transfer requests with wait and ok, the engine with wait twice |
| DapEngine.Registers.Clock | applications/orbtrace/rtl/orbtrace_dap_engine.sv:69-236 | Registers and both memories move exactly as the specification's step |
| DapMailbox.ClockKeepsIff | applications/orbtrace/rtl/orbtrace_axi_regs.sv:66-89 | A clock loses no byte in either direction, except exactly when an empty response hold is read as the engine fills it |
| DapMailbox.Registers.Clock | applications/orbtrace/rtl/orbtrace_axi_regs.sv:66-129 | One clock of both holds and the armed conditions, later assignments overriding earlier ones, with the word a read captures |
| DapMailbox.ControlHolds | applications/orbtrace/rtl/orbtrace_axi_regs.sv:90-94 | The conditions are the three low bits of the word written, they read back, and nothing else on the bus or from the engine changes them |
| DapMailbox.ClockUnderway | applications/orbtrace/rtl/orbtrace_axi_regs.sv:47-128 | Any clock of an exchange, whatever the timing, moves the written and read counts by what the bus did |
| DapMailbox.SendsAnswer | applications/orbtrace/rtl/orbtrace_dap_engine.sv:85-235 | Within an exchange the engine sends nothing before the whole request and then a prefix of the answer; the whole answer only when idle |
| DapMailbox.Mmio.ReadWord | applications/orbtrace/rtl/orbtrace_axi_regs.sv:103-129 | A read returns status or held byte as they were, after any number of clocks, and empties the hold |
| DapMailbox.Mmio.WriteWord | applications/orbtrace/rtl/orbtrace_axi_regs.sv:74-94 | A write is one clock, after any number of others |
| DapMailbox.LeftFalls | applications/orbtrace/rtl/orbtrace_dap_engine.sv:85-235 | With the request written, every clock of waiting or polling brings the next answer octet nearer, from at most 68 clocks |
| DapMailbox.Poll | applications/orbtrace/firmware/a53/src/lib.rs:338-344 | Polling keeps the exchange, success leaves the awaited hold as wanted, a budget of 68 always succeeds, and polling gives up only after one read more than the budget |
| DapMailbox.DapExchange | applications/orbtrace/firmware/a53/src/lib.rs:327-368 | Under any timing: on success the engine took exactly the request, the buffer begins with the whole answer and all is idle; with 1 to 1024 bytes, a budget of 68 and room for 131 bytes it succeeds; a timeout comes only after more status reads than the budget; too small a buffer holds the answer's beginning; nothing else ever reaches the engine |
| LengthFraming.GatherFrame | applications/orbtrace/firmware/a53/src/lib.rs:178-180 | A framed payload is gathered whole on its last byte, wherever the input before it was cut |
| DapService.DapConnection.Feed | applications/orbtrace/firmware/a53/src/lib.rs:170-204 | Nothing reaches the engine before a packet is whole, then exactly that packet; a reply is the length and the engine's whole answer, the reference target's on the requests agreed; with buffer and budget as large as the firmware's own every packet but an empty one is answered and the mailbox is idle again after every call |
| DapService.DapConnection.ServeDap | applications/orbtrace/firmware/a53_app/src/main.c:757-785 | Over any stream, what the loop does piece by piece; on a stream of packets, however it is cut, the engine takes exactly the packets, the replies are its answers in order, and the mailbox is idle again |
| DapService.ServesStream | applications/orbtrace/firmware/a53/src/lib.rs:170-204 | Every cut of a stream of packets exchanges exactly its packets and holds the beginning of the next |
| AxiWrite.WritesPair | applications/orbtrace/rtl/orbtrace_axi_regs.sv:35-75 | However the address and data channels are skewed, writes pair them in order, and no two are unanswered |
| AxiWrite.WritesProceed | applications/orbtrace/rtl/orbtrace_axi_regs.sv:35-75 | From any moment of any run, a master that offers both channels and takes the responses gets a write done on every second clock |
| AxiWrite.Registers.Clock | applications/orbtrace/rtl/orbtrace_axi_regs.sv:35-75 | One clock of the pending and hold registers, with the register write it does |
| LengthFraming.UnframeFrame | applications/orbtrace/model/src/lib.rs:239-262 | Unframing undoes framing, whatever follows |
| LengthFraming.FrameDecoder.Push | applications/orbtrace/firmware/common/src/lib.rs:43-65 | The decoder's result on each byte is the host's unframing of the bytes held; an oversized length restarts clean |
| LengthFraming.FrameDecoder.Frame | applications/orbtrace/firmware/common/src/lib.rs:67-69 | A frame is lent exactly when the bytes held are one |
| LengthFraming.FrameDecoder.Reset | applications/orbtrace/firmware/common/src/lib.rs:71-77 | Nothing is held afterwards |
| ControlProtocol.DecodeEncode | applications/orbtrace/model/src/lib.rs:169-236 | Every command survives encoding and decoding |
| Controller.FirmwareFollowsHost | applications/orbtrace/firmware/a53/src/lib.rs:226-322 | The firmware carries out what the host's decoder says a request means, and accepts nothing else but configure requests naming no source or format |
| Controller.RefusedIff | applications/orbtrace/firmware/a53/src/lib.rs:234-322 | A command is refused exactly when it names memory beyond the window or its answer does not fit, and then does nothing |
| Controller.ChunkReadsBack | applications/orbtrace/firmware/a53/src/lib.rs:292-315 | A chunk stored where no cell is stuck reads back, the memory around it as it was |
| Controller.Controller.Command | applications/orbtrace/firmware/a53/src/lib.rs:226-322 | Effects, memory, reply bytes and their place in the buffer for every request, refusals changing nothing |
| RegisterBlock.CommandsReach | applications/orbtrace/rtl/orbtrace_axi_regs.sv:60-100 | What a command does to the register block behind the bus: start, stop and reset pulse their own line and no other, a configuration sets source, format and rate to those named, the Cortex-M3 bits are set as given, and nothing else reaches it |
| RegisterBlock.RoutesOwnCluster | applications/orbtrace/firmware/a53/src/lib.rs:242-258 | A configuration selects and enables the trace of a processor cluster exactly when it names it |
| RegisterBlock.StatsAreCounters | applications/orbtrace/rtl/orbtrace_axi_regs.sv:115-123 | A statistics reply is the block's counters, low words first |
| RegisterBlock.HoldsAndReleases | applications/orbtrace/rtl/orbtrace_axi_regs.sv:95-98 | The first write of a load holds the Cortex-M3 and the last releases it, with the debug port left alone |
| Controller.Io.WriteM3Bram | applications/orbtrace/firmware/a53/src/ffi.rs:43-68 | Whole words then left-over bytes land exactly the data at the offset |
| Controller.Io.ReadM3Bram | applications/orbtrace/firmware/a53/src/ffi.rs:70-83 | Words then bytes read exactly the range, the rest of the buffer untouched |
| ControlService.Firmware.Feed | applications/orbtrace/firmware/a53/src/lib.rs:120-149 | Bytes are taken up to the first reply or refusal, with reply bytes and count |
| ControlService.Firmware.ControlFeed | applications/orbtrace/firmware/a53/src/ffi.rs:151-178 | A refusal is reported as one byte consumed |
| ControlService.Firmware.ServeControl | applications/orbtrace/firmware/a53_app/src/main.c:612-650 | The server loop over a packet's fragments gives the replies in order |
| ControlService.CutsDoNotMatter | applications/orbtrace/firmware/a53/src/lib.rs:120-149 | However a stream of accepted requests is cut, replies, board and bytes held are those of the uncut stream |
| ControlService.CutsDoNotMatterIff | applications/orbtrace/firmware/a53/src/ffi.rs:151-178 | Every cut of a stream gives the replies, the board and the bytes held that the uncut stream gives, if and only if nothing after its first byte is refused |
| ControlService.ReplayObserved | applications/orbtrace/firmware/a53/src/ffi.rs:171-176 | What follows is accepted both with a byte read twice and without: then the replies, the board or the bytes held at the end differ |
| ControlService.BytewiseProcesses | applications/orbtrace/firmware/a53/src/ffi.rs:151-178 | Delivered byte by byte, every stream is processed byte for byte, refusals included |
| ControlService.RefusalReplays | applications/orbtrace/firmware/a53/src/ffi.rs:171-176 | An oversized length in one piece is read again from its second byte; in four pieces it is not |
| ControlService.FramesAreUnframed | applications/orbtrace/firmware/common/src/lib.rs:43-65 | For every stream: the frames carried out and the lengths refused are, in order, those repeated unframing finds, and the bytes held are what it leaves |
| LoadM3.Transact | applications/orbtrace/model/src/main.rs:30-49 | One command over any cut of its bytes: an answer is the command's; it is lost exactly when the connection was, before, within or after the request, which leaves it done once or not at all, with at most its beginning held |
| LoadM3.OnPartial | applications/orbtrace/firmware/a53/src/ffi.rs:136 | What a client sends to a decoder that holds a partial frame is read as if it followed that frame's bytes |
| LoadM3.Stranded | applications/orbtrace/firmware/a53/src/ffi.rs:136-178 | The first command after a frame cut past its length is swallowed while bytes are missing, and otherwise completes the old command with its own first bytes, what is left of it being read as a new frame |
| LoadM3.Load | applications/orbtrace/model/src/main.rs:243-298 | If no connection fails the load succeeds exactly without a stuck wrong byte among the first sixteen, and reports a mismatch with one; if one fails it says so. Whatever fails where: the image lands whole (without stuck cells the memory is the image and what was beyond it), the core is held first and released only after the whole image was stored and its start read back; a failure leaves the image up to some chunk in the memory, the effects that say so, and at most the beginning of one of the load's own commands in the decoder |
| AxiDmaRing.AndMask | applications/orbtrace/firmware/common/src/lib.rs:148 | Masking with a power of two less one is the remainder, for every number |
| AxiDmaRing.OneCycle | applications/orbtrace/firmware/common/src/lib.rs:146-151 | The next pointers visit every descriptor exactly once and come back |
| AxiDmaRing.New | applications/orbtrace/firmware/common/src/lib.rs:135-158 | Bad counts and bases are refused without touching memory; otherwise an empty, linked ring |
| AxiDmaRing.Ring.Enqueue | applications/orbtrace/firmware/common/src/lib.rs:164-181 | Refused exactly for an unusable capacity or with all but one descriptor outstanding; otherwise appended, no outstanding descriptor touched |
| AxiDmaRing.Ring.PollCompleted | applications/orbtrace/firmware/common/src/lib.rs:183-207 | Gives back the oldest buffer with its own address and capacity once complete without error; an error consumes nothing |
| AxiDmaRing.StatusMasks | applications/orbtrace/firmware/common/src/lib.rs:183-207 | Completion is bit 31, an error any of bits 28 to 30, the length the low 26 bits |
| AxiDmaRing.Ring.HardwareStatus | applications/orbtrace/firmware/common/src/lib.rs:122-132 | Any status word written at any time keeps the ring valid |
| TraceDmaRing.BuffersApart | applications/orbtrace/firmware/a53_app/src/main.c:192-215 | Armed buffers lie inside their packets, on cache lines, and never meet |
| TraceDmaRing.TraceDma.Initialize | applications/orbtrace/firmware/a53_app/src/main.c:232-281 | Succeeds exactly if the reset finishes and no packet is refused; then every slot has a packet, and otherwise those lent stay accounted for |
| TraceDmaRing.TraceDma.SendCompleted | applications/orbtrace/firmware/a53_app/src/main.c:288-339 | The oldest completed payload is sent and its slot rearmed; not ready exactly when bit 31 of the status is clear; it fails only for an error bit, a length of 0 or above 16512, or a refusal of the network stack, and each packet is then still in exactly one place |
| TraceDmaRing.TraceDma.Stop | applications/orbtrace/firmware/a53_app/src/main.c:181-190 | Every slot is emptied and every packet returned |
| TraceDmaRing.TraceDma.Capture | applications/orbtrace/firmware/a53_app/src/main.c:706-750 | Over a whole connection what was sent is a prefix of the transfers completed, in order, and afterwards no slot holds a packet; with nothing refused and no fault reported every poll with a transfer waiting sent exactly one |
| Crc32.ComputeCrc | tooling/pm_decode/src/main.rs:41-55 | The interleaved bit loop computes the register of the specification |
| Crc32.StandardForm | sdk/bsp/rpu/postmortem.c:18-32 | The interleaved loop over a byte is the reflected CRC of IEEE 802.3 section 3.2.9: add the byte, shift eight times |
| Crc32.Parameters | sdk/bsp/rpu/postmortem.c:20-31 | The polynomial has exactly the terms of the standard, the register starts with all bits set, and the checksum is its complement |
| Crc32.BurstDetected | tooling/pm_decode/src/main.rs:41-55 | Changing data of any length within any four consecutive bytes always changes the checksum |
| Crc32.SealedIff | sdk/bsp/rpu/postmortem.c:58-59 | Four bytes are the checksum of what precedes them exactly when the register ends on the residue |
| Postmortem.TryParseAndPrint | tooling/pm_decode/src/main.rs:102-164 | Accepted exactly with magic, version and checksum right; printed also with a bad checksum |
| Postmortem.RecordHeader | sdk/bsp/rpu/postmortem.h:19-30 | Every accepted record begins with the octets 01 00 4d 50 01 00 00 00 |
| Postmortem.Scan | tooling/pm_decode/src/main.rs:207-216 | Finds the first valid record at an aligned offset, or there is none |
| Postmortem.DamageRefused | tooling/pm_decode/src/main.rs:116-118 | A valid record changed in any way within four consecutive bytes, its stored checksum included, is refused |
| Postmortem.PmRecord.SaveFromExc | sdk/bsp/rpu/postmortem.c:39-60 | The sealed record is accepted wherever it lies and reads as the handler's values, the program counter being the link register less the offset |
| Postmortem.SavesFaultAddress | sdk/bsp/rpu/postmortem.c:34-52 | The saved program counter is the address of the instruction at fault, for each exception that enters with the link register eight or four bytes past it |

## Left out

- I/O, sockets, files, ThreadX and NetX internals, GEM2 diagnostics, CoreSight register sequences (recorded as effects), UART output and the interrupt bits of the register block: environment, or effects without a protocol.
- The JTAG path of the engine (`use_real_target`), SWO receivers, the source multiplexer and the test source.
- `write_level` of the clock-crossing FIFO: its expression re-applies the Gray encoding instead of inverting it, so it is not an occupancy.
- A reset of one side of the FIFO only, and edges that fall within one another's sampling window without coinciding: coinciding edges stand for both.
- 64-bit wrap of the byte, transfer and drop counters, and the narrow widths of index registers that the invariants keep in range.
- TpiuDemux.StepKeeps: excludes clocks with a reset of the lock and clocks on which the gate trips; what a trip does is `TpiuDemux.GateDropsAtForeign`.
- TpiuDemux.DemuxMatchesHost: is about runs from a lock on without a reset of it, and says nothing about the bytes before a lock, where the two decoders differ.
- DapEngine.Registers.Clock: has the states of the synthetic target; those of `use_real_target` and the JTAG pins are not modelled.
- DapMailbox.Registers.Clock: has the two holds and the armed conditions; settings, pulses and counters are `RegisterBlock`.
- RegisterBlock: on values, a pulse lasting for the clock of its write; the DMA address and ring registers and the interrupt bits are not modelled.
- TracePipeline: composed on values; the register classes are those of the three modules.
- DapMailbox: an AXI access is one clock, after any number of others; the pairing of the write channels is `AxiWrite`; byte strobes are not modelled.
- DapMailbox.DapExchange: starts from the idle state, in which every exchange with polls and room enough ends; what a second exchange finds after a timeout or a buffer too small is not stated.
- CorePath: starts at a lock, with the path empty, before which the demultiplexer gives nothing; the source multiplexer's choice is the source of the run.
- DapService.DapConnection.ServeDap: a reply lost for want of a packet is not modelled.
- DapService.DapConnection.Feed: likewise starts with the mailbox idle, as every call with a buffer and a budget as large as the firmware's own leaves it.
- `dap_frame`: the one-shot form of the same framing around `DapExchange`; it would only add an easy member.
- ControlService.Firmware.ServeControl: its replies are those handed to the network; a reply lost for want of a packet is not modelled. Nor is the spinlock around the service.
- ControlService.CutsDoNotMatter: says one direction, for streams without refusals; the exact condition is `ControlService.CutsDoNotMatterIff`.
- LoadM3.Load: on a decoder that already holds a partial frame it promises only that the decoder stays sound; what the first command then does is `LoadM3.Stranded`.
- Controller.Io: a 32-bit store is four octets; the alignment the hardware wants of it is not modelled. The memory may have stuck cells, which is what the readback is for.
- AxiDmaRing.New: descriptor memory lies within the 64-bit address space; fences and cache maintenance are not modelled.
- TraceDmaRing.TraceDma.Initialize: the poll for the end of the reset is one nondeterministic outcome, and the descriptors' next pointers are not modelled.
- TraceDmaRing: the diagnostic byte, packet and error counters; stopping the engine takes effect at once; a connection is any number of polls.
- Postmortem: `pm_print` and the symbol lookup.
- Perfetto conversion, `classify_port0`, workload generators, the documentation tool and the command-line front end.
