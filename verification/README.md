# esp32-dap-proxy: the debug path, modelled and verified

This project models the path of a debug command from a USB transfer to SWD clock edges and back,
and proves what each stage keeps:

1. **USB/IP** (`UsbIp`, `UsbIpLoop`, `UsbIpLaws`, `Bridge`): the URB loop of the host program, its 48-byte headers and the
   bridge that keeps a response until bulk INs have fetched it.
2. **The TCP link** (`Link` for the host; `Framing`, `Channel`, `ChannelLaws`, `Sessions`, `Server` for the firmware;
   `Network` between them): length-prefixed frames over a network that delivers in pieces, times out and drops
   connections; one retry on a fresh connection.
3. **CMSIS-DAP** (`DapSpec`, `Dap`, `DapLaws`, `DapReplies`): the command executor with its parsing loops, bounded WAIT
   retry and 1024-byte reply buffer, over any transport; `DapReplies` says command by command which calls are made and
   which bytes come back.
4. **SWD** (`SwdEngine`, `SwdBus`, `SwdWaveforms`): the host engine bit by bit, composed with a reference target
   (`SwdTarget`) that steps on each rising clock edge as section B4 of Arm IHI 0031 (ADIv5) describes, overrun detection
   off.
5. **Statistics** (`Metrics`): the round-trip average and the compare-and-swap maximum.

`SwdLockstep`, `SwdSequence`, `SwdRecovery`, `SwdNoise`, `SwdTransport`, `SwdSwitching`, `PostedReads`, `DapOverSwd`,
`EndToEnd` and `UsbToSwd` join the stages: an access on the wire is one atomic transaction of the debug port; the host
owns the line at every call boundary; bits that are not an access clash exactly when they complete a request frame;
`init` recovers from everything; noise on a single access does harm under an exact condition; posted AP reads look
direct; a session of commands over the wire gets the replies the target would give; the bytes of a reply come out of the
bridge as they left the executor; and the bytes written to a USB/IP client are those the debug port's transactions
determine.

Objects the programs update in place are classes whose methods are proved against specification functions; the lemmas are
about those functions, and tie them to literal bytes, bits and numbers. Words are integers below 2^32, with bits counted
least significant first. A network or transport whose behaviour is not fixed is an arbitrary function of the past
(`Behaviour`, `Policy`, `Firmware`, `Target`) or, for the network itself, free choice inside `Network.World`.

Behaviour of the code that its readers may not expect, each stated by a lemma:

- `swj_sequence` puts any bits on the line. If they complete a request frame the target accepts, the target answers
  while the host still drives: `12 0A A5 00` does that (`SwdTransport.SequenceThatClashes`), and `12 08 A5` leaves
  it to the next call (`SwdTransport.FrameOnLastBit`). `SwdTransport.NoContentionIff` gives the exact condition over
  every list of calls.
- One inverted sample of an acknowledge makes the host give up on an access that the target carries on with
  (`SwdNoise.InStepIff`); the next DAP_Connect repairs it (`DapOverSwd.ConnectedSessionOverWire`).
- The other way round, a refusal whose acknowledge is spoilt into OK is taken for a grant. A write refused with WAIT is
  then reported as done, and if it is a write of 0 nothing else betrays it (`SwdNoise.RefusedWriteReportedDone`).
  `SwdNoise.InStepIff` says for every access, granted or refused, exactly which noise leaves host and target in step,
  and exactly when a refusal is reported as it was, and when as success.
- The firmware's deframer is not reset between sessions. After a command cut off by a lost connection, the bytes of
  the next session complete it (`ChannelLaws.StaleBytesBecomeCommand`); `ChannelLaws.SoundStartIff` gives the exact
  condition for a sound session, and the link's correlation theorems are about sound sessions.
- `recv_frame` drops what follows a frame in the same read: of two frames in one read the second is lost
  (`ChannelLaws.SecondFrameLost`, `ChannelLaws.DropsNothingIff`, `ChannelLaws.DeliversIff`). Lost bytes need not show:
  empty payloads, or the tail of one that is cut to the buffer, can make up for them (`ChannelLaws.LuckyLoss`,
  `ChannelLaws.LuckyCut`).
- A WAIT on RDBUFF makes `exec_transfer` repeat the AP read itself (`PostedReads.ApReadsIssued`,
  `PostedReads.BusyRdbuffSkipsValue`).
- A block of more than 255 words is cut to 255 with status OK (`DapLaws.OversizedBlockIsCut`).
- The host sends payloads of up to 4096 bytes, the firmware executes at most their first 1024, and swallows empty ones:
  on a sound session an empty payload is never answered, and on an intact network every other is
  (`Link.DapLink.Request`, `EndToEnd.FirmwareReceives`).
- A control IN reply is bounded by wLength only (`UsbIpLaws.DescriptorFitsIff`). A device-to-host setup packet with a
  wLength, submitted as OUT, is answered with data its client does not expect (`UsbIpLaws.StatusReadAsOut`,
  `UsbIpLaws.ReadableIff`).
- RET_SUBMIT carries errors as positive numbers (`UsbIpLaws.StatusRightIff`, `UsbIpLaws.UnknownRequestIsPositive`) and an
  actual length of 0 for OUT transfers (`UsbIpLaws.OutLengthRightIff`, `UsbIpLaws.OneByteOutReportsNone`); a
  DAP_SWJ_Sequence count of 0 sends no bits instead of 256 (`DapOverSwd.SequenceLengthRightIff`,
  `DapOverSwd.CountZeroSendsNothing`). Where the code and the protocols it speaks differ, the code is followed.
- After a parity error the engine clocks no idle cycles; both sides are aligned all the same (`SwdLockstep.ReadThroughNoise`).

## Model

| member | source | states |
|---|---|---|
| Bits.FromToBits | esp-daplink-target/src/probe/io/mod.rs:45-60 | reading back the bits `write_u32` puts on the line, LSB first, gives the value, for every value that fits the width |
| Bits.ToFromBits | esp-daplink-target/src/probe/io/mod.rs:45-60 | the converse: writing the value `read_u32` accumulated reproduces the bits read |
| Bits.LittleEndian | esp-daplink-target/src/cmd/dap.rs:158-173 | words in requests are little-endian |
| SwdBus.Wire.ClockCycle | esp-daplink-target/src/probe/io/mod.rs:15 | one clock cycle is exactly one rising edge for the target, which samples the line as driven by host, target or pull-up |
| SwdBus.Wire.PutBit | esp-daplink-target/src/probe/io/mod.rs:28-35 | a written bit is on the line at the next rising edge |
| SwdBus.Wire.GetBit | esp-daplink-target/src/probe/io/mod.rs:38-43 | a read bit is the line as the previous edge left it, before the next edge moves it on |
| SwdBus.Wire.WriteU32 | esp-daplink-target/src/probe/io/mod.rs:45-50 | the loop clocks out the low bits of the value in order |
| SwdBus.Wire.ReadU32 | esp-daplink-target/src/probe/io/mod.rs:52-60 | the loop returns the word whose bits are the samples, in order |
| SwdBus.Wire.LineResetPulse | esp-daplink-target/src/probe/io/mod.rs:19-25 | sixty cycles with the host driving the line high |
| SwdEngine.Swd.DoTurnaround | esp-daplink-target/src/probe/transport/swd.rs:41-51 | one clock with nobody driving, in the order each direction needs; `driving` follows the pin |
| SwdEngine.Swd.DoTransfer | esp-daplink-target/src/probe/transport/swd.rs:53-110 | every path of `transfer` does to the bus, and returns, what the access specification says |
| SwdEngine.Swd.DoInit | esp-daplink-target/src/probe/transport/swd.rs:129-137 | the reset, switch word, reset, idle sequence (`SwdWaveforms.InitBits`), ending with the host driving |
| SwdEngine.Swd.SwjSequence | esp-daplink-target/src/probe/transport/swd.rs:139-145 | the bits clocked out are those of the bytes, each least significant bit first, as many as count and data allow (`SwdWaveforms.SequenceIsBytes`) |
| SwdEngine.Swd.SwjPins | esp-daplink-target/src/probe/transport/swd.rs:147-153 | only bit 7 is remembered, only when selected, and the memory is what is reported (`SwdWaveforms.PinsRemembered`) |
| SwdEngine.Swd.DoWriteDp | esp-daplink-target/src/probe/transport/swd.rs:159-162 | a DP write whose value is dropped from the result |
| SwdEngine.Swd.DoReadAp | esp-daplink-target/src/probe/transport/swd.rs:164-167 | a posted AP read followed by RDBUFF, and no RDBUFF read if the first access failed |
| SwdEngine.Swd.DoWriteAp | esp-daplink-target/src/probe/transport/swd.rs:169-172 | an AP write |
| SwdLockstep.RequestDecodes | esp-daplink-target/src/probe/transport/swd.rs:24-35 | the target decodes every request byte to exactly the APnDP, RnW and A[3:2] the host meant |
| SwdWaveforms.RequestBytes | esp-daplink-target/src/probe/transport/swd.rs:24-35 | the sixteen request bytes, one by one |
| SwdWaveforms.ParityIsEven | esp-daplink-target/src/probe/transport/swd.rs:87-105 | a word and the parity bit sent with it or expected after it hold an even number of ones |
| SwdWaveforms.CallsReach | esp-daplink-target/src/probe/transport/swd.rs:155-172 | which register each call reads or writes, with which word, and what WAIT and FAULT come back as; a granted AP read goes on to read RDBUFF and returns that |
| SwdWaveforms.InitBits | esp-daplink-target/src/probe/transport/swd.rs:129-137 | `init` clocks out sixty ones, 0111100111100111, sixty ones and eight zeros, driving all the while |
| SwdWaveforms.SequenceIsBytes | esp-daplink-target/src/probe/transport/swd.rs:139-145 | a sequence is its bytes one after another, each least significant bit first, cut to the count |
| SwdWaveforms.SwitchBytes | esp-daplink-target/src/probe/transport/swd.rs:139-145 | the bytes 9E E7 with count 16 are the switch word 0xE79E, bit by bit |
| SwdWaveforms.PinsRemembered | esp-daplink-target/src/probe/transport/swd.rs:147-153 | the pins reported are bit 7 as it was last selected, high if it never was, whatever else was called |
| SwdLockstep.ParityDetects | esp-daplink-target/src/probe/transport/swd.rs:85-93 | the parity check fails exactly when an odd number of the data and parity bits is inverted |
| SwdLockstep.ReadThroughNoise | esp-daplink-target/src/probe/transport/swd.rs:85-110 | a granted read under arbitrary noise in the data phase: `Parity` after 46 clocks iff an odd number of the 33 bits is inverted, else the target's word with those bits inverted; the target served it once and both sides are aligned |
| SwdLockstep.TransferWrite | esp-daplink-target/src/probe/transport/swd.rs:95-110 | a granted write delivers exactly the 32-bit value with good parity, in 54 clocks |
| SwdLockstep.TransferRefused | esp-daplink-target/src/probe/transport/swd.rs:65-83 | WAIT, FAULT and silence, unless noise turns the acknowledge into OK, leave the target unchanged but for having refused and both sides aligned, after 21 clocks; they are reported as such if and only if no acknowledge sample is inverted |
| SwdLockstep.Lockstep | esp-daplink-target/src/probe/transport/swd.rs:53-110 | every access, from every request boundary and for every answer of the target, is one transaction of the debug port: same outcome, same effect, aligned again, 54 or 21 clocks, no contention |
| SwdLockstep.TransferReturnsLine | esp-daplink-target/src/probe/transport/swd.rs:41-110 | with any target in any state and any noise, each path ends with the host driving and knowing it, after 54, 46 or 21 clocks; no clash is undone, and the target stays in a state it can be in |
| SwdSequence.BitsHeard | esp-daplink-target/src/probe/transport/swd.rs:139-145 | bits driven at a listening target: no frame accepted, no clash and nothing executed; a frame accepted on the last bit leaves it armed; one accepted earlier is a clash |
| SwdSequence.FrameTakesEight | esp-daplink-target/src/probe/transport/swd.rs:24-35 | only an idle target accepts a frame at its eighth bit, and never earlier; inside a request it ends where its own eight bits do |
| SwdSequence.AccessUnheard | esp-daplink-target/src/probe/transport/swd.rs:53-83 | an access whose frame the target does not accept meets silence, executes nothing and never contends, from every listening state |
| SwdRecovery.RunLockstep | esp-daplink-target/src/probe/transport/swd.rs:53-172 | over every run of accesses, host and target agree on every outcome, stay aligned and never drive at once |
| SwdNoise.InStepIff | esp-daplink-target/src/probe/transport/swd.rs:53-110 | for every access, granted or refused: both sides end aligned with the target having done exactly this access if and only if the noise is harmless, and then nobody clashed; a granted one that is not leaves a read with eight clocks of contention and 24 bits still to come, a write with the idle clocks taken for data. Harmless means: a granted one has its acknowledge arrive clean; a refused one does not have it arrive as OK, or is a write of 0, or a write to a silent target, or a read from a silent target with an odd number of the next 33 samples inverted. A refusal is reported as it was exactly when its acknowledge arrives clean, and as success exactly when it arrives as OK and, for a read, that number is odd |
| SwdNoise.TakenForGranted | esp-daplink-target/src/probe/transport/swd.rs:63-110 | a refused access whose acknowledge arrives as OK: a write is reported as done, a read as a parity error or, if an odd number of the next 33 samples is inverted, as success; exactly when both sides are still aligned |
| SwdNoise.RefusedWriteReportedDone | esp-daplink-target/src/probe/transport/swd.rs:63-110 | a concrete case: two inverted samples make a write of 0, refused with WAIT, return success after 54 clocks with both sides aligned and the refusal in the target's log |
| SwdNoise.RunThroughNoise | esp-daplink-target/src/probe/transport/swd.rs:53-110 | over every run, harmless noise, however it spoils the words read and the refusals, never changes what the target does, nor the alignment, nor causes contention |
| SwdRecovery.HighRun | esp-daplink-target/src/probe/io/mod.rs:19-25 | holding the line high settles any target and costs at most one frame of contention |
| SwdRecovery.SwitchLocks | esp-daplink-target/src/probe/transport/swd.rs:131 | the switch word 0xE79E never makes a request: from reset or lock-out the target ends locked, having driven nothing |
| SwdRecovery.InitRecovers | esp-daplink-target/src/probe/transport/swd.rs:129-137 | from every state of target and host, `init` leaves the target reset and idle with the host driving, after 144 clocks and at most 37 of contention, all of it in the first reset |
| SwdRecovery.InitAtBoundary | esp-daplink-target/src/probe/transport/swd.rs:129-137 | while the target listens and no frame is about to end, `init` resets it, executes nothing and never contends |
| SwdRecovery.InitClashes | esp-daplink-target/src/probe/transport/swd.rs:129-137 | and if a frame is about to end, or has just ended, `init` contends |
| SwdRecovery.ResetSequence | esp-daplink-target/src/probe/transport/swd.rs:139-145 | a line reset by `swj_sequence`, at most 88 high bits and then low ones, leaves every target idle and waiting for its DPIDR; one that listens executes nothing and drives nothing |
| SwdRecovery.SwitchSequence | esp-daplink-target/src/probe/transport/swd.rs:139-145 | reset, switch word, reset and low bits sent by `swj_sequence` do from every state what `init` does |
| SwdRecovery.ConnectReachesTarget | esp-daplink-target/src/cmd/dap.rs:121-126 | the DPIDR read `dap_connect` makes after `init` reaches the target from every state, and wakes it |
| SwdRecovery.SkippingDpidrLocks | esp-daplink-target/src/cmd/dap.rs:121-126 | any other first access is met with silence and locks the port, so that read is needed |
| SwdTransport.CallsReturnLine | esp-daplink-target/src/probe/transport/swd.rs:128-177 | line ownership over every list of calls, every outcome, any noise and any target: at each call boundary the host drives and `driving` says so |
| SwdTransport.NoContentionIff | esp-daplink-target/src/probe/transport/swd.rs:128-177 | over every list of calls on a clean line host and target never drive in the same cycle if and only if every call is tame: no frame is accepted before the last bit of a sequence, and nothing is clocked after one that ends there |
| SwdTransport.SequenceThatClashes | esp-daplink-target/src/probe/transport/swd.rs:139-145 | a concrete sequence that clashes |
| SwdTransport.FrameOnLastBit | esp-daplink-target/src/probe/transport/swd.rs:139-145 | a frame on the last bit does not clash itself; every call that then clocks the line does, whether or not the target waits for its DPIDR read |
| SwdTransport.WireRefinesTarget | esp-daplink-target/src/probe/transport/swd.rs:128-177 | over every tame list of calls, sequences and pins included, the engine on the wire answers as the target itself |
| SwdTransport.WireRefinesTargetAfterInit | esp-daplink-target/src/probe/transport/swd.rs:129-137 | the same after any calls whatever, noise and clashes included, once `init` has been called on a line that is clean from then on |
| SwdTransport.TargetRefinesDev | esp-daplink-target/src/probe/transport/swd.rs:155-172 | without sequences every list of calls from a request boundary is tame, and is answered by the transactions of the debug port alone |
| SwdTransport.ResetRefinesDev | esp-daplink-target/src/probe/transport/swd.rs:128-177 | a target just reset answers every list of calls that begins with `init` and has no sequence by the transactions of its debug port alone |
| SwdSwitching.ResetsAreUsual | esp-daplink-target/src/probe/transport/swd.rs:139-145 | a line reset of at least fifty high bits and then low ones, and the switch word between two such resets, are usual sequences |
| SwdWaveforms.UsualCommands | esp-daplink-target/src/cmd/dap.rs:343-357 | the commands debuggers send for a line reset (50 or more ones as FF bytes), the switch word (`12 10 9E E7`) and idle bits (00 bytes) are usual |
| SwdSwitching.UsualCallsAreTame | esp-daplink-target/src/probe/transport/swd.rs:128-177 | from a target that listens between requests every list of calls is tame whose sequences are line resets, switch words and low bits in any order |
| PostedReads.PostedRefinesDirect | esp-daplink-target/src/probe/transport/swd.rs:123-125 | over every history of accesses in which RDBUFF never answered WAIT, a port with posted AP reads answers as one that returns values at once |
| PostedReads.ReadApCall | esp-daplink-target/src/probe/transport/swd.rs:164-167 | a successful `read_ap` returns the value its own AP read latched; each AP read granted is matched by success or an RDBUFF WAIT |
| PostedReads.ApReadsIssued | esp-daplink-target/src/cmd/dap.rs:234-273 | over all retries: the value is the one latched by the last AP read of the command, and AP reads granted = RDBUFF WAITs, plus one on success |
| PostedReads.BusyRdbuffSkipsValue | esp-daplink-target/src/cmd/dap.rs:267-271 | a concrete register that advances when read loses a value when RDBUFF is busy once |
| DapOverSwd.SessionOverWire | esp-daplink-target/src/cmd/dap.rs:42-77 | a session whose calls are tame, DAP_SWJ_Sequence and DAP_SWJ_Pins included, gets over the wire the replies of the target itself, without contention |
| DapOverSwd.FramedSessionOverWire | esp-daplink-target/src/cmd/dap.rs:42-77 | every session without DAP_SWJ_Sequence gets the replies of the debug port's transactions alone, without contention |
| DapOverSwd.UsualSessionOverWire | esp-daplink-target/src/cmd/dap.rs:42-77 | every session whose DAP_SWJ_Sequences are line resets, switch words and low bits gets the replies of the target itself, without contention |
| DapOverSwd.ConnectedSessionOverWire | esp-daplink-target/src/cmd/dap.rs:120-156 | after any calls whatever, in any state of target and line, noise until then included, what follows a DAP_Connect gets the replies of a target just reset, if its calls are tame; with usual sequences, or none, they are |
| DapOverSwd.ConnectSucceeds | esp-daplink-target/src/cmd/dap.rs:120-156 | after any calls whatever, from every state of the target, DAP_Connect is answered `02 01` over the wire if the target, once reset, grants DPIDR, the power request and a CTRL/STAT with both acknowledges |
| SwdWaveforms.PinsOverWire | esp-daplink-target/src/cmd/dap.rs:359-370 | DAP_SWJ_Pins over the wire reports bit 7 as it sets it, else as it was |
| DapOverSwd.TransferSeesRegisters | esp-daplink-target/src/cmd/dap.rs:175-232 | after any calls that leave the port listening at a request boundary, DAP_Transfer over the wire and posted reads returns what a register file answering at once would, unless RDBUFF answered WAIT meanwhile |
| DapOverSwd.SequenceLengthRightIff | esp-daplink-target/src/cmd/dap.rs:343-357 | a DAP_SWJ_Sequence sends as many bits as the protocol says if and only if its count is not 0 |
| DapOverSwd.CountZeroSendsNothing | esp-daplink-target/src/cmd/dap.rs:348-355 | a count of 0 with its 32 bytes is acknowledged and sends nothing |
| Dap.Executor.ExecTransfer | esp-daplink-target/src/cmd/dap.rs:234-273 | the retry loop makes the calls and returns the result of the specification, whose statuses `DapReplies.OneItem` gives byte by byte; the `u16` cast of `tries` loses nothing |
| DapLaws.RetryExact | esp-daplink-target/src/cmd/dap.rs:241-272 | k + 1 calls, at most min(retry, 128) + 1; every attempt before the last was WAIT, the last decides, and is WAIT only when retries ran out |
| DapReplies.RequestTable | esp-daplink-target/src/cmd/dap.rs:197-210 | the call that each of the sixteen request bytes asks for |
| DapReplies.OneItem | esp-daplink-target/src/cmd/dap.rs:234-273 | a DAP_Transfer of one item: the call goes out until it is not answered WAIT, at most min(retry, 128) + 1 times; reply byte 2 is 01, 02, 04 or 08 for OK, WAIT, FAULT or anything else, byte 1 is 1 or 0, and a word read follows |
| DapReplies.TransferReport | esp-daplink-target/src/cmd/dap.rs:175-232 | every DAP_Transfer: byte 1 counts the items that succeeded, the next is the last one called and gives byte 2, which is 01 if all announced items were there and succeeded and 08 if items are missing; word k of the reply is what the k-th successful read returned |
| DapReplies.BlockReport | esp-daplink-target/src/cmd/dap.rs:285-335 | the same for every DAP_TransferBlock, with its 16-bit count cut to 255 and its status in byte 3 |
| DapReplies.ItemAt | esp-daplink-target/src/cmd/dap.rs:188-213 | an item is a byte below 0x10, followed by a little-endian word if it writes, and nothing else is |
| DapReplies.BlockItems | esp-daplink-target/src/cmd/dap.rs:303-312 | the items of a block: the same byte each time, and for writes as many as there are whole words for, each with its own |
| Dap.Executor.NextItem | esp-daplink-target/src/cmd/dap.rs:188-213 | one item parsed, or none exactly when it is missing, has high bits set, or lacks its data |
| Dap.Executor.DapTransfer | esp-daplink-target/src/cmd/dap.rs:175-232 | the interleaved parse-and-execute loop equals parsing the longest well-formed prefix and then executing it; reply bytes in place, the byte before them untouched |
| Dap.Executor.DapTransferBlock | esp-daplink-target/src/cmd/dap.rs:285-335 | the same for the block form, with its 16-bit count |
| Dap.Executor.DapConnect | esp-daplink-target/src/cmd/dap.rs:120-156 | init, DPIDR read, power request, then polling (`DapReplies.ConnectExact`) |
| DapReplies.ConnectExact | esp-daplink-target/src/cmd/dap.rs:120-156 | whatever they answer, the calls are `init`, a read of 0x00, a write of 0x50000000 to 0x04 and 1 to 200 reads of 0x04, the last of which is the first with bits 29 and 31 set, if any is; the reply is 1 exactly then |
| Dap.Executor.DapSwjSequence | esp-daplink-target/src/cmd/dap.rs:343-357 | a short request is an error without any call; else exactly the counted bytes go down |
| DapReplies.SequenceExact | esp-daplink-target/src/cmd/dap.rs:343-357 | the count and exactly the bytes that hold so many bits go down; if they are missing the reply is FF and nothing goes down |
| DapReplies.PinsExact | esp-daplink-target/src/cmd/dap.rs:359-370 | bytes 1 and 2 and the word of bytes 6 to 9 go down, and the low byte of the answer comes back, or 0 for an error |
| Dap.Executor.DapTransferConfig | esp-daplink-target/src/cmd/dap.rs:158-164 | the WAIT retry setting is bytes 2 and 3, little-endian, if the request is long enough |
| DapReplies.ConfigExact | esp-daplink-target/src/cmd/dap.rs:158-164 | bytes 2 and 3 become the retry setting, nothing else changes, and a short request changes nothing |
| Dap.Executor.DapWriteAbort | esp-daplink-target/src/cmd/dap.rs:166-173 | one write of the ABORT register with the little-endian word, if the request is long enough |
| DapReplies.AbortExact | esp-daplink-target/src/cmd/dap.rs:166-173 | bytes 2 to 5 are written to register 0, once, and a short request writes nothing |
| Dap.Executor.HandleCommand | esp-daplink-target/src/cmd/dap.rs:42-77 | every command, dispatched; no index leaves the 1024-byte buffer |
| DapSpec.Handle | esp-daplink-target/src/cmd/dap.rs:42-77 | for every request and transport the reply has 1 to 1024 bytes |
| DapReplies.PlainReplies | esp-daplink-target/src/cmd/dap.rs:42-77 | the commands that only acknowledge, the unknown ones and the empty one change nothing and make no call |
| DapReplies.InfoExact | esp-daplink-target/src/cmd/dap.rs:79-118 | the reply to DAP_Info for every identifier |
| DapSpec.HandleAll | esp-daplink-target/src/cmd/dap.rs:373-391 | one reply for each command of a session |
| DapLaws.PollExact | esp-daplink-target/src/cmd/dap.rs:136-155 | `dap_connect` reports power exactly when one of 200 polls shows both acknowledge bits, and stops at the first |
| DapLaws.RunIsPrefix | esp-daplink-target/src/cmd/dap.rs:187-227 | exactly the items before the first failing one succeed; the failing one is the last call and gives the status; the words are those of the successful reads, in order |
| DapLaws.OneWordPerRead | esp-daplink-target/src/cmd/dap.rs:215-221 | one word in the reply for each successful read |
| DapLaws.ParseInvertsEncode | esp-daplink-target/src/cmd/dap.rs:187-213 | every list of items survives encoding and parsing, whatever follows |
| DapLaws.ParseIsMaximal | esp-daplink-target/src/cmd/dap.rs:187-213 | what was parsed is the encoding of the items found, and where parsing stopped early there is no further item |
| DapLaws.BlockEqualsUnrolled | esp-daplink-target/src/cmd/dap.rs:285-335 | a block makes the same calls and reports the same words, count and status as DAP_Transfer on its unrolled items, for every transport, failures and truncation included |
| DapLaws.OversizedBlockIsCut | esp-daplink-target/src/cmd/dap.rs:290 | a block of more than 255 words is handled as one of 255 |
| DapLaws.BlockFillsBuffer | esp-daplink-target/src/cmd/dap.rs:290-334 | a granted block read of 255 words fills the buffer to its last byte |
| Framing.ScanStep | esp-daplink-target/src/channel/frame.rs:32-72 | feeding one more byte is one step of the automaton: frames and place of the batch grammar change exactly so |
| Framing.FrameBytes | esp-daplink-target/src/channel/tcp.rs:67-82 | 0xDA, the length with its low byte first, the payload |
| Channel.Deframer.FeedByte | esp-daplink-target/src/channel/frame.rs:32-72 | over every byte history the buffer, fill, state and reject count are those of the batch grammar, and a frame is returned exactly when the grammar completes one, cut to the buffer |
| Channel.Deframer.IsGarbage | esp-daplink-target/src/channel/frame.rs:28-30 | garbage is more than 128 bytes rejected since the last frame |
| Channel.TcpChannel.FeedAll | esp-daplink-target/src/channel/tcp.rs:52-60 | a chunk is fed up to its first frame; the rest of the chunk is dropped |
| Channel.TcpChannel.RecvFrame | esp-daplink-target/src/channel/tcp.rs:41-65 | the nested loops return what the receive specification says, with the frame copied into the caller's buffer |
| Channel.TcpChannel.SendFrame | esp-daplink-target/src/channel/tcp.rs:67-82 | a reply is written as one encoded frame, as far as the connection takes it; success means written in full and flushed |
| ChannelLaws.ChunkingIndependent | esp-daplink-target/src/channel/tcp.rs:41-65 | however a stream is cut into reads, if no read crosses the end of a payload that is not empty, these all arrive, in order, and empty ones leave no trace |
| ChannelLaws.DropsNothingIff | esp-daplink-target/src/channel/tcp.rs:52-60 | for every stream, empty payloads included: no byte is dropped if and only if no read crosses the end of a payload that is not empty |
| ChannelLaws.DeliversIff | esp-daplink-target/src/channel/tcp.rs:52-60 | all payloads of a stream of payloads of 1 to 1024 bytes (the size of the buffer) arrive if and only if no read crosses a frame end |
| ChannelLaws.SecondFrameLost | esp-daplink-target/src/channel/tcp.rs:52-60 | of any two frames in one read the second is lost |
| ChannelLaws.LuckyLoss | esp-daplink-target/src/channel/frame.rs:49-50 | with empty payloads in the stream, all others can arrive, in reads of at most 128 bytes, although bytes were dropped |
| ChannelLaws.LuckyCut | esp-daplink-target/src/channel/frame.rs:49-50 | so can a payload longer than the buffer, as much of it as would be kept |
| ChannelLaws.NeverTooLarge | esp-daplink-target/src/channel/tcp.rs:54-56 | `FrameTooLarge` cannot happen in a buffer at least as large as the deframer's |
| ChannelLaws.GarbageIff | esp-daplink-target/src/channel/tcp.rs:61-63 | noise ends the session if and only if more than 128 bytes have been rejected since the last frame; each byte counts once |
| ChannelLaws.EmptyReadEnds | esp-daplink-target/src/channel/tcp.rs:44-50 | an empty read, or none, is the end of the connection |
| ChannelLaws.HandedOver | esp-daplink-target/src/channel/tcp.rs:52-60 | a payload is handed over as far as the buffer kept it, unless it is longer than the caller's |
| ChannelLaws.SoundStartIff | esp-daplink-target/src/channel/tcp.rs:84-86 | the deframer is kept between sessions: a session receives every first command however cut if and only if it finds the deframer between frames with at most 128 rejects |
| ChannelLaws.StaleBytesBecomeCommand | esp-daplink-target/src/channel/tcp.rs:84-86 | a concrete cut-off command and reconnection after which the firmware executes a command nobody sent |
| Server.Serve | esp-daplink-target/src/cmd/dap.rs:373-391 | a session executes the commands it receives, in order, and answers each in its own frame before taking the next, up to the first reply that cannot be written in full and flushed; if there is none, these are all the commands in its reads; where it leaves deframer and reads is exact too |
| Link.DapLink.SkipToMagic | esp-daplink-host/src/link.rs:166-177 | on every session exactly the bytes before the magic byte are skipped, up to 4096 of them, and `Garbage` means 4097 without one; in a sound session there are none |
| Link.DapLink.ReadFrame | esp-daplink-host/src/link.rs:165-187 | on every session the payload returned is what the bytes consumed decode to, and `FrameTooLarge` is a length over 4096; in a sound session it is the answer due |
| Link.DapLink.TryRequest | esp-daplink-host/src/link.rs:142-163 | every failure drops the connection; every success leaves nothing in flight and is the firmware's answer to this payload, decoded from bytes read since the request began |
| Link.DapLink.Request | esp-daplink-host/src/link.rs:118-140 | over every network: an answer on a sound session is the firmware's to this payload, which is not empty, executed on the current connection since the request began; at most two frames are written and at most two executions are caused by them; on an intact network it succeeds exactly for payloads of 1 to 4096 bytes, and answer, connection count and commands executed are exactly those of one step of an intact link |
| Link.LinkLimits | esp-daplink-host/src/link.rs:118-163 | an intact link answers exactly payloads of 1 to 4096 bytes, and the firmware executes their first 1024 |
| Network.World.FirmwareRead | esp-daplink-target/src/channel/tcp.rs:41-65 | in a sound session a read that completes the request in flight executes it, once, and otherwise it stays in flight; executions keep the order of the frames sent, and every answer is the firmware's; on every session commands and bytes written stay those of its reads |
| Network.CausedAtMost | esp-daplink-host/src/link.rs:118-140 | a stretch of frames causes no more executions than it has frames, over the whole run |
| Link.RunRequests | esp-daplink-host/src/link.rs:118-163 | over every run of requests, each answer on a sound session comes from its own execution, later than all earlier answers'; each request writes at most two frames and these are executed at most once each; with all sessions sound executions never exceed frames sent |
| Bridge.DapBridge.BulkOut | esp-daplink-host/src/bridge.rs:16-26 | an older response is dropped whatever happens; on a sound session success leaves pending what the firmware answers to this command; on an intact network every command of 1 to 4096 bytes succeeds |
| Bridge.DapBridge.BulkIn | esp-daplink-host/src/bridge.rs:28-38 | at most the bytes asked for, the rest kept |
| Bridge.DapBridge.DrainIn | esp-daplink-host/src/usbip.rs:193-209 | successive bulk INs hand over the response piece by piece |
| Bridge.DrainConserves | esp-daplink-host/src/bridge.rs:28-38 | bytes handed over plus bytes pending are the response: none lost, repeated or reordered |
| Bridge.DrainCompletesIff | esp-daplink-host/src/bridge.rs:28-38 | a response is out in full exactly when the sizes asked for cover it |
| Bridge.EmptyMeansDone | esp-daplink-host/src/bridge.rs:28-38 | an empty answer to a request for at least one byte means the response is out in full |
| EndToEnd.HostResyncs | esp-daplink-host/src/link.rs:165-187 | noise before an answer is skipped exactly up to 4096 bytes, and answers are taken exactly up to 4096 |
| EndToEnd.HostReadsStream | esp-daplink-host/src/link.rs:165-187 | the host's decoder inverts the firmware's encoder on every stream of answers |
| EndToEnd.FirmwareReceives | esp-daplink-target/src/channel/tcp.rs:41-65 | of every stream of commands, cut into reads at the ends of those that are not empty, the firmware receives exactly these, cut to 1024 bytes |
| EndToEnd.OneCommand | esp-daplink-target/src/channel/tcp.rs:41-65 | one frame, however it is cut into reads, is received as its first 1024 bytes, or not at all if it is empty |
| EndToEnd.SessionTransparent | esp-daplink-target/src/cmd/dap.rs:373-391 | on one stream: for every cut into reads and all drain sizes, what comes out is a prefix of what the executor answered to the commands received, and all of it exactly when the sizes cover it; if no read crosses the end of a command that is not empty, these are all the commands heard |
| EndToEnd.OneSession | esp-daplink-target/src/cmd/dap.rs:373-391 | the executor behind the link answers the commands of one connection as one session of it, which finds the transport as earlier connections left it |
| Server.InboxIsProgress | esp-daplink-target/src/channel/tcp.rs:41-65 | receiving frame by frame gives the frames that feeding the reads one by one completes |
| Server.AllRead | esp-daplink-target/src/channel/tcp.rs:41-65 | receiving frame by frame uses up a session's reads and ends where feeding them one by one does |
| EndToEnd.ServeTheSame | esp-daplink-target/src/cmd/dap.rs:373-391 | the firmware behind the network is the serve loop: on the reads of any session, sound or not, `Serve` executes the commands the network's firmware executed and writes the bytes it wrote, and leaves deframer and transport as it did |
| EndToEnd.CommandAndResponse | esp-daplink-host/src/bridge.rs:16-38 | through bridge, link, network and firmware: on a sound session bulk OUT and bulk INs of any sizes give a prefix of the executor's reply to this command, all of it exactly when the sizes cover it; on an intact network for every command of 1 to 4096 bytes |
| UsbIpLoop.ServeSubmit | esp-daplink-host/src/usbip.rs:165-218 | OUT data is consumed before the transfer is served; an incomplete one ends the session without a reply |
| UsbIpLoop.UrbLoop | esp-daplink-host/src/usbip.rs:149-230 | everything written is the output specification of the byte stream, up to where a write fails, with the bulk transfers answered by the bridge over the network: the commands are those of the stream, each answer on a sound session is the firmware's to that very command from an execution of its own, and on an intact network the output is exactly that of an intact link with the firmware behind it |
| UsbIp.SendRetSubmit | esp-daplink-host/src/usbip.rs:276-298 | the reply bytes, as far as the connection takes them |
| UsbIp.SendRetUnlink | esp-daplink-host/src/usbip.rs:300-315 | the reply bytes, as far as the connection takes them |
| UsbIpLaws.RetSubmitBytes | esp-daplink-host/src/usbip.rs:276-298 | where each field of a RET_SUBMIT is, and what the other bytes are |
| UsbIpLaws.RetUnlinkBytes | esp-daplink-host/src/usbip.rs:300-315 | the same for a RET_UNLINK |
| UsbIpLaws.HeaderLayout | esp-daplink-host/src/usbip.rs:154-173 | where the loop finds command, sequence number, direction, endpoint, length and setup packet, and when OUT data follows |
| UsbIpLaws.BigEndian | esp-daplink-host/src/usbip.rs:154-173 | header fields are big-endian |
| UsbIp.Ep0 | esp-daplink-host/src/usbip.rs:232-263 | a control reply never exceeds wLength, and carries no data for a host-to-device request; which bytes it carries is in `UsbIpLaws.DescriptorReply` and `UsbIpLaws.ControlReply` |
| UsbIpLaws.DescriptorReply | esp-daplink-host/src/usbip.rs:232-254 | GET_DESCRIPTOR returns the start of the descriptor, all of it or wLength bytes, with status 0; with no such descriptor nothing and 32 |
| UsbIpLaws.ControlReply | esp-daplink-host/src/usbip.rs:236-263 | what every other control request returns, byte by byte, and which fail |
| UsbIpLaws.BulkReply | esp-daplink-host/src/usbip.rs:180-217 | a bulk OUT replaces what is pending by the answer, if there is one, and reports 0 or 5; a bulk IN takes as much as it asks for from the front; other directions are refused with 32 |
| UsbIpLaws.NextSubmit | esp-daplink-host/src/usbip.rs:155-173 | the parser recovers every encoded SUBMIT, its OUT data included, and the bytes it takes |
| UsbIpLaws.NextUnlink | esp-daplink-host/src/usbip.rs:219-223 | the parser recovers every encoded UNLINK |
| UsbIpLaws.StreamAligned | esp-daplink-host/src/usbip.rs:154-229 | whatever follows, each command takes 48 bytes plus its OUT data and gets one reply, in order, with its own sequence number |
| UsbIpLaws.UnlinkAfterReply | esp-daplink-host/src/usbip.rs:219-223 | when an UNLINK is answered, the earlier command it names has its RET_SUBMIT already written, so status 0 is right |
| UsbIpLaws.ReadableIff | esp-daplink-host/src/usbip.rs:232-298 | the reply to a request is readable, whatever the descriptors, if and only if the request is not a supported device-to-host control request with a wLength of its own submitted as OUT |
| UsbIpLaws.StatusReadAsOut | esp-daplink-host/src/usbip.rs:240-248 | a concrete request whose reply its client cannot read |
| UsbIpLaws.ClientReadsReplies | esp-daplink-host/src/usbip.rs:276-315 | a client that knows its directions reads every reply stream back uniquely, if each of its requests is readable in that sense |
| UsbIpLaws.OutLengthRightIff | esp-daplink-host/src/usbip.rs:180-192 | a bulk OUT that was carried out reports the number of bytes transferred if and only if that is 0 |
| UsbIpLaws.OneByteOutReportsNone | esp-daplink-host/src/usbip.rs:291 | a concrete one that reports none of its byte |
| UsbIpLaws.StatusRightIff | esp-daplink-host/src/usbip.rs:175-217 | the status is 0 or negative, as the protocol wants, if and only if the request was carried out |
| UsbIpLaws.UnknownRequestIsPositive | esp-daplink-host/src/usbip.rs:257-260 | a concrete request answered with 32 |
| UsbIpLaws.DataFitsRequests | esp-daplink-host/src/usbip.rs:175-217 | over a whole session no reply carries more data than asked for, given that control requests ask for at least their wLength |
| UsbIpLaws.DescriptorFitsIff | esp-daplink-host/src/usbip.rs:250-254 | a descriptor read fits for every descriptor table if and only if wLength does |
| UsbIpLaws.CommandAndResponse | esp-daplink-host/src/usbip.rs:180-209 | a bulk OUT followed by bulk INs of sufficient total size carries exactly the answer |
| UsbToSwd.LinkIsSession | esp-daplink-host/src/link.rs:118-140 | over every list of commands an intact link with the executor behind it answers as the executor does: too long ones never reach it, an empty one costs the session and its retry setting, of any other it hears the first 1024 bytes |
| UsbToSwd.AttachedOverWire | esp-daplink-target/src/cmd/dap.rs:120-156 | over every list of commands that begins with a DAP_Connect and has only usual sequences, each is answered over the wire as by a target just reset, and on a fresh transport without DAP_SWJ_Sequence as by the debug port's transactions |
| UsbToSwd.ClientToEdges | esp-daplink-host/src/usbip.rs:149-230 | from USB/IP bytes to SWD edges and back: on an intact network and a line clean from then on, whatever was done before, the bytes written to such a client are those for a target just reset, and on a fresh transport without DAP_SWJ_Sequence those for the debug port's transactions alone |
| Metrics.Shared.NoteRtt | esp-daplink-host/src/metrics.rs:54-75 | run alone, with any number of spurious failures, it ends with the statistics of the specification, which `Metrics.NextSample` gives from sample to sample |
| Metrics.NextSample | esp-daplink-host/src/metrics.rs:54-75 | one sample more: the last is it, cut to 32 bits; the average is it too if it was 0, and else weighs it a fifth, rounded down; the maximum is the larger |
| Metrics.AverageBelowMaximum | esp-daplink-host/src/metrics.rs:58-74 | over any samples the average never exceeds the maximum, which is the largest sample |
| Metrics.ClampIdle | esp-daplink-host/src/metrics.rs:60-65 | the clamp on the average never bites |
| Metrics.FallsStrictly | esp-daplink-host/src/metrics.rs:60-64 | from above a constant sample the average falls strictly and never past it |
| Metrics.GapShrinks | esp-daplink-host/src/metrics.rs:60-64 | from below the gap becomes the ceiling of four fifths of it |
| Metrics.SettlesFromAbove | esp-daplink-host/src/metrics.rs:60-64 | from above the average reaches the sample exactly |
| Metrics.SettlesFromBelow | esp-daplink-host/src/metrics.rs:60-64 | from below it settles within four of the sample, without overshoot |
| Metrics.SettlesFromZero | esp-daplink-host/src/metrics.rs:60-64 | from zero it is there after one sample |
| Metrics.FourBelowStays | esp-daplink-host/src/metrics.rs:60-64 | and need not come closer |
| Metrics.EveryInterleaving | esp-daplink-host/src/metrics.rs:54-75 | in every interleaving of the loads and stores of any number of callers, spurious failures included, the maximum only grows, is 0 or some caller's sample, and covers every caller that has returned; every average is covered by it or by a caller on its way to raise it |
| Metrics.FinalStatistics | esp-daplink-host/src/metrics.rs:54-75 | once all have returned the maximum is exactly the largest sample, and the average is at most that |
| Metrics.UninterruptedIsNote | esp-daplink-host/src/metrics.rs:54-75 | a caller that nobody interrupts does to the shared variables what the specification says |
| Metrics.SwapFinishes | esp-daplink-host/src/metrics.rs:67-74 | whatever others did before, a caller at the swap is done after two undisturbed steps, with the larger of sample and maximum stored |

## Left out

- SwdLockstep.Lockstep: assumes samples arrive as sent; SwdNoise.InStepIff says for every access what noise does.
- SwdLockstep.TransferRefused: an acknowledge that arrives as OK is excluded; SwdNoise.TakenForGranted is about that one.
- SwdTransport.NoContentionIff: assumes a clean line, and a target that at first only listens; CallsReturnLine needs neither.
- SwdTransport.WireRefinesTarget: says nothing of calls after a clash; WireRefinesTargetAfterInit takes over at the next `init`.
- PostedReads.PostedRefinesDirect: histories in which RDBUFF answered WAIT are excluded; ApReadsIssued is about those.
- DapOverSwd.TransferSeesRegisters: an RDBUFF WAIT during the command is excluded, because with one it is false (PostedReads.BusyRdbuffSkipsValue).
- ChannelLaws.DeliversIff: excludes empty payloads and those over 1024 bytes, because with either it is false (LuckyLoss, LuckyCut); DropsNothingIff includes all.
- Link.DapLink.Request: correlates answers only on sound sessions; on others the firmware may execute and answer something else.
- Network.World.FirmwareRead: the firmware's executor is a function of the commands so far; EndToEnd.ServeTheSame ties it to `Serve`.
- UsbToSwd.ClientToEdges: an intact network and a clean line are assumed; UrbLoop and SwdNoise.InStepIff say what others do.
- Wall-clock time: timeouts and keepalive are free choices of the network; the delay between clock edges is not modelled.
- The reset pin (`set_reset`): what `swj_pins` remembers is modelled, the pin itself is not on the SWD bus, and the target's debug port does not see it.
- What the firmware loses with a connection between two sessions: the session ends, as with any lost connection.
- Device list, import handshake and device body of USB/IP: fixed data; descriptor tables are a parameter.
- `describe_dap_status`, logging, error logs and counters other than the round-trip statistics: output for people.
- Memory orderings weaker than sequential consistency: `note_rtt` uses relaxed atomics on separate variables.
- JTAG, dormant mode and overrun detection of the target: the probe does not use them.
- Wi-Fi, pin set-up, the web console and argument parsing.
