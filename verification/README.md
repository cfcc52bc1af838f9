# Windmi heat-pump controller: verified model

A Dafny model of the controller that drives a Rotenso Windmi heat pump over Modbus RTU, with
proofs of what its three layers promise. Each layer's theorem is the next layer's assumption.

**Link layer.** `Words` and `Crc16` give the CRC-16/MODBUS register update of the source and its
algebra (linearity, invertibility, parity, the residue law), from which error detection for frames of
every length follows; `CrcPolynomial` shows that the checksum, and no other word, is the remainder of the
standard's polynomial division, and `CrcOrder` that x has order 32767 modulo the generator, which settles
errors of two bits. `RtuFrame` builds and reads frames. `Link` is the transport as an oracle: a
script says, for every frame that will be sent, what the write calls return and what can be read before
the next flush. `RtuClient` holds the client objects (send, exact receive, read, write with read-back
and retries); `VerifiedWrite` says exactly which replies are accepted and what a write call has seen
when it returns; `Retries` says when a call leaves the client connected, how often a write is tried and which
failures it survives; `Device` puts a conforming device behind a line that loses, cuts, delays and damages frames;
`ClientComparison` says when the serial and the TCP client do the same; `FieldBus` shows that every
sequence of register accesses over this stack is one the control layer reckons with, and that its cycles
are such sequences.

**Queues and wake-up.** `SpscRing` is the command ring under every interleaving of its two threads,
for any item type and ring size; `CommandQueue` the ring as an object, stepping by remainder or by mask.
`StatusQueue` is the overwriting status ring called from one thread, `StatusRace` its `latest` against a
concurrent `push`. `WakeUp` is the sleeping and waking of the loop thread: mutex, condition variable,
kick generation, time-outs, stop request.

**Control layer.** `Control` gives commands, status reads and control logic as functions of a world
(controller fields, device registers, a script of failures); `ControlLoop` is the object whose methods
are proved equal to them. `Effects` and `Status` say in numbers, under every script of failures, what is
written, remembered, recorded and published; `Setpoints`, `Corrections`, `Convergence`, `Response` and
`Persistence` hold the theorems about cycles and whole runs.

**Settings file.** `SettingsFile` is the parser and printer of the settings and their round trip.

## Conventions

- Unsigned bytes and words are bounded integers: `>> 1` is `/ 2`, `& 1` is `% 2`, and `^` is defined
  digit by digit. Casts between `int16_t` and `uint16_t` are explicit (`ToWord`, `ToSigned`).
- The return codes 0 and -1 are `true` and `false`; a `ModbusException` is `None` or `false`.
- `src/modbus_client.c` and `src/modbus/modbus_serial_client.c` repeat each other except that the TCP
  client hands a frame to one write call and leaves `connected` alone when a write attempt fails, while
  the serial client repeats partial writes and clears it. One class with a `Kind` models both; the bodies
  of its longer methods are cut into a few methods along the lines of the source. The register list of
  a status read is likewise fetched first and then noted, which nothing can observe.
- Temperatures are exact reals, and threads are sequentially consistent.
- Frames are damaged on the line only as the checksum can detect (an odd number of flipped bits, a
  change inside sixteen consecutive bits, or two flipped bits whose distance is no multiple of 32767), by
  truncation, or by loss; no bytes are inserted. A reply comes out in the exchange it answers, in any later
  one, or never; at most one comes out in an exchange. A request is exposed to the same damage.
- A read of 126 or 127 registers is outside the model: it is the one case in which a reply with a matching
  byte count overruns the 256-byte buffers of the source (`RtuClient.OverrunExactly`); the interface allows
  counts up to 125. Larger counts are modelled, and never succeed.

## Where the stronger claim is false

The code is modelled as it is. Each of these has a theorem with the exact condition.

- A read does not compare the function code with 0x03 (`VerifiedWrite.ReadExactly`).
- Replies carry neither address nor sequence number. A reply to an earlier call that comes out late can be
  taken for the answer to a later one: `Device.TwoOldRepliesMislead`, `Device.MisledWriteFails`, with the exact condition for writes in
  `Device.WriteRunsWellExactly` and for reads in `FieldBus.ReadRunsWellExactly`. Late replies to the call's own
  requests do no harm.
- Not every error of two bits is detected: exactly when is `CrcOrder.PairDetectedExactly`.
- A successful serial write does not imply a successful TCP write, nor the reverse
  (`ClientComparison.PartialWritesDiffer`, `ClientComparison.FailedSendDiffers`); exactly when they agree is
  `ClientComparison.ClientsAgreeExactly`.
- A call of `latest` can report an empty queue, or return a torn or later snapshot, when enough pushes overtake
  it (`StatusRace.ThirtyOneIsTooMany`, `StatusRace.ThirtyTwoOvertake`); exactly when is
  `StatusRace.LatestExactly`. After 2^32 pushes the ring looks empty for a while
  (`StatusQueue.WrapHidesPush`); exactly when is `StatusQueue.LatestOfPushes`.
- A failed heating-target read lets a stale value trigger a second correction
  (`Corrections.HeatingWrittenTwice`); exactly when, in one cycle and over a whole run, are
  `Corrections.StaleHeatingIsWritten` and `Corrections.SettledHeatingLeftAlone`.
- A device mode outside 0..2 is not corrected when the controller already believes in the right one, and
  the priority register is never read back (`Convergence.UnknownModeStays`, `Convergence.WrongPriorityStays`);
  exactly when is `Convergence.CycleConverges`.
- A stop requested between its test and the sleep lets the loop block once more
  (`WakeUp.LateStopBlocksOnce`); `WakeUp.NeverBlocksAgain` says from where on it cannot.
- A target commanded before the first full status read can be lost (`Setpoints.EarlyTargetMayBeLost`).
- The recorded priority can lag behind after a mode command and after the control logic
  (`Persistence.HeatingOnlyLeavesPriorityBehind`, `Persistence.CorrectionLeavesPriorityBehind`); exactly when is `Persistence.ModeMayLeavePriorityBehind` and
  `Persistence.CycleMayLeavePriorityBehind`.
- A settings entry whose key starts with `#` or `;` does not survive saving (`SettingsFile.RoundTripExactly`).

## Model

| member | source | states |
|---|---|---|
| Words.MaskIsRemainder | src/utils/SpscQueue.cpp:18-38 | masking with a power of two less one is the remainder, for every operand |
| Crc16.Compute | src/crc16.cpp:8-24 | the nested byte and bit loop computes the register update folded over the message |
| Crc16.UpdateLinear | src/crc16.cpp:12-21 | the update is linear over exclusive or of states and messages of every length |
| Crc16.UpdateIsSerial | src/crc16.cpp:12-21 | the byte-wise update is the bit-serial register fed least significant bit first |
| CrcPolynomial.BitStepIsTimesX | src/crc16.cpp:15-19 | one shift of the register is multiplication by x modulo x^16 + x^15 + x^2 + 1 |
| CrcPolynomial.LongDivision | src/crc16.cpp:12-21 | the bit-serial recursion satisfies the division equation: dividend = quotient times generator plus remainder |
| CrcPolynomial.DivisionUnique | src/crc16.cpp:8-24 | no other remainder of degree below 16 satisfies it with any quotient |
| CrcPolynomial.ChecksumIsRemainder | src/crc16.cpp:8-24 | a word is the remainder of the message's serial bits times x^16, preset with ones, iff it is the checksum |
| Crc16.BitStepsZero | src/crc16.cpp:14-20 | the shift register is invertible: it empties only if it was empty |
| Crc16.Residue | src/modbus_client.c:291-296 | a frame passes the low-byte-first comparison iff the checksum over all its bytes is zero |
| Crc16.Syndrome | src/modbus_client.c:291-296 | whether an altered valid frame is accepted depends on the alteration alone |
| Crc16.BurstDetected | src/modbus_client.c:291-296 | no valid frame of any length is accepted after a non-zero change inside 16 consecutive bits |
| Crc16.ChecksumParity | src/crc16.cpp:8-24 | the parity of the checksum is the parity of all message bits |
| Crc16.OddErrorDetected | src/modbus_client.c:291-296 | no valid frame of any length is accepted after an odd number of bit flips |
| CrcOrder.OrderOfX | src/crc16.cpp:14-20 | the register with its lowest bit set comes back after exactly the multiples of 32767 shifts |
| CrcOrder.PairDetectedExactly | src/modbus_client.c:291-296 | in frames of every length, two flipped bits go unnoticed iff their distance is a multiple of 32767 |
| CrcOrder.PairDetected | src/modbus_client.c:291-296 | no frame of at most 4095 bytes is accepted after two bit flips |
| RtuFrame.BuildReadFrame | src/modbus/modbus_rtu_frame.c:10-21 | fills exactly eight bytes with the encoded read request and leaves the rest of the buffer |
| RtuFrame.BuildWriteFrame | src/modbus/modbus_rtu_frame.c:29-40 | fills exactly eight bytes with the encoded write request and leaves the rest of the buffer |
| RtuFrame.DecodeEncode | src/modbus/modbus_rtu_frame.c:10-40 | a frame is understood as a request iff it is that request's encoding |
| RtuFrame.SealedIsAccepted | src/modbus/modbus_rtu_frame.c:17-20 | a frame is accepted iff its last two bytes are its checksum, low byte first |
| RtuFrame.RegistersPayload | src/modbus_client.c:298-300 | register values and their big-endian bytes determine each other |
| RtuFrame.FrameLayout | src/modbus/modbus_rtu_frame.c:10-40 | which byte of a request stands where: function code, registers and values high byte first, checksum low byte first |
| Link.TakeIsStream | src/modbus_client.c:217-238 | an exact receive depends only on the bytes before the first failure, never on their chunking, and leaves the others |
| RtuClient.Client.SendFrame | src/modbus/modbus_serial_client.c:170-181 | flush, then one write call (TCP) or repeated partial writes (serial); success iff the whole frame was taken |
| RtuClient.Client.ReceiveExact | src/modbus_client.c:217-238 | the receive loop fills the buffer with exactly the expected bytes or fails |
| RtuClient.OverrunExactly | src/modbus_client.c:271-289 | a reply with a matching byte count overruns the frame buffer iff 126 or 127 registers were asked for |
| RtuClient.Client.ReceiveReply | src/modbus_client.c:256-301 | header checks, exception drain, length check, body, in the source's order |
| RtuClient.Client.ReceiveBody | src/modbus_client.c:277-301 | the body of a reply becomes registers, or the link is marked lost, or the checksum rejects it |
| RtuClient.Client.FrameAccepted | src/modbus_client.c:284-296 | the comparison of received and calculated checksum over header and body |
| RtuClient.Client.ReadInternal | src/modbus_client.c:240-302 | a read returns the specified registers and connection state, touching only the requested cells |
| RtuClient.Client.ReadRegister | src/modbus_client.c:304-307 | the single-register read |
| RtuClient.Client.WriteAcknowledged | src/modbus_client.c:324-337 | exception flag, slave, function code and checksum of a write reply |
| RtuClient.Client.WriteAttempt | src/modbus_client.c:317-343 | one attempt: request, acknowledgement, read-back |
| RtuClient.Client.WriteRegister | src/modbus_client.c:309-351 | at most three attempts until one succeeds |
| VerifiedWrite.ReadExactly | src/modbus_client.c:256-301 | a read returns values iff a sealed reply of the slave carrying them stands on the wire, and consumes just that reply |
| VerifiedWrite.ReadRoundTrip | src/modbus_client.c:240-302 | every conforming reply of 1 to 125 registers, however chunked, is returned exactly and consumed exactly |
| VerifiedWrite.TooManyRegisters | src/modbus_client.c:271-275 | a read of 128 registers or more never succeeds |
| VerifiedWrite.WriteIsVerified | src/modbus_client.c:309-351 | at most six frames, all of them this write or its read-back; success only after a valid FC 06 reply and a read-back equal to the value |
| Retries.SendsExactly | src/modbus/modbus_serial_client.c:170-181 | a frame goes out iff the first write call takes it (TCP), or some write calls in a row each take something and together all of it (serial) |
| Retries.ReadSends | src/modbus_client.c:240-255 | a connected read of any count sends its own request and nothing else; others send nothing |
| Retries.LinkAfterRead | src/modbus_client.c:252-282 | a read clears `connected` iff its request does not go out, no whole header comes, or a matching header is not followed by all the bytes it announces |
| Retries.AcknowledgesExactly | src/modbus_client.c:324-337 | a reply acknowledges a write iff it is the echo of some write to this slave, of any register and value |
| Retries.WriteExactly | src/modbus_client.c:309-351 | a connected write succeeds iff its last two frames went out and were acknowledged and confirmed, fails only after three requests, and ends connected iff no exchange lost the link: unsent or unanswered requests do so in the serial client only, read-backs in both |
| Retries.RetrySucceeds | src/modbus_client.c:311-343 | up to two attempts that fail and keep the link, in whatever way, do not keep a third from succeeding; the client ends connected |
| Retries.TcpForgives | src/modbus_client.c:319-337 | in the TCP client every failure before a read-back is of that kind |
| Retries.LostReplyIsForgiven | src/modbus_client.c:321-322 | a lost first reply is forgiven by the TCP client and final for the serial one |
| VerifiedWrite.LinkLossIsFinal | src/modbus/modbus_serial_client.c:277-344 | once connected is cleared no later attempt of the call succeeds, in either client |
| Device.DamageIsSeen | src/modbus_client.c:291-296 | a frame with detectable damage that is still accepted is undamaged |
| Device.ReadBackIsTrue | src/modbus_client.c:338-340 | a value read back over the damaged line is the register's, unless a reply under way before claims it |
| Device.VerifiedWriteOnDevice | src/modbus_client.c:309-351 | however late the replies to its own requests; success: the register holds the value; failure: the old or the new one; no other register changes |
| Device.WriteRunsWellExactly | src/modbus_client.c:309-351 | every call keeps that contract iff the register holds the value already or no two replies under way before can pass for acknowledgement and read-back |
| Device.MisledWriteFails | src/modbus_client.c:324-340 | the failing call: both requests lost, two old replies accepted, success reported |
| Device.TwoOldRepliesMislead | src/modbus_client.c:324-340 | two such replies: one to a write of any register, one to a read of a register that holds the value |
| Device.UndamagedWriteSucceeds | src/modbus_client.c:309-351 | a write whose two exchanges are carried undamaged succeeds and changes just its register |
| ClientComparison.ClientsAgreeExactly | src/modbus/modbus_serial_client.c:277-344 | whenever either client succeeds, the other succeeds with the same frames iff every request was answered and no attempt that reads back had a partial first write |
| ClientComparison.PartialWritesDiffer | src/modbus/modbus_serial_client.c:174-179 | a frame taken in two write calls succeeds in the serial client and fails in the TCP client |
| ClientComparison.FailedSendDiffers | src/modbus_client.c:319-322 | a first attempt that cannot be sent is forgiven by the TCP client only |
| FieldBus.WriteIsBusWrite | src/modbus/ModbusClient.cpp:76-85 | a write through the stack that old replies cannot mislead succeeds, fails without effect or fails with effect, as the control layer assumes |
| FieldBus.ReadRunsWellExactly | src/modbus/ModbusClient.cpp:64-74 | every read through the stack returns the register's value or fails iff no old reply can claim another value |
| FieldBus.ReadIsBusRead | src/modbus/ModbusClient.cpp:64-74 | then a read, connected or not, is one of the control layer's bus, and changes nothing |
| FieldBus.StackIsBus | src/modbus/ModbusClient.cpp:64-85 | every sequence of accesses, none of them open to old replies, gives the answers and registers of the control layer's bus under some script of outcomes |
| FieldBus.CycleIsBusRun | src/core/ControlLoop.cpp:750-774 | a whole cycle is a sequence of accesses: those of its commands, the reads of the status with the raw values as answers, those of the control logic |
| SpscRing.Fifo | src/core/ControlLoop.cpp:22-37 | under every interleaving, pushed = popped followed by what lies in the ring, at most capacity less one, nothing torn |
| SpscRing.NoInterference | src/core/ControlLoop.cpp:26-35 | the producer never touches a slot that is live or being read |
| SpscRing.Refusals | src/core/ControlLoop.cpp:25-33 | a push is refused iff the ring is full, a pop reports nothing iff it is empty, at the moment of the deciding load |
| SpscRing.StepKeeps | src/utils/SpscQueue.cpp:15-40 | every atomic step of either thread keeps the ring invariant |
| SpscRing.UndisturbedPush | src/core/ControlLoop.cpp:22-29 | the steps of an uninterrupted push append one item unless the ring is full |
| SpscRing.UndisturbedPop | src/core/ControlLoop.cpp:31-37 | the steps of an uninterrupted pop take the oldest item, if any |
| CommandQueue.AdvanceIsStep | src/utils/SpscQueue.cpp:18-38 | masked and remainder stepping are the same walk around the ring |
| CommandQueue.SpscQueue.Push | src/core/ControlLoop.cpp:22-29 | appends and succeeds iff fewer than capacity less one items are queued |
| CommandQueue.SpscQueue.Pop | src/core/ControlLoop.cpp:31-37 | takes the oldest item, or leaves item and queue alone when empty |
| CommandQueue.SpscQueue.Empty | src/core/ControlLoop.cpp:39-41 | true iff nothing is queued |
| CommandQueue.SpscQueue.Full | src/utils/SpscQueue.cpp:48-51 | true iff capacity less one items are queued |
| CommandQueue.SpscQueue.Clear | src/utils/SpscQueue.cpp:54-57 | empties the queue |
| StatusQueue.StatusQueue.Push | src/core/ControlLoop.cpp:47-68 | the overwriting push with its 32-bit counters |
| StatusQueue.StatusQueue.Pop | src/core/ControlLoop.cpp:70-80 | the oldest snapshot, if the counters show one |
| StatusQueue.StatusQueue.GetLatest | src/core/ControlLoop.cpp:82-93 | the snapshot before the tail, if the counters show one |
| StatusQueue.RunRefines | src/core/ControlLoop.cpp:47-93 | over every run with fewer than 2^32 pushes the ring answers like a deque of the newest 31 unpopped snapshots |
| StatusQueue.WrapHidesPush | src/core/ControlLoop.cpp:74-86 | a pushed snapshot is visible iff its push is not the 2^32nd |
| StatusQueue.LatestOfPushes | src/core/ControlLoop.cpp:47-93 | after any number of pushes, wraps included, `latest` shows the newest snapshot, except before the first push and while the tail is below 31 after a wrap |
| StatusRace.LatestExactly | src/core/ControlLoop.cpp:82-93 | under every schedule: nothing is answered iff the tail was zero or 31 more pushes had completed at the head load; the snapshot before the tail is returned whole while at most tail + 31 pushes have begun filling, a torn or later one from then on |
| StatusRace.LatestIsFresh | src/core/ControlLoop.cpp:82-93 | with at most 30 pushes completed during the call, exactly the t-th snapshot, none older than the last push before the call |
| StatusRace.ThirtyOneIsTooMany | src/core/ControlLoop.cpp:59-65 | a schedule that meets the bound: 31 pushes between the two loads of a call, and it reports an empty queue |
| StatusRace.ThirtyTwoOvertake | src/core/ControlLoop.cpp:82-93 | 32 pushes between the head load and the copy, and the answer is a torn or a later snapshot |
| WakeUp.StepKeeps | src/core/ControlLoop.cpp:782-791 | every step of loop, producer and stopper keeps the mutex, sleep and generation invariant |
| WakeUp.NoLostWakeUp | src/core/ControlLoop.cpp:166-188 | a loop asleep without a pending notification has an empty queue or a kick to come, and no stop without a kick to come |
| WakeUp.NotificationEndsWait | include/utils/Platform.hpp:219-225 | a notified wait never goes back to sleep: its test finds the generation moved |
| WakeUp.WaitEnds | src/core/ControlLoop.cpp:166-188 | with a stop requested or the time up in any wait, or a command queued in the wait after a cycle, any fifteen effective steps of the threads under way, in any order, end the wait |
| WakeUp.SomebodyCanMove | src/core/ControlLoop.cpp:782-791 | such a step is always possible without a time-out |
| WakeUp.NeverBlocksAgain | src/core/ControlLoop.cpp:782-791 | under every schedule, further pushes and stop requests included, a loop past blocking does not block before its wait is over |
| WakeUp.TimeOutEndsSleep | include/utils/Platform.hpp:219-225 | a time-out ends a sleep, and nothing but a time-out makes the time be up |
| WakeUp.NoSleepAfterTimeOut | include/utils/Platform.hpp:219-225 | under every schedule, once a sleep has timed out the loop neither blocks nor sleeps again before its wait is over |
| WakeUp.QuietWaitLasts | include/utils/Platform.hpp:219-225 | with nothing to do, no number of spurious wake-ups ends a wait before its time is up |
| WakeUp.QuietWaitSleeps | src/core/ControlLoop.cpp:782-791 | with nothing to do, every wait begins with a sleep |
| WakeUp.RoundDrainsAndSleeps | src/core/ControlLoop.cpp:722-792 | an undisturbed round takes every queued command and then sleeps |
| WakeUp.RetrySleepsAndComesBack | src/core/ControlLoop.cpp:729-741 | a failed attempt to reconnect sleeps until the time is up and comes back for the next |
| WakeUp.StopEndsLoop | src/core/ControlLoop.cpp:721-792 | for every schedule, a requested stop brings the loop from wherever it is to its exit within 27 effective steps and one for each queued command |
| WakeUp.LateStopBlocksOnce | src/core/ControlLoop.cpp:784-788 | a stop requested between its test and the sleep is seen only after one more sleep |
| Control.TempRoundTrip | src/core/ControlLoop.cpp:97-103 | a temperature that fits a register comes back within less than a tenth of a degree |
| Control.Truncates | src/core/ControlLoop.cpp:101-103 | the conversion cuts towards zero: the register's temperature lies between zero and the given one, less than a tenth away |
| ControlLoop.Modbus.ReadRegister | src/modbus/ModbusClient.cpp:64-74 | one register read under the script of failures |
| ControlLoop.Modbus.WriteRegister | src/modbus/ModbusClient.cpp:76-85 | one register write under the script of failures |
| ControlLoop.ControlLoop.constructor | src/core/ControlLoop.cpp:107-122 | the initial controller state |
| ControlLoop.ControlLoop.SetInitialSettings | src/core/ControlLoop.cpp:124-130 | initial settings reach the shown targets, not the saved ones |
| ControlLoop.ControlLoop.SetRunningMode | src/core/ControlLoop.cpp:190-207 | modes outside 0..2 are refused without a write |
| ControlLoop.ControlLoop.SetDhwTarget | src/core/ControlLoop.cpp:209-223 | writes, and on success remembers and records the target |
| ControlLoop.ControlLoop.SetHeatingTarget | src/core/ControlLoop.cpp:225-239 | writes, and on success remembers and records the target |
| ControlLoop.ControlLoop.ReadRegisters | src/core/ControlLoop.cpp:247-340 | the critical reads and the heating target, each with its own outcome |
| ControlLoop.ControlLoop.Note | src/core/ControlLoop.cpp:288-330 | what the controller remembers of a status when any subset of the reads fails |
| ControlLoop.ControlLoop.ReadStatus | src/core/ControlLoop.cpp:241-493 | snapshot and online flag of a status read |
| ControlLoop.ControlLoop.SwitchRunningMode | src/core/ControlLoop.cpp:542-609 | a mode command: record, device mode, targets, priority |
| ControlLoop.ControlLoop.Execute | src/core/ControlLoop.cpp:505-615 | one command of each kind |
| ControlLoop.ControlLoop.ProcessCommands | src/core/ControlLoop.cpp:495-620 | drains the queue and executes its contents in order |
| ControlLoop.ControlLoop.EnforceTargets | src/core/ControlLoop.cpp:643-670 | the targets enforced in each working mode |
| ControlLoop.ControlLoop.EnforcePriority | src/core/ControlLoop.cpp:675-701 | the priority enforced in each working mode |
| ControlLoop.ControlLoop.ApplyControlLogic | src/core/ControlLoop.cpp:622-702 | mode correction, targets and priority, in that order |
| ControlLoop.ControlLoop.PublishInitialStatus | src/core/ControlLoop.cpp:707-719 | the snapshot before the first cycle, published only when online |
| ControlLoop.ControlLoop.RunCycle | src/core/ControlLoop.cpp:750-774 | one cycle: commands, status, control logic if online, publication |
| Effects.CommandWritesExactly | src/core/ControlLoop.cpp:505-615 | under every script of failures a command makes exactly these writes in this order, values in numbers; a mode command whose mode cannot be written makes no other |
| Effects.AllWrittenRecords | src/modbus/ModbusClient.cpp:76-85 | each write of a list is attempted and recorded with its own address, value and outcome |
| Effects.RunningModeRefused | src/core/ControlLoop.cpp:190-207 | a device mode is written iff it is 0, 1 or 2 |
| Effects.PriorityCommand | src/core/ControlLoop.cpp:519-530 | a priority command that succeeds means hot water first iff its value is 1, and records that; one that fails leaves controller and record alone |
| Effects.TargetCommand | src/core/ControlLoop.cpp:506-517 | a target command is saved in any case, and shown and recorded iff its write succeeds |
| Effects.ModeCommand | src/core/ControlLoop.cpp:542-609 | what a mode command leaves in the controller under every script of failures, field by field |
| Effects.ModeRecords | src/core/ControlLoop.cpp:542-604 | the records of a mode command under every script of failures: one before the writes, one for each target written with success |
| Effects.LogicRecords | src/core/ControlLoop.cpp:643-670 | the records of the control logic: one for each target it wrote with success and no other |
| Effects.CycleWritesExactly | src/core/ControlLoop.cpp:622-702 | under every script of failures, after its commands a cycle makes exactly these writes with these values, and none unless all critical reads succeeded |
| Effects.LogicMemory | src/core/ControlLoop.cpp:633-638 | a correction of device mode or priority is remembered iff its write succeeded |
| Effects.RegistersAfterCycle | src/core/ControlLoop.cpp:622-702 | every register after a fault-free cycle: one found off holds exactly the word that belongs there, all others what they held |
| Effects.FoundOffIsSet | src/core/ControlLoop.cpp:643-701 | the same in numbers: 400, 250, 0, 1 and the words of the saved targets |
| Status.SnapshotFields | src/core/ControlLoop.cpp:247-340 | every field of a snapshot when any reads fail, and online iff the seven critical reads succeeded |
| Status.Remembers | src/core/ControlLoop.cpp:288-330 | every field the controller keeps of a status when any reads fail |
| Status.PublishedIsSeen | src/core/ControlLoop.cpp:753-774 | a cycle publishes exactly the status it read after its commands, with the mode in force |
| Status.StartedExactly | src/core/ControlLoop.cpp:707-719 | before the first cycle that snapshot is published iff all critical reads succeeded, and nothing is written |
| Status.UnheardAfterCommand | src/core/ControlLoop.cpp:512-517 | a cycle that cannot read the heating target back goes by the commanded one: it is corrected iff hot water alone is wanted and it lies above 25.5 |
| Status.PriorityStaysTrue | src/core/ControlLoop.cpp:519-701 | in every run with honest failures the controller's idea of the priority, never read back, is the device's |
| Setpoints.SetpointsPreserved | src/core/ControlLoop.cpp:309-330 | after the first full status the setpoints are the last-writer-wins fold of the commands popped, in every run |
| Setpoints.ModePreserved | src/core/ControlLoop.cpp:542-545 | the desired working mode is that fold from the very first command |
| Setpoints.EarlyTargetMayBeLost | src/core/ControlLoop.cpp:309-330 | before the first full status a commanded target survives a cycle iff the device's own was not read or equals it |
| Setpoints.EarlyTargetLost | src/core/ControlLoop.cpp:506-510 | a concrete cycle in which the commanded target is lost |
| Corrections.BoundedCorrection | src/core/ControlLoop.cpp:622-702 | in a command-free run under every failure pattern mode, hot water target and priority are each successfully written at most once, never if settled, and no other register at all; so is the heating target if in each cycle it is heard or the remembered one gives no reason to write |
| Corrections.AtMostFourCorrections | src/core/ControlLoop.cpp:622-702 | with the heating target always known, at most four successful control writes in such a run |
| Corrections.SettledHeatingLeftAlone | src/core/ControlLoop.cpp:320-330 | a settled heating target is not written in a whole command-free run iff it is known in that sense in every cycle |
| Corrections.StaleHeatingIsWritten | src/core/ControlLoop.cpp:320-330 | a cycle writes the heating target once at most, and a settled one iff the logic runs without hearing it and the remembered value is off |
| Corrections.HeatingWrittenTwice | src/core/ControlLoop.cpp:643-650 | one failed heating-target read yields two successful heating writes |
| Convergence.CycleConverges | src/core/ControlLoop.cpp:622-702 | one fault-free cycle brings targets into line; the exact conditions under which mode and priority registers end up right |
| Convergence.UnknownModeStays | src/core/ControlLoop.cpp:288-298 | the failing input: device mode 3 while the controller believes in 2 |
| Convergence.WrongPriorityStays | src/core/ControlLoop.cpp:675-701 | the failing input: the priority register changed behind the controller's back |
| Convergence.Quiescence | src/core/ControlLoop.cpp:721-774 | after that cycle no number of further ones writes anything |
| Response.CommandReachesDevice | src/core/ControlLoop.cpp:505-615 | a command without failures changes exactly the registers it stands for |
| Response.CommandsConverge | src/core/ControlLoop.cpp:750-757 | one fault-free cycle answers a whole batch: setpoints as asked, targets in line, nothing left to do |
| Response.CyclePublishes | src/core/ControlLoop.cpp:753-774 | each cycle publishes one snapshot, online iff all critical reads succeeded, with the mode in force |
| Response.SnapshotIsTrue | src/core/ControlLoop.cpp:247-340 | a fault-free snapshot shows every register under its own name |
| Persistence.RecordInStep | src/core/ControlLoop.cpp:140-147 | in every run the recorded mode and targets are current, each target that of the last successful write; mode writes are off or heating only |
| Persistence.ModeMayLeavePriorityBehind | src/core/ControlLoop.cpp:542-604 | under every failure script the recorded priority is current after a mode command iff mode and priority writes did not both succeed with a new priority |
| Persistence.HeatingOnlyLeavesPriorityBehind | src/core/ControlLoop.cpp:580-590 | the failing command: heating only, while hot water has priority |
| Persistence.CycleMayLeavePriorityBehind | src/core/ControlLoop.cpp:675-701 | under every failure script a cycle keeps the recorded priority current iff the control logic does not change the priority |
| Persistence.CorrectionLeavesPriorityBehind | src/core/ControlLoop.cpp:675-701 | the failing cycle: heating only in force while hot water has priority |
| Persistence.OtherCommandsRecord | src/core/ControlLoop.cpp:505-540 | no other command leaves it behind |
| SettingsFile.Config.constructor | src/utils/Config.cpp:14-22 | the six default settings |
| SettingsFile.Config.Set | src/utils/Config.cpp:112-114 | overrides one entry |
| SettingsFile.Config.TrimText | src/utils/Config.cpp:46-50 | strips blanks and tabs at both ends |
| SettingsFile.Config.LoadLine | src/utils/Config.cpp:32-54 | one line: comment, missing delimiter, empty key, entry |
| SettingsFile.Config.LoadFromFile | src/utils/Config.cpp:24-57 | the line loop over the file; a file that cannot be opened changes nothing |
| SettingsFile.Config.SaveToFile | src/utils/Config.cpp:59-68 | writes each entry once, as one line, in ascending key order, and reports whether the file opened and the stream stayed good |
| SettingsFile.TrimExactly | src/utils/Config.cpp:46-50 | trimming takes off all blanks and tabs at both ends and nothing else |
| SettingsFile.EntryLoads | src/utils/Config.cpp:32-54 | blanks around key and value do not matter, the first delimiter separates them, only a mark in the first column makes a comment |
| SettingsFile.LineIgnoredExactly | src/utils/Config.cpp:32-54 | a line changes nothing iff it is a comment, has no delimiter or only blanks before it |
| SettingsFile.LoadConcat | src/utils/Config.cpp:31-55 | texts load one after the other, later entries win, and a last line counts with or without a newline |
| SettingsFile.BareEntryLoads | src/utils/Config.cpp:31-55 | a file of one entry without blanks and newline is that entry |
| SettingsFile.TextOfTwo | src/utils/Config.cpp:59-68 | the written text to the letter |
| SettingsFile.DefaultsRoundTrip | src/utils/Config.cpp:14-22 | the default settings come back unchanged |
| SettingsFile.LoadedClean | src/utils/Config.cpp:31-55 | loaded keys are non-empty, trimmed, free of the delimiter and of newlines, loaded values trimmed |
| SettingsFile.RoundTrip | src/utils/Config.cpp:24-68 | loading a saved clean map into any base overrides exactly the entries whose key is no comment |
| SettingsFile.LoadedRoundTrip | src/utils/Config.cpp:24-68 | what was loaded, saved and loaded again loses exactly the comment-like keys |
| SettingsFile.RoundTripExactly | src/utils/Config.cpp:24-68 | a map comes back unchanged iff each of its entries is storable |

## Left out

- Sockets, serial ports, Winsock, connecting and disconnecting: foreign calls, represented by the scripts of `Link`.
- HTTP routing, JSON and static files: thin wrappers over a library that is not part of this model.
- Logging, the instance lock, signals, path resolution, command-line parsing and the self-test.
- The simulated client: demo physics over wall-clock time.
- ControlLoop.ControlLoop.ReadRegisters: reads the seven critical registers and the heating target, not the non-critical ones of its source lines.
- ControlLoop.ControlLoop.ReadStatus: its snapshot has no indoor, entering-water, occupancy, power, diagnostic or COP fields.
- Non-critical status reads (indoor and entering water temperature, occupancy, power, diagnostics, COP): one-branch scaling that no decision depends on.
- IEEE-754 rounding and weak memory orderings: exact reals and sequential consistency stand for them.
- Out-of-range float to `int16_t` conversion, undefined in C++: modelled as wrap-around, and excluded by `Representable` where a theorem needs the value.
- `hasKey`, `getString`, `getInt`, `getDouble`, `getBool` of the settings: plain look-ups and conversions of one looked-up string.
- RtuClient.Client.ReadInternal: excludes 126 and 127 registers, the counts whose matching reply overruns a buffer of the source.
- RtuClient.Client.ReceiveReply: excludes the same two counts.
- RtuClient.Client.ReceiveBody: excludes the same two counts.
- SettingsFile.Config.SaveToFile: when the stream goes bad, says nothing about how much of the text reached the file.
- StatusQueue.StatusQueue.Pop: is not modelled against a concurrent push, because nothing in the program calls it.
- Reconnection attempts in the main loop appear in `WakeUp` as choices and in `Control` as rounds without a cycle.
