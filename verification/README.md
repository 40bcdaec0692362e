# Motor firmware model

A Dafny model of the control firmware of a small robot, and proofs about it. Four parts:

* **Motor driver.** Received bytes go through a ring buffer and a frame parser with a CRC-8; I2C transactions go through
  a write queue. Both end in a register file of 127 bytes with all-or-nothing writes and derived status registers. A
  cooperative main loop holds a communication lease, runs a fixed-point speed and position controller and drives two
  bridges. `SerialFrame`, `RegisterSpec`, `ControlSpec` and `AppSpec` give the behaviour as functions on values;
  `SerialProtocol`, `RegisterMap`, `MotorControl`, `UartLink`, `I2cTarget`, `QuadratureEncoder` and `MotorApp` are the
  same things as classes that update fields and arrays in place, each method proved to take the specified step.
  `SpeedRamp`, `PositionLaw`, `ControlLaws`, `RegisterLaws` and `RegisterReports` say what controller and registers do
  in numbers and bits. `MotorClient` is the main controller's end of the link.
  `AppHistory`, `AppSafety`, `AppTraffic` and `AppDelivery` prove what holds over whole runs, from the bytes on the line
  to the bridges; `AppLaws` says so in register bytes, `AppLinks` joins receive ring, I2C queue and main loop, and
  `AppStall` exhibits a run.
* **Field-oriented current loop.** `FocVector` and `FocAngle` hold the arithmetic, `FocSpec` the state machine,
  `MotorFoc` the class, `FocSafety` and `FocMotion` the run properties, `FocLaws` and `FocStateLaws`
  what each loop, sample and command does to the motor.
* **Sequence interpreter.** `ActionSpec` and `ActionCondition` give validation and one update of a run, `ActionRunner`
  the class, `ActionSafety` and `ActionNesting` the properties of arbitrary programs and runs, `ActionLaws` the exit of
  every instruction, `ActionValidity` what validation is good for.
* **Calibration and persistence.** `RobustCapture` is the in-place sort and trimmed mean of a sensor calibration,
  `GrayscaleScan` the interleaved scan that feeds it; `ConfigCodec`, `ConfigTable`, `ConfigImage` and `ConfigStore` are
  the versioned configuration with its checksum, `ConfigLaws` which changes it accepts.

Bytes and machine words are integers in their ranges; every conversion, wrap-around and truncating or flooring division
of the source is written out (`Arith`). Clocks are 32-bit values beside a true time that only specifications see.
Reading a pin, a timer or a converter is a parameter; driving a bridge or a pin is an assignment to a field. Encoder
readings, arrival times and the answers of drivers are inputs of a step and may be anything.

The proofs hide definitions that a step does not need with `hide`, so that each stays small. `dafny verify
dfyconfig.toml` checks the project.

Where the code and its own documentation differ the code is followed: `MotorDriver/README.md` lists other power-on
values for the speed gains and limits than `register_map.cpp` stores (2, 2, 0, 60 and 4).

Eight statements one might expect are false of the code, and stand here with the exact condition under which they hold
and an input for which they fail:

* the watchdog measures the age of a lease modulo 2^32 ms (`AppSafety.WatchdogMeasuresModulo`,
  `AppStall.StalledRunKeepsDriving`);
* the speed ramp's step is cut to 32 bits (`SpeedRamp.RampIgnoresSplitting`, `SpeedRamp.LongPauseStalls`);
* the position law corrects a small negative error in the wrong direction (`PositionLaw.DrivesTowardTarget`,
  `PositionLaw.SmallErrorDrivesAway`);
* the voltage limiter can let one squared unit through (`FocVector.LimitExact`, `FocVector.LimitSlackIsReal`);
* the encoder's speed window is timed modulo 2^32 ms (`QuadratureEncoder.SpeedIsTimed`,
  `QuadratureEncoder.LongGapMisreads`);
* a condition added to a motion-until instruction without waiting reads back as waiting
  (`ActionCondition.ConditionRoundTrip`, `ActionRunner.LookOnceBecomesWait`);
* the length of a reply tells a refused read from a successful one, except for a read of one register beyond the last
  (`MotorClient.ReadToldTruly`; register 0x7F answers as if it held 1);
* validation accepts a condition only if it could have been added as one, except for stable times over a second
  (`ActionValidity.ValidCouldBeAdded`, `ActionValidity.LongStabilityIsValid`).

## Model

| member | source | states |
|---|---|---|
| `AppSafety.RunFromStartSafe` | MotorDriver/app/motor_app.cpp:245-299 | From power-on, after any number of main-loop passes with any bytes, I2C writes, bus trips and delays, every bridge is off or driven for an enabled, unexpired command in RUN, SPEED or POSITION whose last write or heartbeat was, when the watchdog of the last pass looked, within the configured timeout, its age taken modulo 2^32 ms as the firmware measures it; the look was as long ago as the last pass took to steer |
| `AppSafety.TimelyRunFromStart` | MotorDriver/app/motor_app.cpp:245-299 | From power-on, when no pass takes 24 days: the true age of the last write or heartbeat behind a driven bridge is at most the timeout plus the time the last pass took after the watchdog had looked |
| `AppSafety.RunSafe` | MotorDriver/app/motor_app.cpp:269-299 | The same from any state that satisfies the invariant: safety is kept by every run, however long its passes take |
| `AppSafety.TimelyRunSafe` | MotorDriver/app/motor_app.cpp:269-299 | The bound on the true age from any such state whose lease is true |
| `AppSafety.PassSafe` | MotorDriver/app/motor_app.cpp:269-299 | One pass of the main loop, of any length, keeps the invariant and ends safe |
| `AppSafety.WatchdogDecides` | MotorDriver/app/motor_app.cpp:106-128 | With an active command and a true lease, looking no more than 0xFFFF0000 ms after its last look, the watchdog is already armed, so the late-arming branch is unreachable; it trips if and only if the lease is older than the timeout, and otherwise changes nothing but the time it last looked |
| `AppSafety.WatchdogMeasuresModulo` | MotorDriver/app/motor_app.cpp:120-127 | Without any limit on the gap between looks: it trips exactly when the age of the lease modulo 2^32 ms exceeds the timeout, and so decides by the true age if and only if that age is within the timeout or still exceeds it after the wrap |
| `AppSafety.StalledLoopMissesTrip` | MotorDriver/app/motor_app.cpp:120-127 | A loop stalled for exactly 2^32 ms after a lease misses the trip |
| `AppStall.StalledRunKeepsDriving` | MotorDriver/app/motor_app.cpp:245-299 | Such a run from power-on: one I2C write of RUN, duty 50, direction 0, one pass lasting 2^32 ms, and bridge 1 is driven in reverse at 12800 under a lease that old with a timeout of one second |
| `AppSafety.CheckKeeps` | MotorDriver/app/motor_app.cpp:106-128 | The watchdog keeps the invariant and leaves every active supervised command within its timeout, measured modulo 2^32 |
| `AppSafety.TimelyCheck` | MotorDriver/app/motor_app.cpp:106-128 | and within it in true time when it last looked no more than 0xFFFF0000 ms ago |
| `AppSafety.ControlKeeps` | MotorDriver/app/motor_app.cpp:284-292 | Running both controllers keeps the invariant, moves neither the lease nor what it protects, and leaves no closed-loop motor without an encoder scale with an output |
| `AppSafety.OutputsKeep` | MotorDriver/app/motor_app.cpp:294-298 | Applying the outputs leaves each bridge doing what registers and controller say, and the state safe |
| `AppSafety.InputsKeep` | MotorDriver/app/motor_app.cpp:269-282 | Everything that may arrive in a pass before the watchdog looks keeps the invariant |
| `AppSafety.ExpiredPassCoasts` | MotorDriver/app/motor_app.cpp:106-128 | A pass whose watchdog finds the lease older than the timeout, modulo 2^32 ms, ends with both bridges coasting, both modes coast, both timeout flags and the fault bit set |
| `AppSafety.BusTripPassCoasts` | MotorDriver/app/motor_app.cpp:276-281 | So does a pass in which the I2C bus had to be recovered |
| `AppSafety.StartIsIdle` | MotorDriver/app/motor_app.cpp:245-267 | Initialisation ends with nothing commanded, nothing pending and the invariant established |
| `AppHistory.PassesExtend` | MotorDriver/app/motor_app.cpp:269-299 | Every run is a sequence of register operations: the registers after it are those operations applied in order |
| `AppHistory.CoastSurvivesPasses` | MotorDriver/protocol/register_map.cpp:496-502 | After any coast, forced or commanded, a motor stays at coast and inactive through every later pass unless a committed write gave it another mode |
| `AppHistory.FaultSurvivesPasses` | MotorDriver/protocol/register_map.cpp:555-563 | The watchdog fault bit survives every later pass unless a committed write clears it |
| `AppTraffic.LineDelivers` | MotorDriver/app/motor_app.cpp:197-223 | Any list of well-formed requests sent over a line with noise between them acts on the application exactly as the requests handled one by one, in order, each at the time its last byte arrived |
| `AppDelivery.FramesCommitOnce` | MotorDriver/app/motor_app.cpp:197-241 | Frames with noise between them, cut into passes anywhere, also inside a frame, while the bus writes too: each accepted write of the line is committed exactly once in the order sent, interleaved with exactly the accepted writes of the bus in the order queued, nothing else is, and the parser ends idle |
| `AppDelivery.FramesAlone` | MotorDriver/app/motor_app.cpp:197-223 | Without bus writes the accepted writes of the line are all there is |
| `AppDelivery.RunInterleaves` | MotorDriver/app/motor_app.cpp:269-299 | For any bytes and any queued writes: the writes of a run are those the received frames ask for, in their order, interleaved with the accepted ones from the bus, in theirs |
| `AppDelivery.RunCommits` | MotorDriver/app/motor_app.cpp:269-299 | Over any run the registers are written by exactly the accepted writes of each pass, in order and once each, and the parser stands where all the bytes together lead it |
| `AppDelivery.CutsDoNotMatter` | MotorDriver/app/motor_app.cpp:197-223 | However bytes are cut into passes the parser reports the same events, each in the pass in which its last byte arrives |
| `AppDelivery.PassCommits` | MotorDriver/app/motor_app.cpp:269-299 | One pass commits exactly the accepted writes among its inputs, the line before the bus |
| `AppLinks.SystemDelivers` | MotorDriver/app/motor_app.cpp:197-241 | Receive ring, I2C queue and main loop together, under any interleaving of interrupts and passes from power-on: the application acts on exactly the accepted bytes but those still in the ring and the completed transactions but those dropped, lost or still queued, its registers are written by exactly the accepted frames of the delivered bytes and the accepted writes taken from the bus, each in its order, interleaved, and every bridge is safe |
| `AppLinks.StepHolds` | MotorDriver/app/motor_app.cpp:269-299 | Every interrupt and every pass keeps the books of both links and the application in step |
| `AppTraffic.FrameActsOnce` | MotorDriver/app/motor_app.cpp:197-223 | The bytes of one request act once, when the last of them arrives |
| `AppTraffic.OnlyFramesAct` | MotorDriver/protocol/serial_protocol.cpp:11-89 | Bytes that complete no frame leave everything except time and the parser as it was |
| `AppTraffic.CorruptFrameIgnored` | MotorDriver/protocol/serial_protocol.cpp:64-83 | A frame with its register, a data byte or its CRC changed changes no register, renews no lease and leaves the parser idle |
| `AppTraffic.LeaseNeedsTraffic` | MotorDriver/app/motor_app.cpp:76-104 | A received byte renews the lease only by completing an accepted write, or an empty heartbeat while a command is active and not timed out |
| `AppFrames.ControlOneMotor` | MotorDriver/control/motor_control.cpp:377-551 | A control step of one motor moves nothing but that motor's output, leaves activity and the watchdog setting alone, and unless it reports a change leaves its own bridge command alone |
| `AppFrames.ReportingRunKeepsDecisions` | MotorDriver/protocol/register_map.cpp:173-209 | Encoder, measured-speed and telemetry updates change no register that decides activity, the watchdog or the bridges |
| `MotorApp.MotorApp.constructor` | MotorDriver/app/motor_app.cpp:18-30 | The statically allocated application before initialisation |
| `MotorApp.MotorApp.Init` | MotorDriver/app/motor_app.cpp:245-267 | Address, derived registers and encoder readings go into the register file, both outputs are switched off and nothing is pending |
| `MotorApp.MotorApp.TickFromIsr` | MotorDriver/app/motor_app.cpp:301-304 | One millisecond of true time; the wrapped clock follows it |
| `MotorApp.MotorApp.SyncEncoderRegisters` | MotorDriver/app/motor_app.cpp:136-178 | Encoder readings, oriented and converted to rpm, go into the registers and to the controllers |
| `MotorApp.MotorApp.HandleEncoderControl` | MotorDriver/app/motor_app.cpp:180-195 | Says which encoders a request resets, clears the request and stores the readings after it |
| `MotorApp.MotorApp.RefreshWatchdogLeaseFromWrite` | MotorDriver/app/motor_app.cpp:76-87 | A committed write ends a timeout, marks outputs pending and starts a lease if a command is active |
| `MotorApp.MotorApp.RefreshWatchdogLeaseFromKeepalive` | MotorDriver/app/motor_app.cpp:98-104 | A heartbeat renews the lease of an active, unexpired command and does nothing else |
| `MotorApp.MotorApp.CheckWatchdog` | MotorDriver/app/motor_app.cpp:106-128 | One look of the watchdog: disarm, arm, or trip, as the state machine says |
| `MotorApp.MotorApp.ProcessSerialRx` | MotorDriver/app/motor_app.cpp:197-223 | Draining the received bytes equals handling them one after the other |
| `MotorApp.MotorApp.ProcessI2cWrites` | MotorDriver/app/motor_app.cpp:225-241 | Draining the queued writes equals handling them one after the other |
| `MotorApp.MotorApp.Process` | MotorDriver/app/motor_app.cpp:269-299 | One pass in place equals one pass of the state machine, in the order of the source |
| `SerialFrame.StepSound` | MotorDriver/protocol/serial_protocol.cpp:11-89 | One byte keeps the running CRC equal to the checksum of the bytes since the start byte; a frame is reported only when those bytes and this one are its exact encoding, a CRC error only when the CRC is wrong |
| `SerialFrame.StreamSound` | MotorDriver/protocol/serial_protocol.cpp:11-89 | Over every byte stream: CRC exact, payload inside its 32-byte buffer, and the pending bytes are the end of what was received |
| `SerialFrame.FramesAreReal` | MotorDriver/protocol/serial_protocol.cpp:64-83 | A reported frame is well formed and the stream really ends with its encoding |
| `SerialFrame.DecodeAll` | MotorDriver/protocol/serial_protocol.cpp:11-149 | Any list of well-formed frames with noise between them is reported exactly once each, in order, ending in the wait for a start byte |
| `SerialFrame.CorruptionIsDropped` | MotorDriver/protocol/serial_protocol.cpp:64-83 | Changing the register, any data byte or the CRC of a frame of any payload length makes the parser drop it |
| `SerialFrame.OnlyWritesChangeRegisters` | MotorDriver/protocol/serial_protocol.cpp:101-149 | Registers change only on an accepted write frame and then by that write alone; only heartbeats keep alive |
| `SerialProtocol.SerialProtocol.ProcessByte` | MotorDriver/protocol/serial_protocol.cpp:11-89 | The parser on its fields and buffer takes the specified step; registers, reply and flags follow the reported event |
| `SerialProtocol.SerialProtocol.HandleFrame` | MotorDriver/protocol/serial_protocol.cpp:101-149 | Heartbeat, read, write and unknown commands: registers, reply bytes and flags in every case, errors included |
| `SerialProtocol.SerialProtocol.BuildResponse` | MotorDriver/protocol/serial_protocol.cpp:151-178 | The reply in the buffer is header with the top bit of the command set, payload, and the checksum of both |
| `Crc8.Crc8Update` | MotorDriver/protocol/serial_protocol.cpp:188-201 | The bit loop computes the shift-register update |
| `Crc8.SerialCrc8` | MotorDriver/protocol/serial_protocol.cpp:203-216 | The checksum of a byte string, computed in a loop |
| `ShiftRegister.AbsorbDetectsByte` | MotorDriver/protocol/serial_protocol.cpp:188-201 | For both checksums the update is injective in the byte |
| `ShiftRegister.AbsorbKeepsDifference` | MotorDriver/protocol/serial_protocol.cpp:188-201 | and in the register, so a difference survives every later byte |
| `ShiftRegister.AbsorbAllDetectsOneByte` | gugaPI/app/config_store.cpp:402-422 | So from any initial value a change confined to one byte changes the register |
| `Crc8.ChecksumDetectsOneByte` | MotorDriver/protocol/serial_protocol.cpp:203-216 | Any change confined to one byte of a message changes its checksum |
| `ShiftRegister.ShiftsInjective` | MotorDriver/protocol/serial_protocol.cpp:188-201 | For any width and any odd polynomial, no two register contents shift to the same one |
| `RegisterInvariants.ReachableWellFormed` | MotorDriver/protocol/register_map.cpp:77-256 | Every sequence of public operations keeps the four status registers equal to their recomputation and modes, duties, directions and flags in range |
| `RegisterInvariants.InitialWellFormed` | MotorDriver/protocol/register_map.cpp:5-53 | The power-on register file is well formed, inactive and coasting |
| `RegisterInvariants.RefreshedConsistent` | MotorDriver/protocol/register_map.cpp:135-171 | Recomputing the status registers settles in one step and leaves activity alone |
| `RegisterInvariants.CommitEffect` | MotorDriver/protocol/register_map.cpp:77-117 | An accepted write puts each payload byte where it was sent, fault flags being write-1-to-clear, and touches nothing else apart from status and what a new mode clears |
| `RegisterInvariants.CommitLeavesReadOnly` | MotorDriver/protocol/register_map.cpp:565-676 | An accepted write cannot cover, and does not change, identity, encoder, measured, hold, position-error or telemetry registers |
| `RegisterInvariants.NormalizedMode` | MotorDriver/protocol/register_map.cpp:504-553 | Normalising after a write keeps a motor's mode or coasts it |
| `RegisterInvariants.CoastLatch` | MotorDriver/protocol/register_map.cpp:496-502 | Over any operations a coasting motor stays coasting until a committed write sets a non-coast mode |
| `RegisterInvariants.FaultLatch` | MotorDriver/protocol/register_map.cpp:555-563 | Over any operations the fault bit survives everything but a committed write of 1 to it |
| `RegisterInvariants.CoastOnTimeoutEffect` | MotorDriver/protocol/register_map.cpp:125-133 | A forced coast coasts both motors, sets the fault bit and the timeout, and leaves no active command |
| `RegisterInvariants.LoadAfterStore32` | MotorDriver/protocol/register_map.cpp:438-479 | A stored 32-bit register pair reads back as the value stored |
| `RegisterMap.RegisterMap.CommitWrite` | MotorDriver/protocol/register_map.cpp:77-117 | All or nothing: a rejected payload changes nothing, an accepted one gives the merged, normalised, refreshed file; says whether a control register was covered |
| `RegisterMap.RegisterMap.StageWrite` | MotorDriver/protocol/register_map.cpp:555-676 | Validation against a copy, byte by byte: accepted exactly when every byte is allowed |
| `RegisterMap.RegisterMap.NormalizeControlState` | MotorDriver/protocol/register_map.cpp:504-553 | What a written mode or a cleared enable drops |
| `RegisterMap.RegisterMap.RefreshStatus` | MotorDriver/protocol/register_map.cpp:135-171 | The in-place refresh equals the recomputation |
| `RegisterMap.RegisterMap.HasActiveCommand` | MotorDriver/protocol/register_map.cpp:273-301 | True exactly when an enabled, unexpired motor has a mode and duty that may drive its bridge |
| `RegisterMap.RegisterMap.ForceCoastOnTimeout` | MotorDriver/protocol/register_map.cpp:125-133 | Both motors cleared, fault bit set, timeout set, status refreshed |
| `RegisterMap.RegisterMap.ReadBlock` | MotorDriver/protocol/register_map.cpp:64-75 | A block inside the file is copied, any other range refused |
| `SpeedRamp.RampIsExact` | MotorDriver/control/motor_control.cpp:83-132 | After any calls the ramped target is start plus or minus floor((rate * total time + carried remainder) / 1000), less the whole multiples of 2^32 that the 32-bit step cut off, capped at the request: nothing else about the way time was split matters and it never overshoots |
| `SpeedRamp.RampIgnoresSplitting` | MotorDriver/control/motor_control.cpp:83-132 | The target depends on the total time alone if and only if no step was cut or what is left still covers the distance |
| `SpeedRamp.CutOffIsOwed` | MotorDriver/control/motor_control.cpp:112-120 | What is cut off is whole multiples of 2^32 and nothing while the total owed is below 2^32 |
| `SpeedRamp.RampArrives` | MotorDriver/control/motor_control.cpp:83-132 | The request is reached if and only if rate times total time plus the remainder covers the distance and what was cut off |
| `SpeedRamp.LongPauseStep` | MotorDriver/control/motor_control.cpp:112-120 | One call takes the ideal step if and only if that step fits 32 bits or its low 32 bits still cover the distance |
| `SpeedRamp.LongPauseStalls` | MotorDriver/control/motor_control.cpp:112-120 | A pause that breaks it: 131072 s at 32768 rpm/s moves the target not at all |
| `SpeedRamp.AdvanceOnce` | MotorDriver/control/motor_control.cpp:83-132 | One call moves by the low 32 bits of the whole-rpm step owed and carries the exact remainder |
| `ControlSpec.ControlKeepsRange` | MotorDriver/control/motor_control.cpp:377-551 | Every control step keeps both integrals and the output duty within their limits |
| `ControlSpec.SpeedDutyInBand` | MotorDriver/control/motor_control.cpp:134-159 | A speed duty is zero or lies between min(min, max) and max, in 1/256 percent |
| `ControlSpec.PositionDutyMonotone` | MotorDriver/control/motor_control.cpp:242-271 | The position duty never falls when the commanded speed rises, despite the rounded division |
| `ControlSpec.PositionDuty` | MotorDriver/control/motor_control.cpp:242-271 | The position duty is zero or stays in its band |
| `PositionLaw.DrivesTowardTarget` | MotorDriver/control/motor_control.cpp:318-372 | Under proportional control, away from the target, the position law drives toward it if and only if the error is positive or large enough to give a command of its own; a smaller negative error is corrected forwards |
| `PositionLaw.DrivesByDemand` | MotorDriver/control/motor_control.cpp:318-372 | With any gains and any history it drives toward the target if and only if the three terms together have the sign of the error |
| `PositionLaw.SmallErrorDrivesAway` | MotorDriver/control/motor_control.cpp:343-355 | The wrong way happens: gain 1 and tolerance 10 written over the power-on registers, position mode, a motor at rest 20 counts past its target, and the second control step drives it on forwards |
| `PositionLaw.TermSign` | MotorDriver/control/motor_control.cpp:205-216 | A truncated gain term is negative exactly when the error is negative and error * gain * 60 reaches the counts per revolution |
| `AppSpec.RpmIsNearest` | MotorDriver/app/motor_app.cpp:42-66 | Unless it saturates, the measured speed is the nearest whole rpm |
| `ControlSpec.GainIsProduct` | MotorDriver/control/motor_control.cpp:205-216 | A gain applied as repeated addition is the product |
| `MotorControl.SpeedPid.AdvanceControlTarget` | MotorDriver/control/motor_control.cpp:83-132 | The ramp in place equals the specified step |
| `MotorControl.SpeedPid.UpdateSpeedMotor` | MotorDriver/control/motor_control.cpp:377-551 | One control step in place: state, reported change and register operations as specified, in every mode |
| `MotorControl.SpeedPid.UpdatePositionMotor` | MotorDriver/control/motor_control.cpp:273-375 | Position and hold control in place |
| `MotorControl.SpeedPid.UpdateSpeedLoop` | MotorDriver/control/motor_control.cpp:440-551 | The speed law in place: ramp, proportional, integral and derivative terms, anti-windup, limits |
| `MotorApp.MotorApp.Apply` | MotorDriver/control/motor_control.cpp:553-652 | Each bridge is stopped or set from mode, duty and direction |
| `QuadratureEncoder.UnwrapExact` | MotorDriver/drivers/quadrature_encoder.cpp:231-251 | The 16-bit difference is the true movement if and only if that movement fits a signed 16-bit value |
| `QuadratureEncoder.CountIsNetMovement` | MotorDriver/drivers/quadrature_encoder.cpp:231-251 | Across any number of counter wraps the count changes by the signed net movement |
| `QuadratureEncoder.RoundedQuotientIsNearest` | MotorDriver/drivers/quadrature_encoder.cpp:91-133 | The speed is rounded to the nearest count per second |
| `QuadratureEncoder.Encoder.SyncQeiCounter` | MotorDriver/drivers/quadrature_encoder.cpp:231-251 | After a read the count is the signed movement since the last reset if and only if the shaft moved by less than half the counter range since the last read |
| `QuadratureEncoder.Encoder.UpdateSample` | MotorDriver/drivers/quadrature_encoder.cpp:91-133 | A sample is taken exactly when the 32-bit clock shows 10 ms; the speed becomes the rounded count change over the time of the last one to three intervals, that time modulo 2^32 ms, for gaps of any length |
| `QuadratureEncoder.SpeedIsTimed` | MotorDriver/drivers/quadrature_encoder.cpp:103-131 | The time used is the true one if and only if the intervals together are shorter than 2^32 ms, and then the speed is right |
| `QuadratureEncoder.LongGapMisreads` | MotorDriver/drivers/quadrature_encoder.cpp:103-131 | Beyond that it is not: 1000 counts in 2^32 + 1000 ms read as 1000 counts per second |
| `QuadratureEncoder.GapsCancel` | MotorDriver/drivers/quadrature_encoder.cpp:103-131 | and three gaps, each taken as a sample, can add up to a divisor of zero |
| `QuadratureEncoder.Encoder.WindowSpansSamples` | MotorDriver/drivers/quadrature_encoder.cpp:91-133 | The running sums always equal the sum of the live ring entries and span the last one to three intervals, the time modulo 2^32 ms |
| `QuadratureEncoder.Encoder.ReplaceEntry` | MotorDriver/drivers/quadrature_encoder.cpp:107-125 | Replacing the oldest entry keeps the sums exact |
| `QuadratureEncoder.Encoder.Process` | MotorDriver/drivers/quadrature_encoder.cpp:270-282 | The main-loop step reads the counter, exact under that same condition, and adds the sample and its speed when one is due; a disabled encoder keeps count, speed and samples |
| `QuadratureEncoder.Encoder.GetSnapshot` | MotorDriver/drivers/quadrature_encoder.cpp:331-350 | A snapshot between samples reads the exact count, under that same condition, and the last speed; a disabled encoder reports the count at which it stopped |
| `QuadratureEncoder.Encoder.Reset` | MotorDriver/drivers/quadrature_encoder.cpp:320-329 | The present position becomes zero and sampling starts over |
| `QuadratureEncoder.Encoder.SetEnabled` | MotorDriver/drivers/quadrature_encoder.cpp:284-314 | Enabling again keeps the count and takes up the counter where it stands |
| `UartLink.RingDelivers` | MotorDriver/drivers/uart_link.cpp:13-34 | For any interleaving of interrupt and main loop: delivered bytes are the accepted ones in order, accepted plus dropped is received, at most size - 1 are held |
| `UartLink.RunConserves` | MotorDriver/drivers/uart_link.cpp:120-146 | The same conservation kept by every run from any consistent state |
| `UartLink.UartLink.PushRxFromIsr` | MotorDriver/drivers/uart_link.cpp:23-34 | A byte is appended, or counted as dropped when the ring is full |
| `UartLink.UartLink.ReadByte` | MotorDriver/drivers/uart_link.cpp:120-130 | Takes the oldest byte, if any |
| `UartLink.UartLink.RxAvailable` | MotorDriver/drivers/uart_link.cpp:132-146 | The number of bytes held |
| `UartLink.UartLink.Init` | MotorDriver/drivers/uart_link.cpp:52-78 | A configuration without peripheral, buffer or transmit timeout, or with a buffer of fewer than two bytes, is refused and changes nothing |
| `I2cTarget.BusDelivers` | MotorDriver/board/board_i2c_target.cpp:282-306 | For any interleaving the main loop gets the completed transactions of 1 to 32 data bytes whole, in order and once each, minus those counted as dropped or lost to recovery; the error word tells of every drop and recovery, and reads go on from the register the last transaction selected, stopping at 255 |
| `I2cTarget.BusDeliversFromPowerOn` | MotorDriver/board/board_i2c_target.cpp:182-199 | and so from initialisation |
| `I2cTarget.QueuesCompleteWrites` | MotorDriver/board/board_i2c_target.cpp:89-110 | At STOP exactly the complete transactions are queued, or counted when the queue is full; never a partial oversized one |
| `I2cTarget.StoreAllMirrors` | MotorDriver/board/board_i2c_target.cpp:65-87 | The receive buffer is the first 33 bytes of the transaction, and the overflow mark says whether there were more |
| `I2cTarget.I2cTarget.StoreRxByte` | MotorDriver/board/board_i2c_target.cpp:65-78 | One received byte in place: the first selects the register, the 34th and later mark overflow and set its error bit |
| `I2cTarget.I2cTarget.ReadSelectedRegister` | MotorDriver/board/board_i2c_target.cpp:42-52 | The register whose byte is sent next, moving on by one up to 255 |
| `I2cTarget.I2cTarget.QueueWriteFromRx` | MotorDriver/board/board_i2c_target.cpp:89-110 | Queueing in place over head, tail and count; a full queue counts the drop and sets its error bit |
| `I2cTarget.I2cTarget.TakeWrite` | MotorDriver/board/board_i2c_target.cpp:225-252 | Takes the oldest queued write |
| `I2cTarget.I2cTarget.OnStart` | MotorDriver/board/board_i2c_target.cpp:285-289 | At START what was still in the receive FIFO is taken and the transaction begins anew |
| `I2cTarget.I2cTarget.OnStop` | MotorDriver/board/board_i2c_target.cpp:302-306 | At STOP the rest of the FIFO is taken, a complete write queued and the transaction ended |
| `I2cTarget.I2cTarget.RecoverTargetPeripheral` | MotorDriver/board/board_i2c_target.cpp:157-177 | Recovery forgets the transaction and everything queued, is counted and sets its error bit |
| `FocVector.LimitExact` | FOC/motor_open_loop.c:123-146 | The limited vector leaves the circle of radius 40960 if and only if one axis of the request is 40960 and the other one unit |
| `FocVector.LimitedInCircle` | FOC/motor_open_loop.c:123-146 | It is inside whenever it was scaled and never more than one squared unit outside |
| `FocVector.LimitSlackIsReal` | FOC/motor_open_loop.c:123-146 | The extra unit is real: (40960, 1) passes unscaled and lies one squared unit outside |
| `FocVector.LimitedKeepsDirection` | FOC/motor_open_loop.c:123-146 | The limiter never turns an axis around and never enlarges it |
| `FocVector.MagnitudeCovers` | FOC/motor_open_loop.c:127-134 | Above the limit max + min/2 is no smaller than the true magnitude, unless the shorter axis is one unit |
| `FocVector.SineCosineInCircle` | FOC/motor_open_loop.c:183-199 | For every angle the table's sine and cosine lie inside the unit circle |
| `FocVector.LimitedVoltage` | FOC/motor_open_loop.c:795-825 | After the limiter and the floor shift the vector has magnitude at most 162 |
| `FocVector.RotatedInBounds` | FOC/motor_open_loop.c:259-267 | Rotation by any angle keeps both stationary axes within that magnitude |
| `FocVector.InjectionCentres` | FOC/motor_open_loop.c:231-257 | Min/max injection centres the phases within one count and keeps every line-to-line difference |
| `FocVector.CurrentLoopNeverClamps` | FOC/motor_open_loop.c:201-267 | For every request and every angle the +-200 clamp never fires, so the compare values keep exactly the line-to-line differences of the unclamped phases |
| `FocVector.ComparesInPeriod` | FOC/motor_open_loop.c:201-229 | Compare values always lie inside the PWM period |
| `FocMotion.AngleFollowsRun` | FOC/motor_open_loop.c:544-582 | After an alignment, through any events but another alignment or an initialisation, the electrical angle is 56 * (position - start) mod 65536 for the shaft position last read, through every encoder wrap |
| `FocMotion.TrackedRun` | FOC/motor_open_loop.c:607-704 | Over every run the angle is that of the last reading and the offset the one the last alignment left |
| `FocMotion.AngleIsContinuous` | FOC/motor_open_loop.c:607-704 | From one reading to the next the angle moves by 56 units per count of movement, also where the encoder wraps |
| `FocMotion.SampleIsTaken` | FOC/motor_open_loop.c:607-645 | A valid sample is taken up unless the motor runs and the tick is the last sample's |
| `FocAngle.AngleFollowsShaft` | FOC/motor_open_loop.c:544-582 | The arithmetic behind it: offset and angle computed from two readings give 56 units per count between them, modulo one electrical turn |
| `FocAngle.WrapErrorIsUnique` | FOC/motor_open_loop.c:172-181 | The wrapped difference is the one residue in [-8192, 8191] |
| `FocAngle.DifferenceIsMovement` | FOC/motor_open_loop.c:172-181 | It is the true movement if and only if the shaft turned less than half a turn |
| `FocAngle.MovementTelescopes` | FOC/motor_open_loop.c:607-704 | Differences of successive samples add up to the net movement |
| `FocAngle.ApproachArrives` | FOC/motor_open_loop.c:155-170 | Held at one target the filter moves monotonically, never overshoots and arrives exactly in finitely many steps |
| `FocAngle.FinalSteps` | FOC/motor_open_loop.c:155-170 | It takes steps of one count exactly below a difference of sixteen, and stands still only on its target |
| `FocSafety.RunKeeps` | FOC/motor_open_loop.c:466-857 | Through any sequence of entry points and interrupts: half-bridges enabled exactly in ALIGNING and RUNNING, RUNNING only with a ready encoder, no stop reason while active, current reference, integrals and target within their limits, fewer than three trips pending |
| `FocSafety.InitializeEstablishes` | FOC/motor_open_loop.c:466-487 | Initialisation establishes that invariant from any contents of memory |
| `FocSafety.ThirdSampleTrips` | FOC/motor_open_loop.c:728-745 | A sample makes an active motor report overcurrent if and only if it is over the limit and the third in a row; then state, phases and torque reference are off in the same call |
| `FocSafety.CounterIsStreak` | FOC/motor_open_loop.c:728-745 | While the motor stays active the counter is the number of consecutive over-limit samples, whatever comes between them |
| `FocSafety.OverLimitStops` | FOC/motor_open_loop.c:728-745 | Three consecutive over-limit samples end in FAULT with the phases off |
| `FocSafety.StaleEncoderStops` | FOC/motor_open_loop.c:751-756 | A running motor whose encoder is older than 100 ticks stops in that very call |
| `FocSafety.FaultLatches` | FOC/motor_open_loop.c:596-605 | FAULT lasts, phases off and no torque requested, until a stop, a clear or a re-initialisation |
| `FocSafety.OffUntilAligned` | FOC/motor_open_loop.c:521-542 | The half-bridges come on only by beginning an alignment |
| `FocSafety.NotRunningUntilAligned` | FOC/motor_open_loop.c:544-582 | Closed-loop operation begins only by finishing an alignment |
| `FocMotion.RunningOutputIsExact` | FOC/motor_open_loop.c:758-825 | Every current sample that keeps the motor running drives it, at the predicted angle the state reports, with the exact line voltages of the voltage the current controllers request, put inside the circle |
| `FocMotion.CurrentArithmeticFits` | FOC/motor_open_loop.c:776-825 | For every 12-bit reading the transforms, the controller products and the inverse transforms fit 32 bits |
| `FocMotion.CommonModeRejected` | FOC/motor_open_loop.c:776-793 | A current common to all three phases moves the measured vector by at most one unit |
| `FocMotion.PositionSpeedPoints` | FOC/motor_open_loop.c:416-437 | The position loop's speed command points at the target, is zero exactly in the direct zone, is odd and bounded |
| `FocMotion.PositionSpeedMonotone` | FOC/motor_open_loop.c:416-437 | and never falls as the error grows |
| `FocMotion.MovedTargetIsModular` | FOC/motor_open_loop.c:902-924 | Moving the target by degrees is exact modulo one revolution |
| `FocMotion.FullTurnsReturn` | FOC/motor_open_loop.c:902-924 | Whole turns bring the target back |
| `FocMotion.WindowIsNetMovement` | FOC/motor_open_loop.c:607-704 | Inside one speed window the accumulator is the net movement and the true time, however many samples there were and wherever the encoder wrapped |
| `FocMotion.ClosedWindowSpeed` | FOC/motor_open_loop.c:646-705 | A closing window moves the speed one filter step toward net movement over true time |
| `MotorFoc.MotorFoc.LimitDqVoltageVector` | FOC/motor_open_loop.c:123-146 | The limiter as the source computes it equals its specification |
| `MotorFoc.MotorFoc.ApplyAlphaBetaVoltage` | FOC/motor_open_loop.c:231-257 | Inverse Clarke, injection and compare write in place |
| `MotorFoc.MotorFoc.ControlCurrent` | FOC/motor_open_loop.c:795-823 | Both current controllers with conditional integration, in place |
| `MotorFoc.MotorFoc.CurrentLoopIsr` | FOC/motor_open_loop.c:706-826 | The current interrupt in place: trip, stale-encoder stop or regulation; keeps the invariant |
| `MotorFoc.MotorFoc.OnEncoderSample` | FOC/motor_open_loop.c:607-704 | The encoder handler in place; keeps the invariant |
| `MotorFoc.MotorFoc.UpdateSpeedController` | FOC/motor_open_loop.c:356-414 | The speed loop in place |
| `MotorFoc.MotorFoc.UpdatePositionController` | FOC/motor_open_loop.c:416-437 | The position loop in place |
| `MotorFoc.MotorFoc.SetTargetRpm` | FOC/motor_open_loop.c:439-464 | Setting the target clamps it and keeps the invariant |
| `MotorFoc.MotorFoc.BeginAlignment` | FOC/motor_open_loop.c:521-542 | Alignment begins only from STOPPED without a driver fault |
| `MotorFoc.MotorFoc.FinishAlignment` | FOC/motor_open_loop.c:544-582 | Alignment ends in RUNNING, or in FAULT when it was not running or the driver reports a fault |
| `MotorFoc.MotorFoc.EmergencyStop` | FOC/motor_open_loop.c:596-605 | FAULT, phases off, torque reference zero, encoder not ready |
| `MotorFoc.MotorFoc.Stop` | FOC/motor_open_loop.c:584-594 | STOPPED with everything reset |
| `MotorFoc.MotorFoc.Initialize` | FOC/motor_open_loop.c:466-487 | Initialisation in place |
| `MotorFoc.MotorFoc.ClearStopReason` | FOC/motor_open_loop.c:849-857 | A stop reason is cleared unless running, and a FAULT becomes STOPPED |
| `MotorFoc.MotorFoc.Reverse` | FOC/motor_open_loop.c:864-875 | The target changes sign, or becomes one step backwards from rest |
| `MotorFoc.MotorFoc.AdjustTargetRpm` | FOC/motor_open_loop.c:859-862 | The target moves by a step, clamped, and the invariant is kept |
| `MotorFoc.MotorFoc.EnterPositionMode` | FOC/motor_open_loop.c:877-892 | Position control starts only while running with a ready encoder, aimed at the present position |
| `MotorFoc.MotorFoc.EnterSpeedMode` | FOC/motor_open_loop.c:894-900 | Back to speed control with target zero |
| `MotorFoc.MotorFoc.AdjustTargetPositionDegrees` | FOC/motor_open_loop.c:902-924 | While running under position control the target moves by the given degrees, modulo one revolution, and both loops are refreshed |
| `MotorFoc.MotorFoc.EnableAdcTrigger` | FOC/motor_open_loop.c:489-519 | The compare values are neutral and nothing else changes |
| `ActionSafety.RunsKeep` | gugaPI/app/action.cpp:1662-1842 | For every program and every run, started, updated and cancelled in any order under any conditions: the chassis moves only for a started motion instruction or a preserved road manoeuvre on the way into LOOP or ROAD_NAV; a run that ended left motion stopped, counters zero and nothing preserved; the position stays inside the table; loops tally |
| `ActionSafety.UpdateKeeps` | gugaPI/app/action.cpp:1709-1842 | One update keeps motion contained |
| `ActionSafety.UpdateCounts` | gugaPI/app/action.cpp:1771-1790 | One update keeps, for every LOOP of count N: body jumps = N * exit jumps + counter, 0 <= counter <= N |
| `ActionNesting.NestedLoops` | gugaPI/app/action.cpp:1662-1842 | In every run, from the first start on and at every moment, of any program whose jumps nest one loop in another: the inner body was entered inner count * (outer count * outer exits + outer counter) + inner counter times, less one inner count for a pass under way; so exactly the product of the counts per exit whenever the outer loop stands at zero |
| `ActionNesting.ChainOfLoops` | gugaPI/app/action.cpp:1662-1842 | The same for loops nested to any depth: each body was entered as often as the counters say, and outside the outermost body exactly the product of the inner counts times the turns of the outermost loop |
| `ActionNesting.ThreeDeepNests` | gugaPI/app/action.cpp:1771-1790 | The usual program of three loops is such a chain |
| `ActionNesting.NestingKept` | gugaPI/app/action.cpp:1709-1842 | Through updates, starts and cancels the inner loop was left once for each entry of the outer body but one under way, and stands at zero outside that body |
| `ActionNesting.UsualShapeNests` | gugaPI/app/action.cpp:1771-1790 | The usual program of an outer loop, an inner loop and the way back is nested in this sense |
| `ActionSafety.CapEndsRun` | gugaPI/app/action.cpp:1709-1842 | The first update past the sequence cap ends the run with everything stopped |
| `ActionSafety.StartKeeps` | gugaPI/app/action.cpp:1662-1697 | A run starts only for a valid program and without a fault, and starts contained |
| `ActionSafety.CancelKeeps` | gugaPI/app/action.cpp:1699-1707 | Cancelling leaves everything stopped |
| `ActionSafety.FreshHolds` | gugaPI/app/action.cpp:1379-1402 | The interpreter before its first run satisfies the invariant |
| `ActionSafety.RetreatKeeps` | gugaPI/app/action.cpp:1793-1842 | A failed instruction stops everything before its recovery target is taken or the run ends |
| `ActionSafety.GotoPreserving` | gugaPI/app/action.cpp:405-425 | A jump with a preserved manoeuvre goes on or stops it |
| `ActionSafety.EndedKeeps` | gugaPI/app/action.cpp:368-401 | Both ways of ending leave motion, counters and preservation cleared |
| `ActionCondition.ConditionRoundTrip` | gugaPI/app/action.cpp:1524-1589 | An accepted condition reads back as it was added, if and only if it is a CONDITION or a waiting one: the two motion-until instructions always wait |
| `ActionRunner.LookOnceBecomesWait` | gugaPI/app/action.cpp:1524-1589 | One that does not: a DRIVE_IF with a condition to be looked at once is accepted and stored as one to wait for |
| `ActionCondition.PackedFormIsUnique` | gugaPI/app/action.cpp:1291-1326 | Every instruction that decodes is the packed form of what it decodes to |
| `ActionCondition.WaitSucceedsExactly` | gugaPI/app/action.cpp:640-683 | A whole wait, from its first look: the next look ends it in success if and only if the condition is true and has been true at every look for at least the stable time |
| `ActionCondition.WatchTracks` | gugaPI/app/action.cpp:640-683 | While it goes on the window remembers exactly when the unbroken run of true looks began |
| `ActionCondition.SuccessMeansStable` | gugaPI/app/action.cpp:640-683 | The same for one look from any window that remembers it |
| `ActionCondition.LookTracks` | gugaPI/app/action.cpp:640-683 | A look that goes on waiting remembers exactly when the unbroken run of true looks began |
| `ActionCondition.SuffixIsTrue` | gugaPI/app/action.cpp:640-683 | All looks in that run were true |
| `ActionRunner.ActionRunner.AddInstr` | gugaPI/app/action.cpp:1424-1455 | An instruction is added exactly when no run is going on, the table has room and it is valid |
| `ActionRunner.ActionRunner.AddCompareInstr` | gugaPI/app/action.cpp:1524-1589 | What is stored decodes to the condition asked for; a condition out of range, a run going on, a full table and an invalid instruction are refused in that order, each with its status, and change nothing |
| `ActionRunner.ActionRunner.Validate` | gugaPI/app/action.cpp:1591-1632 | True exactly for valid programs; otherwise gives the index of the first bad entry |
| `ActionRunner.ActionRunner.Start` | gugaPI/app/action.cpp:1662-1697 | Starting in place |
| `ActionRunner.ActionRunner.Cancel` | gugaPI/app/action.cpp:1699-1707 | Cancelling in place |
| `ActionRunner.ActionRunner.Goto` | gugaPI/app/action.cpp:405-425 | A jump in place: next, a target, or the end of the run |
| `ActionRunner.ActionRunner.StepLoop` | gugaPI/app/action.cpp:1771-1790 | One turn of a counted loop in place |
| `ActionRunner.ActionRunner.Update` | gugaPI/app/action.cpp:1709-1842 | One turn of the interpreter in place equals one step of the state machine |
| `RobustCapture.CaptureIsRobust` | gugaPI/app/app_grayscale.cpp:309-333 | With at most one corrupted sample in eight, whatever it reads, the level lies within the range of the good samples and the noise is at most their spread |
| `RobustCapture.ToleranceIsTight` | gugaPI/app/app_grayscale.cpp:309-333 | At every count of samples and for every good reading with room above it, one corrupted sample more moves the level out of the range |
| `RobustCapture.SortedIsOrderedPermutation` | gugaPI/app/app_grayscale.cpp:294-307 | Sorting orders the samples and keeps every one |
| `RobustCapture.SortCaptureSamples` | gugaPI/app/app_grayscale.cpp:294-307 | The insertion sort in place sorts the first samples and leaves the rest |
| `RobustCapture.CalculateRobustCapture` | gugaPI/app/app_grayscale.cpp:309-333 | Level and noise are mean and spread of the samples left after sorting and trimming |
| `RobustCapture.RetainedInRange` | gugaPI/app/app_grayscale.cpp:309-333 | The counting argument: every retained sample is within the range of the good ones |
| `RobustCapture.ValidatePointCalibration` | gugaPI/app/app_grayscale.cpp:350-366 | The faulty channels are exactly those whose levels are not separated by span and noise |
| `RobustCapture.AcceptedBandsAreApart` | gugaPI/app/app_grayscale.cpp:350-366 | An accepted channel keeps all retained white samples at least 300 counts to one side of all retained black ones |
| `GrayscaleScan.FrameIsCoherent` | gugaPI/app/app_grayscale.cpp:492-565 | A published frame holds, for channels 1 to 6, the last six readings in order, for 0 and 7 readings seven and fourteen back by turns, and marks exactly the channels read for it |
| `GrayscaleScan.FrameEverySevenCalls` | gugaPI/app/app_grayscale.cpp:46-62 | While nothing fails there is one frame every seven calls after the first fourteen |
| `GrayscaleScan.UpdateKeeps` | gugaPI/app/app_grayscale.cpp:492-565 | Every scheduler call, failures included, keeps phase, masks and working values in step with the readings since the last failure |
| `GrayscaleScan.CompleteAtFrameEnd` | gugaPI/app/app_grayscale.cpp:523-526 | The test for a complete frame is true exactly after fourteen readings and then after every seventh |
| `GrayscaleScan.Scanner.Update` | gugaPI/app/app_grayscale.cpp:492-565 | The scheduler call in place |
| `GrayscaleScan.Scanner.MarkFailure` | gugaPI/app/app_grayscale.cpp:79-99 | A failure invalidates the frame and starts the scan over |
| `ConfigImage.SaveThenLoad` | gugaPI/app/config_store.cpp:1122-1290 | Loading what was saved restores exactly the saved parameters, for every valid configuration |
| `ConfigImage.PrefixMigrates` | gugaPI/app/config_store.cpp:719-924 | The prefix of a payload that a version from 7 to 15 stored decodes to the stored values of its fields and the defaults of the later ones |
| `ConfigImage.OlderImageLoads` | gugaPI/app/config_store.cpp:1145-1251 | An image of such a version, beside any infrared record, loads as those values, with the former default tracking mask replaced up to version 10 and the record used if it can be, or is refused if they are not valid |
| `ConfigImage.LoadWithExtension` | gugaPI/app/config_store.cpp:961-982 | Beside any infrared record whatever a saved main image loads its main fields; the infrared settings are the record's if header, checksum and resulting configuration are right, and otherwise the defaults, marked for saving |
| `ConfigImage.CorruptImageRefused` | gugaPI/app/config_store.cpp:1188-1210 | Changing any one byte of a saved main image makes loading refuse it |
| `ConfigImage.DefaultInfraredValid` | gugaPI/app/config_store.cpp:999-1074 | The default infrared settings never spoil a valid configuration |
| `ConfigCodec.RoundTrip` | gugaPI/app/config_store.cpp:607-924 | Fields written one after the other are read back as they were, whatever follows |
| `ConfigCodec.PrefixDecodes` | gugaPI/app/config_store.cpp:719-924 | A prefix cut where a field ends decodes to the first values |
| `ConfigCodec.EncodePayload` | gugaPI/app/config_store.cpp:607-717 | The cursor-driven writes put exactly the encoding into the buffer and leave the rest |
| `ConfigCodec.DecodePayload` | gugaPI/app/config_store.cpp:719-924 | The cursor-driven reads give the decoded values |
| `ConfigTable.LayoutSize` | gugaPI/app/config_store.cpp:12-58 | Every version's payload length is the size of the fields it stores |
| `ConfigTable.DefaultsValid` | gugaPI/app/config_store.cpp:424-557 | The defaults are a valid configuration |
| `ConfigStore.ConfigStore.LoadParams` | gugaPI/app/config_store.cpp:1122-1251 | Loading in place, every error path included: anything unusable leaves the defaults in force |
| `ConfigStore.ConfigStore.Save` | gugaPI/app/config_store.cpp:1253-1290 | Saving in place: on success both records are the images of the parameters; a failed step leaves the main record as it was |
| `ConfigStore.ConfigStore.Set` | gugaPI/app/config_store.cpp:1307-1332 | A change succeeds exactly when the position, the range and the whole configuration allow it, and is otherwise undone |
| `ConfigStore.ConfigStore.BuildImage` | gugaPI/app/config_store.cpp:1266-1276 | Header, payload and checksum in a buffer |
| `ConfigStore.LoadedIsSound` | gugaPI/app/config_store.cpp:1122-1251 | Whatever the memory holds, what loading takes from it is a valid configuration |
| `Crc32.Compute` | gugaPI/app/config_store.cpp:402-422 | The checksum of the first bytes of a buffer, computed in a loop |
| `Crc32.ChecksumDetectsOneByte` | gugaPI/app/config_store.cpp:402-422 | Any change confined to one byte changes the checksum |
| `AppLaws.BridgesOnEveryRun` | MotorDriver/control/motor_control.cpp:553-652 | After every run from power-on, told in register bytes: each bridge coasts while timed out or not enabled, drives at 256 times the duty byte in RUN, brakes in BRAKE, drives at the controller's duty in SPEED and POSITION, and coasts otherwise or at no duty; a driven bridge runs in reverse exactly for direction byte 1, or, with the motor's invert bit, exactly for direction byte 0 |
| `AppStall.PowerOnCommandDrives` | MotorDriver/app/motor_app.cpp:245-299 | From power-on, one I2C write of RUN, duty 50, direction 0, one pass: bridge 1 drives in reverse, since outputs are inverted by default, at 12800 |
| `ControlLaws.BridgeFollowsRegisters` | MotorDriver/control/motor_control.cpp:553-652 | The bridge of any motor in any state from its mode, duty and direction bytes, its invert bit, the enable bit and the controller's duty |
| `ControlLaws.SpeedErrorMeans` | MotorDriver/control/motor_control.cpp:488-493 | The reported error is zero, positive or negative exactly as the measured speed along the commanded direction equals, is below or is above the ramped target; the direction stays as commanded |
| `ControlLaws.IntegralFollowsError` | MotorDriver/control/motor_control.cpp:503-531 | The integral of the speed loop never moves against the error, stays within its limit, and with an integral gain alone does rise under a positive error |
| `ControlLaws.HeldBack` | MotorDriver/control/motor_control.cpp:522-531 | It is held exactly while the output it would give lies past the end of the duty range the error pushes toward |
| `ControlLaws.FasterIsDrivenLess` | MotorDriver/control/motor_control.cpp:488-537 | With zero Ki and Kd a motor measured faster along its direction is never given more duty, and none at or above the target |
| `ControlLaws.DutyFollowsDemand` | MotorDriver/control/motor_control.cpp:134-159 | The duty never falls as the demand rises, is zero for no demand, and equals the demand in 1/256 percent inside the band |
| `ControlLaws.DerivativeOpposesChange` | MotorDriver/control/motor_control.cpp:498-521 | Under derivative control alone a motor is driven only while the error grows |
| `ControlLaws.RestartsOnChange` | MotorDriver/control/motor_control.cpp:419-424 | When a controller state starts over: exactly when the mode, the direction of a speed command, the target of a position command, or holding changed |
| `ControlLaws.RestartStops` | MotorDriver/control/motor_control.cpp:424-458 | Starting over switches the output off, forgets both integrals and belongs to the present command from then on |
| `ControlLaws.EarlyCallWaits` | MotorDriver/control/motor_control.cpp:460-467 | Nothing happens between due calls: 10 ms apart in speed control, 100 ms in hold and position |
| `ControlLaws.OpenLoopForgets` | MotorDriver/control/motor_control.cpp:404-417 | Outside the closed-loop modes, or without an encoder scale, the state is forgotten and an output left on is switched off |
| `ControlLaws.AtTargetTracking` | MotorDriver/control/motor_control.cpp:288-324 | A motor inside the tolerance is at target; it leaves only beyond the wider tolerance and after settling, and arrives only inside the tolerance or by crossing the target |
| `RegisterLaws.DisableClears` | MotorDriver/protocol/register_map.cpp:504-514 | An accepted write that clears the enable bit leaves mode, duty and target speed of both motors zero |
| `RegisterLaws.DisabledStaysDown` | MotorDriver/protocol/register_map.cpp:504-553 | and both motors inactive through any later operations, enabling included, until a committed write gives the motor a mode |
| `RegisterLaws.MotionEffect` | MotorDriver/protocol/register_map.cpp:504-553 | Every other accepted write: mode, duty and target speed as sent, except that a sent COAST, BRAKE or POSITION clears duty and target speed and a sent RUN the target speed |
| `RegisterLaws.StatusBits` | MotorDriver/protocol/register_map.cpp:135-171 | Each bit of the device status in every consistent file: ready, enabled, either motor active, timed out, faulted |
| `RegisterLaws.MotorStatusBits` | MotorDriver/protocol/register_map.cpp:747-772 | Each bit of a motor status: active, reverse, at target |
| `RegisterLaws.AtTargetMeans` | MotorDriver/protocol/register_map.cpp:481-494 | At target is a motor in position mode whose error is within the tolerance either way |
| `RegisterLaws.ActiveMeans` | MotorDriver/protocol/register_map.cpp:273-301 | A motor is active exactly when enabled, not timed out, and in RUN at a duty or in a closed-loop mode |
| `MotorClient.WriteToldTruly` | MotorDriver/protocol/serial_protocol.cpp:132-149 | The main controller and the motor driver together, with noise on the line: the client is told OK exactly when the write was accepted, and otherwise no register changed |
| `MotorClient.HeartbeatToldTruly` | MotorDriver/protocol/serial_protocol.cpp:109-119 | A heartbeat is acknowledged exactly when it announces no payload and counts as one |
| `MotorClient.ReadToldTruly` | MotorDriver/protocol/serial_protocol.cpp:121-130 | A read of existing registers returns their bytes; any other returns the byte 1, which the length gives away if and only if the read was not of a single register beyond the last |
| `MotorClient.RequestAnswered` | gugaPI/app/motor_driver_client.h:612-645 | Every request sent to an idle driver is reported once and answered by a frame the client accepts as the answer to it |
| `MotorClient.RepliesAreFrames` | MotorDriver/protocol/serial_protocol.cpp:151-187 | Every event but a CRC error is answered by exactly one whole frame for its own command and register |
| `MotorClient.ReplyBytes` | MotorDriver/protocol/serial_protocol.cpp:101-149 | The payload of each reply: registers for a read, else 0 exactly when the request was carried out and 1 when not |
| `MotorClient.ReceivedWasSent` | gugaPI/app/motor_driver_client.h:428-474 | Whatever frame the client receives stood on the line with its checksum, after bytes that start none |
| `MotorClient.CorruptReplyIsBroken` | gugaPI/app/motor_driver_client.h:428-474 | A reply with its command, register, a data byte or the CRC changed is refused |
| `MotorClient.SendFrame` | gugaPI/app/motor_driver_client.h:379-410 | The bytes sent are the encoding of the request, and none when the payload is too long |
| `MotorClient.ReceiveFrame` | gugaPI/app/motor_driver_client.h:428-474 | The loops over the received bytes compute the first frame on the line |
| `FocLaws.CurrentLoopOpposes` | FOC/motor_open_loop.c:789-823 | On both axes the voltage requested by a running motor's sample lies below the stored integral when the measured current is too large, above it when too small, and equals it at no error; the kept integrals move the same way or stay, by how much is said |
| `FocLaws.NoWindup` | FOC/motor_open_loop.c:805-823 | Neither integral moves while the requested voltage is beyond the limit and the errors point outward; both move whenever they do not |
| `FocLaws.SpeedLoopOpposes` | FOC/motor_open_loop.c:356-414 | The torque reference lies beyond what the integral alone gives, on the side of the speed error, up to the limit; the integral moves by the error unless that would push a limited reference further |
| `FocLaws.StandsStill` | FOC/motor_open_loop.c:356-414 | A motor at rest told to stand still gets no torque and no integral |
| `FocLaws.DirectZonePulls` | FOC/motor_open_loop.c:356-414 | Near its target position control pulls toward it at a quarter of the distance and brakes at twice the speed |
| `FocLaws.PositionTakesShortWay` | FOC/motor_open_loop.c:416-437 | The position error is the one distance within half a turn and the speed command points along it, one rpm for ten counts and at most 50 |
| `FocLaws.SineWave` | FOC/motor_open_loop.c:183-199 | The sine rises through its first quarter, repeats it mirrored, changes sign over half a turn, and the cosine is the sine a quarter turn on |
| `FocLaws.SineCosineFill` | FOC/motor_open_loop.c:183-199 | The squares of sine and cosine nearly fill the unit circle at every angle |
| `FocLaws.DrivenIsMeasured` | FOC/motor_open_loop.c:231-267 | The inverse transforms and the transforms agree: at every angle, currents made of a vector of up to 4095 units on each axis are measured as that vector within five units |
| `FocLaws.AxesOfTheRotor` | FOC/motor_open_loop.c:259-267 | At angle zero the rotor's axes are the stator's, a quarter turn on they are turned by a quarter |
| `FocLaws.PhasesOfVector` | FOC/motor_open_loop.c:231-257 | The phases a stationary vector is given, a third of a turn apart |
| `ActionLaws.ComparisonsAreOrdered` | gugaPI/app/action.cpp:191-209 | Less and less-or-equal stay true when the reading falls or the value rises, greater and greater-or-equal when it rises or the value falls |
| `ActionLaws.ComparisonsPartition` | gugaPI/app/action.cpp:191-209 | Exactly one of less, equal and greater holds, and the other three are their unions and complements |
| `ActionLaws.ContainsEveryBit` | gugaPI/app/action.cpp:203-205 | CONTAINS is true exactly when every set bit of the value, bit by bit over all 32, is set in the reading |
| `ActionLaws.ConditionExit` | gugaPI/app/action.cpp:1709-1842 | The exit an update takes on an immediate condition, told in numbers and bits for every comparison; without a reading the failure exit |
| `ActionLaws.WaitExit` | gugaPI/app/action.cpp:640-683 | A wait true at every look since some time succeeds once that is the stable time ago, starts over on a false look, and fails past its timeout |
| `ActionLaws.TimedExit` | gugaPI/app/action.cpp:868-877 | A timed instruction ends when its time is up, or by its condition in time and in failure past it |
| `ActionLaws.BranchExit` | gugaPI/app/action.cpp:773-775 | A branch takes one exit or the other at once |
| `ActionLaws.ManoeuvreExit` | gugaPI/app/action.cpp:779-808 | A distance run ends when the distance is reached; a road manoeuvre as the controller reports or past its time |
| `ActionLaws.MotorExit` | gugaPI/app/action.cpp:809-866 | The three operations of the CAN motor end as its driver reports, a speed run only after it has been stopped |
| `ActionLaws.LoopExit` | gugaPI/app/action.cpp:1771-1791 | A loop enters its body until the count is reached and then leaves by its other exit |
| `ActionLaws.StopAndEnd` | gugaPI/app/action.cpp:769-772 | Stopping succeeds at once with nothing moving, and the end ends the run in success |
| `ActionLaws.RefusedStartFails` | gugaPI/app/action.cpp:1754-1763 | An instruction whose start is refused takes its failure exit in the same update |
| `ActionLaws.FirstUpdateStarts` | gugaPI/app/action.cpp:1738-1769 | Otherwise the update starts it, its time counting from now, and goes on exactly as one that finds it started |
| `ConfigLaws.EveryConfigurationIsReachable` | gugaPI/app/config_store.cpp:999-1074 | From any valid configuration any other is reached by setting single fields, each set accepted, in at most as many steps as there are differing fields and channels to be swapped |
| `ConfigLaws.SetAccepts` | gugaPI/app/config_store.cpp:1019-1073 | Setting a field to a value in its range succeeds exactly when the other fields accept it: between its neighbours in the order of the drive fields, different from the channel's other reading, inside the hysteresis band, and always for a wheel radius |
| `ConfigLaws.BandMeans` | gugaPI/app/config_store.cpp:1051-1072 | A threshold is accepted with a hysteresis exactly when both edges of the band, in half units, lie inside the scale |
| `AppLaws.FeedbackMeans` | MotorDriver/app/motor_app.cpp:136-178 | What the controllers are given: each count turned by its own encoder's invert bit, saturating, and its speed so turned, to the nearest rpm of its own scale |
| `AppLaws.WriteSettles` | MotorDriver/app/motor_app.cpp:76-87 | After every committed write no encoder request is left, the timeout is over, outputs are pending, and the watchdog is armed exactly for an active command, its clock then starting now |
| `RegisterLaws.AcceptedExactly` | MotorDriver/protocol/register_map.cpp:555-676 | A write is accepted exactly when it is not empty, stays below register 0x7F, and every register covered takes its byte: flags only defined bits, modes and percentages in range, addresses 8 to 119, settings anything, read-only registers nothing |
| `RegisterReports.ReportsLand` | MotorDriver/protocol/register_map.cpp:173-266 | Every reading and report of encoders and controllers lands in its own registers, low byte first and signed as two's complement, and changes no other register but the derived status |
| `RegisterReports.SettingsAreRead` | MotorDriver/protocol/register_map.cpp:353-371 | Scale, target speed and target position of each motor are read from its own registers |
| `FocLaws.NewTargetActsAtOnce` | FOC/motor_open_loop.c:439-464 | A new target speed is limited to 400 rpm; a running motor whose torque is against it, or that is told to stop, brakes in the same call whatever the integral was, and one with torque the right way keeps its integral |
| `FocStateLaws.InitialisedRunKeepsReadiness` | FOC/motor_open_loop.c:466-604 | Over every run after initialisation the encoder counts as ready exactly while running, and a velocity is held only then: no reading from before an alignment is used |
| `FocStateLaws.PhaseTrips` | FOC/motor_open_loop.c:706-755 | The third sample in a row with any phase beyond 298 counts either way stops an active motor; a sample with all phases within starts the count over and never trips |
| `FocStateLaws.PredictionCarriesOn` | FOC/motor_open_loop.c:758-767 | The angle used is the last reading's carried on at the filtered velocity for the true time since, for at most 40 ticks |
| `FocStateLaws.WindowRpmMeans` | FOC/motor_open_loop.c:666-668 | A window's speed in rpm, 16384 counts a turn and 20000 ticks a second, rounded toward zero |
| `FocStateLaws.WindowVelocityMeans` | FOC/motor_open_loop.c:661-664 | A window's electrical velocity in units of 2^-16 of an angle unit per tick, rounded toward zero |
| `FocStateLaws.OuterLoopsByMode` | FOC/motor_open_loop.c:660-703 | Between windows a reading leaves the controllers alone; a full window runs them, the position controller only in position mode and along the short way |
| `FocStateLaws.VelocityFollowsWindows` | FOC/motor_open_loop.c:660-677 | The first full window after an alignment sets the velocity, each later one moves it toward its own |
| `FocStateLaws.ReverseTwice` | FOC/motor_open_loop.c:864-875 | Reversing twice restores a target other than rest; from rest it turns backwards |
| `FocStateLaws.ModesStartFromRest` | FOC/motor_open_loop.c:877-900 | Leaving position control brakes a moving motor in the same call and leaves one at rest alone; entering it holds the present position |
| `FocStateLaws.EighthsOfATurn` | FOC/motor_open_loop.c:902-924 | Only a running motor under position control takes a new position, 2048 counts an eighth of a turn, modulo a turn |
| `FocStateLaws.ReasonCleared` | FOC/motor_open_loop.c:849-857 | Clearing the reason leaves a running motor alone and turns a fault into a standstill |
| `ActionLaws.StartBegins` | gugaPI/app/action.cpp:1662-1697 | A run starts exactly for a valid program without a fault, from its first entry, with time and counters at zero |
| `ActionLaws.MotionFlowsOn` | gugaPI/app/action.cpp:211-227 | A road manoeuvre that succeeds while moving, and a loop it flowed into, keep moving exactly when the run goes on with a manoeuvre or a loop |
| `ActionLaws.OthersLeaveMotorOff` | gugaPI/app/action.cpp:685-766 | Only its own two operations switch the CAN motor on |
| `ActionValidity.ValidInstructionEnds` | gugaPI/app/action.cpp:994-1282 | A valid instruction is over at the first update more than 30 seconds after its start, whatever it waits for, but for a distance run and the operations of the CAN motor |
| `ActionValidity.AddedIsValid` | gugaPI/app/action.cpp:1524-1589 | A condition the interpreter lets in is valid exactly when source, comparison, value and speed make sense and a momentary press is not asked to be stable |
| `ActionValidity.ValidCouldBeAdded` | gugaPI/app/action.cpp:962-992 | A valid comparison instruction could have been added so exactly when its stable time is at most a second, which validation does not check |
| `ActionValidity.LongStabilityIsValid` | gugaPI/app/action.cpp:962-992 | One that could not: a constant to be true for 1550 ms |
| `ActionValidity.ComparisonsBySource` | gugaPI/app/action.cpp:104-115 | Orders apply to the measured sources alone, bits to the road paths alone, equality to all others |
| `ActionValidity.ConditionsByOperation` | gugaPI/app/action.cpp:994-1282 | What each plain operation may wait for |
| `ActionValidity.ExitsLeadIntoProgram` | gugaPI/app/action.cpp:1591-1632 | In a valid program a run goes exactly where its instruction says, and a loop always goes on |
| `ActionValidity.DriveThriceIsValid` | gugaPI/app/action.cpp:1591-1632 | A drive repeated three times is a valid program exactly for wheels that may turn as fast |
| `ActionValidity.ReportsFirstBad` | gugaPI/app/action.cpp:1591-1632 | Failed validation names the first bad entry, or none of a program without entries or with too many |
| `I2cTarget.TroubleIsRecorded` | MotorDriver/board/board_i2c_target.cpp:307-323 | A fault the controller reports is recorded and nothing else changes |
| `AppLaws.WatchdogArms` | MotorDriver/app/motor_app.cpp:106-128 | Whenever the watchdog has looked it is armed exactly for an active command under a timeout; a recovered bus leaves it disarmed and mode, duty and target speed of both motors zero |
| `RegisterLaws.ControlRegistersAre` | MotorDriver/protocol/register_map.cpp:688-745 | The registers whose writes count as control changes are the writable ones but for fault flags, bus address, watchdog timeout and encoder request |
| `ControlLaws.NoRateNoRamp` | MotorDriver/control/motor_control.cpp:83-132 | Without a rate in its direction the ramp follows the request at once |
| `ControlLaws.ReportedDutyIsNearest` | MotorDriver/control/motor_control.cpp:161-168 | The duty reported is the nearest percent to the duty applied |
| `ControlLaws.PositionStepReports` | MotorDriver/control/motor_control.cpp:273-375 | A due position step: the distance to the goal is reported and kept, at the goal the motor is off, the duty kept for the bridge is the one in the registers, and the speed asked for is reported but not while holding |
| `ControlLaws.PositionTermMeans` | MotorDriver/control/motor_control.cpp:205-216 | A term of the position law is gain times error in turns a minute, rounded toward zero, with the sign of the error |
| `ControlLaws.PositionIntegralFollowsError` | MotorDriver/control/motor_control.cpp:326-345 | The integral of the position law never moves against the error, does move when its term is at least a sixteenth of an rpm, and stays within the limit of the speed |
| `ControlLaws.DerivativeAlone` | MotorDriver/control/motor_control.cpp:326-345 | The derivative alone drives the way the error grows, and so brakes while it shrinks |
| `ControlLaws.AtLeastOneRpm` | MotorDriver/control/motor_control.cpp:326-360 | Outside the tolerance a motor with any gain and any speed allowed is asked for at least 1 rpm, otherwise for the nearest to the demand |
| `ControlLaws.PositionDutyMeans` | MotorDriver/control/motor_control.cpp:242-271 | The position duty lies between its limits in proportion to the maximum speed, to the nearest percent, and is none without a speed, a maximum or a limit |
| `ActionValidity.ValuesBySource` | gugaPI/app/action.cpp:902-960 | A measured source may be compared with any value nearer to zero than one it may be compared with, any other with one of at most nine |
| `ActionValidity.MotionWithinLimits` | gugaPI/app/action.cpp:994-1282 | No valid instruction asks for more than wheels, compass or CAN motor may do |
| `ActionValidity.UnusedAreZero` | gugaPI/app/action.cpp:994-1282 | Parameters an instruction has no use for are zero, and outputs are on for a tick at least |
| `ActionValidity.TimesAreTicks` | gugaPI/app/action.cpp:994-1282 | Times of road manoeuvres and speed runs are whole ticks of 50 ms, and no wait is longer than 30 seconds |
| `ActionValidity.ExamplesAreValid` | gugaPI/app/action.cpp:994-1282 | Validation accepts an instruction of every plain kind |
| `GrayscaleScan.FailureInvalidates` | gugaPI/app/app_grayscale.cpp:492-565 | Whatever fails, board, conversion, channel or the start of the next: no frame is published, the last one is no longer valid, the error is counted and the scan begins anew |
| `ConfigLaws.MaskMigrates` | gugaPI/app/config_store.cpp:1219-1223 | An image of version 10 or before that tracks with the old default channels tracks with the new ones once loaded; every other choice and every other field is kept |

## Left out

- AppSafety.TimelyRunFromStart: assumes that each pass takes less than 0x7FFF0000 ms, because beyond 2^32 ms the clock wraps and a bound on the true age is false; `AppSafety.RunFromStartSafe` needs no such limit.
- ActionCondition.WaitSucceedsExactly: looks are less than 2^32 ms apart from first to last; the instruction times out long before.
- QuadratureEncoder.Encoder.UpdateSample: assumes a movement between samples that fits the firmware's signed 32-bit difference, and that the intervals of the window do not add up to a multiple of 2^32 ms, where the source divides by zero (`QuadratureEncoder.GapsCancel`).
- QuadratureEncoder.Encoder.SyncQeiCounter: assumes a count that fits its signed 32-bit variable, which the source adds to without a check.
- PositionLaw.DrivesTowardTarget: is stated for proportional control with nothing integrated; with other gains the direction also depends on the history of the error, and `PositionLaw.DrivesByDemand` says how.
- ConfigStore.ConfigStore.LoadParams: versions 1 to 6 and 16 are recognised but their fix-ups and the two competing layouts of version 16 are not decoded; the result is then marked as not modelled.
- ConfigStore.ConfigStore.Save: a failed write is taken to leave the memory as it was; torn writes are not modelled, and no claim is made about them, since a checksum can collide.
- ConfigStore.ConfigStore.Set: fields are named by their position in the stored order instead of by text.
- ActionRunner.ActionRunner.Validate: which field of the first bad entry is wrong, and why, is not reported; that is one table entry for each refusal.
- GrayscaleScan.Scanner.MarkFailure: the line-position and road states that a failure also resets belong to processing that is left out.
- MotorFoc.MotorFoc.CurrentLoopIsr: computes in unbounded integers for every 16-bit reading; `FocMotion.CurrentArithmeticFits` shows that nothing overflows for the 12-bit readings the converter delivers.
- I2C reads: the bytes put into the transmit FIFO and the stuck-bus detection itself; a bus trip is an input of a pass.
- MotorApp.MotorApp.HandleEncoderControl: says which encoders to reset; what they read afterwards is an input, and `QuadratureEncoder` is not joined to it.
- Hardware overflow of the I2C receive FIFO, which flushes bytes in the middle of a transaction.
- Storing a new I2C address in non-volatile memory.
- UART transmission; the reply bytes and what the client makes of them are modelled.
- MotorClient.ReceiveFrame: takes the bytes that arrive before its deadline of 50 ms as given; the client's I2C transport, with its retries and read-back, is left out.
- The order of pin writes inside the bridge driver.
- That ramp and integral restart after a disable or timeout: the controllers are skipped meanwhile, so a quick re-enable finds the old state.
- Races between interrupts and the field-oriented controller's start and stop: each entry point and each interrupt is one step.
- The growth of the speed window's accumulated difference is not limited to 32 bits; at a physical speed it stays far below.
- Status getters and unit conversions for display.
- LED and buzzer timers of the sequence interpreter, the text of conditions, and the sensors that conditions read; a reading is an input.
- Line position, road classification, channel diagnostics and sweep calibration of the grey sensor.
- Configuration setters for whole calibrations, status fields of the last stored length and checksum, and names of parameters.
- Battery monitor, CAN, LoRa, inertial unit, displays, shells and consoles: input and output, or easier forms of the same arguments.
