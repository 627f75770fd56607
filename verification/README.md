# Verification of the DES circuit and of the runtime that drives it

This project models, in Dafny, the parts of the repository whose correctness spans many steps or many calls, and
proves what they are for:

- **The DES pipeline and its bus.** `DES_ALGORITHM.v` takes a new block with a new key at every clock edge and carries
  up to seventeen of them at once. It is proved to refine the recursive sixteen-round cipher over every history of
  edges and resets; the cipher in turn is proved to be the Data Encryption Standard as FIPS PUB 46-3 prints it, for
  every block and key, and to be reversible, symmetric under complement, and self-inverse for the keys where it
  should be. Behind the 32-bit register file of `DES_AVALON_WRAPPER.v`, the program of `source.c`, with its polling
  loop, is proved to read back the cipher of what it loaded.
- **The sequential controller** `DES_CONTROL.v`, over every stream of start signals, and its agreement with the
  unrolled schedule.
- **The fast JTAG UART driver.** The reader, the writer and the interrupt routine share two rings and an interrupt
  mask. Between any two accesses of the foreground code the interrupt routine and the one-second timer may run any
  number of times. Both directions are proved to be lossless first-in-first-out streams over any sequence of read,
  write and close calls, no wake-up is lost, a call only gives up when the host has been away for the time-out, and
  it only spins while there is nothing it could do and the host counts as there.
- **The alarm wheel.** A 32-bit tick counter with one rollover flag is proved to behave like unbounded time, and
  `alt_tick`, which walks an intrusive circular list while alarms unlink themselves from it, is proved to visit
  every alarm exactly once. Over any sequence of starts, stops and ticks every alarm keeps its own time, and has
  been called exactly as often as calls were scheduled.
- **The wall clock**: what it shows at any counter value, and, at the tick rates at which it runs evenly and over any
  number of turns of the counter, the exact conditions for a right reading and for two readings that are not in
  reverse order; and **the integer printers**, with their round trip.

## How it is put together

The cipher is layered so that only table facts touch bits. `Feistel`, `KeySchedule`, `BlockCipher` and `Pipeline`
are generic in the words, the key registers, the round function and the wiring; `DesWiring` and `DesSBox` hold the
wiring and the tables as bit-vectors; `Des` puts them together as one `Design` and `DesAlgorithm` is the clocked
circuit, an array of stage registers overwritten in place. `Fips` is the standard with its tables as printed, and
`DesIsFips` proves that the two agree. `AvalonBus` and `AvalonProtocol` say what the wrapper and the protocol do,
`AvalonWrapper` is the wrapper as registers with the driver of `source.c` in front of it, and `DesOnBus` instantiates
it with DES. Where a source file works in place (`JtagUart`, `AlarmList`, `WallClock`,
`Printing`, `DesControl`, `DesAlgorithm`, `AvalonWrapper`), the model is a class or a method with loops, tied by its
`ensures` to a specification function about which the lemmas are proved. `Ring` and `Arithmetic` hold the facts about
circular buffers and about quotients that those proofs need, and `Hal` what the modules of the runtime share. A proof
that puts facts together hides the definitions it does not need (`hide`), so that it stays small.

## What is assumed of the surroundings

- The UART: an interrupt bit is only up if it is enabled and its FIFO has something to offer (a byte to read, or room
  to write); reading an empty FIFO reports nothing available; the host sends a finite stream and may move any part of
  it into the FIFO, free any room, or set the activity bit, at any moment. An enabled interrupt may be late; for a
  device where it is not (`eager`), the interrupt routine is proved to leave nothing undone. The ring length is any N
  of at least 2. There is one reader and one writer, as the empty semaphores of `os/alt_sem.h` imply. The interrupt
  routines are not interrupted. A call that spins for ever has not returned: the model cuts it off at any point and
  says what holds by then.
- The asynchronous reset of the circuits is an event between clock edges. A 64-bit bus register is kept as its two
  bus words.
- An alarm's callback is modelled by the periods it returns, `period(j)` at its j-th call; it does not touch the list.
  `alt_alarm_stop` is called on an alarm that was started before.
- `long` and `alt_u32` are 32 bits wide, and a signed sum that leaves its range wraps.

## Where the code differs from what is said about it

- The comment in `alt_settod.c` promises that an immediate `gettimeofday` returns the value just set. The product
  there is computed in 32 bits, and this holds exactly under `WallClock.ReadsRight`; `WallClock.DroppedProduct` is a
  case where it fails, at a thousand ticks a second some 72 minutes after power-up.
- When the tick counter wraps between setting and reading the clock, the reading is wrong (unless it wraps a multiple
  of the tick rate), and the clock may run backwards, even between two readings after the wrap, where one saturates at
  zero and the other does not: `WallClock.WrongAfterWrap` is such a case. At the tick rates that divide a million
  `WallClock.ReadingExactIff` and `WallClock.BackwardsIff` say exactly when.
- Nothing keeps `alt_alarm_start` from starting an alarm that is registered already. That destroys the list:
  `alt_tick` would never come back to its head (`AlarmList.TrappedForEver`). `AlarmList.Wheel.AlarmStart` states the
  exact condition.
- An alarm asked for 2^32-1 ticks ahead is called at the next tick, unless the counter is about to wrap. The exact
  condition is `AlarmTime.TimedRight`.
- A bus write at the very edge where the pipeline reports done makes the wrapper miss it: the done bit then stays
  clear. `AvalonBus.DoneBitExactly` and `AvalonProtocol.DoneAtEdge18` say exactly when.
- The repository's README describes `DES_CONTROL.v` as part of the top level; the unrolled `DES_ALGORITHM.v` does not
  use it. It is modelled on its own, and compared with the pipeline.

## Model

| member | source | states |
|---|---|---|
| Feistel.Reverse | DES_ALGORITHM.v:50 | the sub-keys in reverse order, position by position, as "Deciphering" of FIPS PUB 46-3 uses them |
| Feistel.RoundsConcat | gen_des.py:47-79 | running a list of rounds in two parts is running it at once |
| Feistel.RoundsUndone | DES_ALGORITHM.v:61-62 | the rounds under reversed sub-keys, between two exchanges of the halves, give the halves back, whatever the round function is |
| Feistel.RoundsRelated | DES_ALGORITHM.v:61-62 | a symmetry that the mixing keeps and the round function erases is kept by any number of rounds |
| KeySchedule.SubKeys | DES_ALGORITHM.v:48-50 | sub-key i is selected from the key register after the turns of rounds 1 to i |
| KeySchedule.AfterIsTurned | gen_des.py:2 | after round i the key register has made as many single turns as the shift table adds up to |
| KeySchedule.Rotations | gen_des.py:2 | the shifts add up to 14 after eight rounds and to 28 after sixteen |
| KeySchedule.SixteenRoundsAre28 | gen_des.py:2 | sixteen rounds turn the register by 28 places |
| KeySchedule.DecipherAfterIsAfter | DES_ALGORITHM.v:48-50 | a register that turns the other way, from the same start, goes back through the registers of the rounds, if the sixteen turns close |
| KeySchedule.DecipherSelects | DES_ALGORITHM.v:48-50 | so it selects the sub-keys in reverse order |
| KeySchedule.TurnedByParity | DES_ALGORITHM.v:48-50 | a register of period two depends only on the parity of the turns |
| KeySchedule.RotationParity | gen_des.py:2 | after which rounds the total rotation is odd: round 1 and rounds 9 to 15 |
| KeySchedule.DualSubKeys | DES_ALGORITHM.v:48-50 | two registers one place apart and of period two give each other's sub-keys in reverse |
| KeySchedule.SubKeysRelated | DES_ALGORITHM.v:48-50 | a symmetry kept by turning and selecting is kept by all sub-keys |
| BlockCipher.OneMoreRound | DES_ALGORITHM.v:47-67 | one more round is one more turn of the key register and one Feistel round under the sub-key selected then |
| BlockCipher.CipherUndone | DES_ALGORITHM.v:400-403 | the whole cipher, with its final exchange and permutations, is undone by the same cipher under reversed sub-keys |
| BlockCipher.DecryptInverts | DES_ALGORITHM.v:400-403 | deciphering inverts enciphering and the other way round, for every invertible design |
| BlockCipher.DualKeysInvert | DES_ALGORITHM.v:48-50 | enciphering under one of two dual keys deciphers under the other |
| BlockCipher.EncryptRelated | DES_ALGORITHM.v:16-22 | related blocks under related keys have related ciphers |
| DesWiring.FinalInvertsInitial | IP_1.v:24-31 | the final permutation undoes the initial one, for every block |
| DesWiring.InitialInvertsFinal | IP.v:35-44 | the initial permutation undoes the final one, for every pair of halves |
| DesWiring.ShiftTwice | SHIFT_LEFT_2.v:27 | the rotation by two is the rotation by one, twice |
| DesWiring.ExpandOpposite | E_MATRIX.v:26-33 | the expansion carries complements to complements |
| DesSBox.TablesAreInjectiveInRows | S_BOX.v:16-227 | in each table the output tells the inputs of a row apart: every row is a permutation (which one it is, `DesIsFips.TablesAgree` says) |
| DesSBox.TablesSpread | S_BOX.v:16-227 | in each table, inputs that differ in one bit, or in just the two middle ones, give outputs that differ in two bits or more |
| DesSBox.TablesSeparate | S_BOX.v:16-227 | in each table, inputs that differ in the first two bits and not in the last two give different outputs |
| Des.FTellsKeysApart | F_FUNCTION.v:31-55 | for a half and a choice of table rows, the round function tells any two sub-keys apart |
| DesWiring.XorOpposites | E_XOR_KEY.v:27 | the sum of expansion and sub-key is the same for two complements |
| DesWiring.RoundKeyOpposite | PC_2.v:26-34 | the round-key selection carries complements to complements |
| DesWiring.KeyIgnoresParity | PC_1.v:27-35 | the key registers do not depend on the lowest bit of any key byte |
| Des.DesIsInvertible | DES_ALGORITHM.v:61-62 | the circuit's mixing cancels itself and its final wiring undoes its initial wiring |
| Des.DecryptInvertsEncrypt | DES_ALGORITHM.v:392-403 | deciphering inverts enciphering, both ways, for every block and key |
| Des.EncryptIsBijection | DES_ALGORITHM.v:400-403 | for each key the circuit's map is injective and reaches every block |
| Des.FullRotation | SHIFT_LEFT_1.v:28 | 28 single rotations are the identity |
| Des.ScheduleCloses | DES_ALGORITHM.v:378-380 | C16 = C0 and D16 = D0 for every key |
| Des.RightRotationsReverse | DES_ALGORITHM.v:378-380 | right rotations of the same `PC_1` output generate the reversed sub-key list |
| Des.SemiWeakKeysInvert | DES_ALGORITHM.v:48-50 | keys whose registers have period two and are one place apart undo each other |
| Des.WeakKeysInvertThemselves | PC_1.v:27-35 | if C0 and D0 are each all zeros or all ones, enciphering twice returns the block |
| Des.FComplement | F_FUNCTION.v:31-55 | F of complemented half and complemented sub-key is F of the originals |
| Des.OppositeIsSymmetry | DES_ALGORITHM.v:16-22 | complement is a symmetry of every part: mixing, F, rotations, selection, and the permutations at both ends |
| Des.Complementation | DES_ALGORITHM.v:61-62 | DES of the complemented block under the complemented key is the complement of DES |
| Des.ParityBitsIgnored | PC_1.v:27-35 | keys that differ only in their parity bits encipher alike: 56 bits take part |
| DesIsFips.InitialAgrees | IP.v:35-44 | the initial permutation is IP of FIPS PUB 46-3, with its entries in decimal and bit 1 leftmost |
| DesIsFips.FinalAgrees | IP_1.v:24-31 | the final permutation is the inverse of IP as printed |
| DesIsFips.ExpandAgrees | E_MATRIX.v:26-33 | the expansion is E as printed |
| DesIsFips.PermuteAgrees | P_MATRIX.v:26-33 | the permutation of the round function is P as printed |
| DesIsFips.KeyAgrees | PC_1.v:27-35 | the key registers are filled by PC-1 as printed |
| DesIsFips.SelectAgrees | PC_2.v:26-34 | the sub-keys are selected by PC-2 as printed |
| DesIsFips.TablesAgree | S_BOX.v:16-227 | all eight tables, and the 6-bit groups they are applied to, are those printed, row by row in decimal |
| DesIsFips.FAgrees | F_FUNCTION.v:31-55 | the round function is the cipher function f of the standard |
| DesIsFips.RegistersAgree | DES_ALGORITHM.v:48-50 | the key registers turn by the left shifts of the standard |
| DesIsFips.ReachedAgrees | DES_ALGORITHM.v:47-67 | after any number of rounds, halves and key registers are L, R, C and D of the standard |
| DesIsFips.EncryptIsFips | DES_ALGORITHM.v:400-403 | for every block and key the cipher is that of the standard, whose definition here shares no table, rotation or round with the model of the circuit |
| BlockCipher.OneRound | DES_ALGORITHM.v:47-67 | a state that is a round away from what was reached is what the next round reaches |
| DesKnownAnswer.KnownAnswer | DES_TESTBENCH.v:52-71 | an anchor for the tables and the wiring: the cipher of the test bench's block and key is the value it expects |
| Pipeline.AdvanceHolds | DES_ALGORITHM.v:47-67 | a stage that holds i-1 rounds of a block hands on i rounds of it |
| Pipeline.LastEdge | DES_ALGORITHM.v:31-67 | what a clock edge does to each stage after any history |
| Pipeline.StageHolds | DES_ALGORITHM.v:31-67 | after i more edges, stage i holds the first i rounds of the block that entered then, its key register and its valid bit |
| Pipeline.PipelineRefinesCipher | DES_ALGORITHM.v:383-405 | sixteen edges after a block and a key were sampled, the output is their cipher and `Done` is the start sampled with them, whatever entered before, between and after |
| Pipeline.ValidExactly | DES_ALGORITHM.v:31-67 | a stage is valid exactly if a start entered that many edges ago and no reset came since |
| Pipeline.DoneExactly | DES_ALGORITHM.v:383-405 | `Done` shows exactly the starts of sixteen edges ago that no reset discarded |
| DesAlgorithm.Circuit.constructor | DES_ALGORITHM.v:25-29 | before the first reset the registers may hold anything |
| DesAlgorithm.Circuit.ResetN | DES_ALGORITHM.v:32-37 | a reset clears every stage |
| DesAlgorithm.Circuit.ClockEdge | DES_ALGORITHM.v:31-67 | the in-place update gives every stage the advance of the old value before it |
| DesAlgorithm.Circuit.Outputs | DES_ALGORITHM.v:399-405 | the outputs are the final permutation of the exchanged halves and the last valid bit |
| AvalonBus.BehindIsRun | DES_AVALON_WRAPPER.v:64-72 | behind the register file the pipeline runs on what the registers held before each edge |
| AvalonBus.BehindAt | DES_AVALON_WRAPPER.v:64-72 | which block, key and start the pipeline samples at a given edge |
| AvalonBus.BehindEdges | DES_AVALON_WRAPPER.v:24-31 | the pipeline sees a reset exactly when the wrapper does |
| AvalonBus.ReadBack | DES_AVALON_WRAPPER.v:54-72 | after 17 edges without a reset, addresses 5 and 6 read the halves of the cipher of the registers as they were before them, whatever was written or started |
| AvalonBus.StartIsPending | DES_AVALON_WRAPPER.v:33-44 | the start register, in terms of the bus history alone: the last access to address 0 set it, and only writes elsewhere followed |
| AvalonBus.DonePulseExactly | DES_AVALON_WRAPPER.v:64-72 | `done_wire`, in terms of the bus history alone: a start was pending 17 edges ago and no reset came since |
| AvalonBus.DoneStep | DES_AVALON_WRAPPER.v:31-49 | what one event does to the done bit, in one equivalence |
| AvalonBus.CaughtStep | DES_AVALON_WRAPPER.v:31-49 | a done pulse is on record after an event exactly if the event caught one, or left an earlier one alone |
| AvalonBus.DoneBitExactly | DES_AVALON_WRAPPER.v:31-49 | over every history of the bus, the done bit is set exactly if 17 edges after a pending start, without a reset in between, came an edge without a write, and no start write or reset came since |
| AvalonBus.StartIsBitZero | DES_AVALON_WRAPPER.v:33-36 | a start is exactly a write of an odd word to address 0 |
| AvalonBus.StatusWord | DES_AVALON_WRAPPER.v:54-61 | address 0 reads the start register in bit 0, the done bit in bit 1 and nothing else; all but 0, 5 and 6 read 0 |
| AvalonProtocol.LoadingStaysQuiet | DES_AVALON_WRAPPER.v:32-41 | any accesses without a start keep the circuit quiet and the done bit, and leave the last word written to each half |
| AvalonProtocol.FlightStep | DES_AVALON_WRAPPER.v:31-49 | one edge moves a lone start one stage on, and sets the done bit exactly at the edge after the last stage, if the bus is not writing |
| AvalonProtocol.DoneAtEdge18 | DES_AVALON_WRAPPER.v:24-51 | after a start the done bit is clear for 17 edges, and then set exactly if the bus was not writing at edge 18 |
| AvalonProtocol.WaitingStep | DES_ALGORITHM.v:47-67 | while the software waits, every stage reached works on the loaded block and key |
| AvalonProtocol.WaitingEnds | DES_AVALON_WRAPPER.v:54-61 | from edge 18 on the circuit is quiet again and addresses 5 and 6 show the cipher |
| AvalonProtocol.TransactionIsRight | software/DES/source.c:47-69 | one load, start, wait, read transaction from a quiet circuit returns the cipher and leaves the circuit quiet |
| AvalonProtocol.SessionIsRight | software/DES/source.c:47-69 | over any number of transactions every result is the cipher of what was loaded for it |
| AvalonWrapper.Wrapper.constructor | DES_AVALON_WRAPPER.v:25-29 | the wrapper starts with all registers clear |
| AvalonWrapper.Wrapper.ResetN | DES_AVALON_WRAPPER.v:24-29 | a reset clears the registers and the pipeline |
| AvalonWrapper.Wrapper.ClockEdge | DES_AVALON_WRAPPER.v:24-51 | the two clocked processes together make the step of the state machine, each seeing the old registers |
| AvalonWrapper.Wrapper.Read | DES_AVALON_WRAPPER.v:54-61 | the read multiplexer |
| AvalonWrapper.Wrapper.Load | software/DES/source.c:49-53 | a register write and the edges after it load one word and disturb nothing else |
| AvalonWrapper.Wrapper.LoadAll | software/DES/source.c:49-53 | the four register writes load block and key |
| AvalonWrapper.Wrapper.Poll | software/DES/source.c:63-65 | the polling loop ends, and not before edge 18 |
| AvalonWrapper.Wrapper.ReadResult | software/DES/source.c:68-69 | the two result reads give the two halves of the cipher |
| AvalonWrapper.Wrapper.Encipher | software/DES/source.c:47-69 | the main program, with any numbers of clock edges between its bus accesses: its polling loop ends, it returns the cipher of block and key, and the circuit is quiet again |
| DesOnBus.CipherOnBus | DES_AVALON_WRAPPER.v:56-58 | from the words of block and key (bits 63 to 32, and bits 31 to 0) the circuit makes the words of their cipher |
| DesOnBus.PowerOn | DES_AVALON_WRAPPER.v:24-29 | the DES circuit behind its bus is quiet after power-on |
| DesOnBus.EncipherBlock | software/DES/source.c:47-69 | one run of the main program against the DES circuit, with the words of a block and a key, returns the words of their DES as FIPS PUB 46-3 defines it |
| DesOnBus.WriteMap | DES_AVALON_WRAPPER.v:37-40 | which half of which 64-bit register the addresses 1 to 4 write; the other half is kept |
| DesOnBus.ReadMap | DES_AVALON_WRAPPER.v:56-58 | addresses 6 and 5 read the high and the low word of the ciphertext |
| DesOnBus.KnownAnswerOnBus | software/DES/source.c:38-45 | the block and key of the main program, in bus words, have the cipher it expects |
| DesOnBus.RunProgram | software/DES/source.c:32-84 | the main program always ends and reports success |
| DesControl.Controller.constructor | DES_CONTROL.v:42-44 | the controller starts idle with counter 0 |
| DesControl.Controller.ResetN | DES_CONTROL.v:42-67 | a reset makes it idle with counter 0 |
| DesControl.Controller.ClockEdge | DES_CONTROL.v:42-72 | state and counter step together, each from the other's old value |
| DesControl.TakenInPrefix | DES_CONTROL.v:49-63 | whether a start is taken does not depend on later ones |
| DesControl.IdleMeansNoneTaken | DES_CONTROL.v:49-63 | the controller is idle exactly if none of the last 17 edges took a start |
| DesControl.ControlTrace | DES_CONTROL.v:42-72 | over every stream of starts: each taken start gives sixteen process cycles with counter 0 to 15, then one done cycle, and starts meanwhile are ignored |
| DesControl.SelectTrace | DES_CONTROL.v:74-99 | over every stream of starts: `Mux_sel` is up exactly in the sixteen process cycles, and `Shift_sel` is down exactly in the first, second, ninth and last of them |
| DesControl.ShiftSelIsRotation | DES_CONTROL.v:88-92 | `Shift_sel` commands the rotation of the schedule in every round |
| DesControl.RegisterFollowsSchedule | DES_CONTROL.v:74-99 | a rotate register driven by `Mux_sel` and `Shift_sel` holds i turns of the key, i edges after its start was taken |
| DesControl.RegisterMatchesPipeline | DES_ALGORITHM.v:63-64 | that register holds what stage i of the pipeline holds, fed the same stream |
| Ring.Contents | software/DES_bsp/drivers/src/altera_avalon_jtag_uart_init.c:137-150 | the bytes between the two indices and how many they are |
| Ring.FullWhenNextIsOut | software/DES_bsp/drivers/src/altera_avalon_jtag_uart_init.c:137-139 | the full test is met exactly at one byte short of the buffer |
| Ring.PublishRun | software/DES_bsp/drivers/src/altera_avalon_jtag_uart_write.c:122-126 | moving `in` past freshly stored bytes appends them |
| Ring.RetireRun | software/DES_bsp/drivers/src/altera_avalon_jtag_uart_read.c:136-140 | moving `out` past bytes removes them from the front |
| Ring.WriteRoomIsSafe | software/DES_bsp/drivers/src/altera_avalon_jtag_uart_write.c:106-117 | the room computed from the two indices fits the buffer and the ring, is as much as fits both, and is zero exactly if the ring is full |
| Ring.ReadRunIsSafe | software/DES_bsp/drivers/src/altera_avalon_jtag_uart_read.c:122-131 | the run computed from the two indices is part of the ring, is all of it up to the end of the buffer, and is zero exactly if it is empty |
| JtagUart.Device.ReadControl | software/DES_bsp/drivers/src/altera_avalon_jtag_uart_init.c:119 | what is assumed of the interrupt bits, the write space and the activity bit; an eager device raises every enabled interrupt that has something to offer |
| JtagUart.Device.ReadData | software/DES_bsp/drivers/src/altera_avalon_jtag_uart_init.c:144 | what is assumed of the data register: the next byte of the host's stream, if there is one |
| JtagUart.Device.WriteData | software/DES_bsp/drivers/src/altera_avalon_jtag_uart_init.c:176 | a byte written while there is room is sent |
| JtagUart.Driver.constructor | software/DES_bsp/drivers/src/altera_avalon_jtag_uart_init.c:66-76 | the initialised driver meets the invariant, with empty rings and the read interrupt on |
| JtagUart.Driver.StoreRx | software/DES_bsp/drivers/src/altera_avalon_jtag_uart_init.c:149-150 | a received byte is appended to the receive ring |
| JtagUart.Driver.FillRxRing | software/DES_bsp/drivers/src/altera_avalon_jtag_uart_init.c:132-154 | the inner read loop ends, loses no byte of the host's stream, overwrites none, and reports bytes left only if the ring is full |
| JtagUart.Driver.DrainTxRing | software/DES_bsp/drivers/src/altera_avalon_jtag_uart_init.c:172-184 | the inner write loop sends ring bytes in order; space left over means an empty ring |
| JtagUart.Driver.ServeRead | software/DES_bsp/drivers/src/altera_avalon_jtag_uart_init.c:125-167 | the read half keeps the invariant and uses up some of the work |
| JtagUart.Driver.ServeWrite | software/DES_bsp/drivers/src/altera_avalon_jtag_uart_init.c:169-195 | the write half keeps the invariant and uses up some of the work |
| JtagUart.Driver.IrqPass | software/DES_bsp/drivers/src/altera_avalon_jtag_uart_init.c:117-196 | each pass that goes on makes device bytes + transmit ring + enabled bits strictly smaller |
| JtagUart.Driver.Irq | software/DES_bsp/drivers/src/altera_avalon_jtag_uart_init.c:106-197 | the interrupt routine ends and keeps the invariant; it only shortens the transmit ring and extends the receive ring; with an eager device, bytes are left in the transmit ring only if the device has no room, and in the device only if the receive ring is full, or the foreground has yet to enable the interrupt |
| JtagUart.Driver.Preempt | software/DES_bsp/drivers/src/altera_avalon_jtag_uart_init.c:106-197 | so do any number of interrupts and timer callbacks between two foreground accesses |
| JtagUart.Driver.TimerCallback | software/DES_bsp/drivers/src/altera_avalon_jtag_uart_init.c:203-225 | the one-second timer sees exactly whether the host has made contact since it last saw it, counts how long the host has been away, and keeps the invariant |
| JtagUart.Driver.Watch | software/DES_bsp/drivers/src/altera_avalon_jtag_uart_init.c:203-225 | over any number of seconds, with interrupts in between: the count is the number of seconds in a row without the host (up to INT_MAX-2), and once that reaches the time-out the host counts as away |
| JtagUart.Driver.TxRoom | software/DES_bsp/drivers/src/altera_avalon_jtag_uart_write.c:106-117 | the room computed from a possibly outdated `tx_out` is still there; zero means the ring was full |
| JtagUart.Driver.CopyIn | software/DES_bsp/drivers/src/altera_avalon_jtag_uart_write.c:122 | the copy puts the bytes behind `tx_in` and leaves the ring to the interrupts alone |
| JtagUart.Driver.StoreTxIn | software/DES_bsp/drivers/src/altera_avalon_jtag_uart_write.c:126 | the store to `tx_in` publishes exactly the copied bytes, and leaves an interrupt owed |
| JtagUart.Driver.EnableTx | software/DES_bsp/drivers/src/altera_avalon_jtag_uart_write.c:136-139 | enabling the interrupt settles what was owed |
| JtagUart.Driver.FillTxRing | software/DES_bsp/drivers/src/altera_avalon_jtag_uart_write.c:103-127 | a prefix is accepted, and bytes left over mean the ring was filled |
| JtagUart.Driver.SpinTx | software/DES_bsp/drivers/src/altera_avalon_jtag_uart_write.c:183-188 | when the spin sees `tx_out` moved there is room again; it gives up only when the host has been away for the time-out, and it is still waiting only while the ring is full and the host counts as there |
| JtagUart.Driver.Write | software/DES_bsp/drivers/src/altera_avalon_jtag_uart_write.c:83-215 | under any interrupts the return value is the length of the accepted prefix; a call returns with less than everything only if non-blocking or after the time-out, and then the ring was filled; a non-blocking call would block, a blocking one fails with an I/O error; it spins only while the ring is full and the host counts as there |
| JtagUart.Driver.Close | software/DES_bsp/drivers/src/altera_avalon_jtag_uart_init.c:241-254 | success means that everything accepted has reached the device, or that the host has been away for the time-out; otherwise bytes are still waiting and the host counts as there |
| JtagUart.Driver.RxRun | software/DES_bsp/drivers/src/altera_avalon_jtag_uart_read.c:122-134 | a possibly outdated `rx_in` only shortens the copy |
| JtagUart.Driver.CopyOut | software/DES_bsp/drivers/src/altera_avalon_jtag_uart_read.c:136 | the copy takes the oldest bytes of the ring, undisturbed by interrupts, and touches nothing else in the buffer |
| JtagUart.Driver.StoreRxOut | software/DES_bsp/drivers/src/altera_avalon_jtag_uart_read.c:140 | the store to `rx_out` retires exactly the copied bytes, and leaves an interrupt owed |
| JtagUart.Driver.EnableRx | software/DES_bsp/drivers/src/altera_avalon_jtag_uart_read.c:188-195 | enabling the interrupt settles what was owed |
| JtagUart.Driver.SpinRx | software/DES_bsp/drivers/src/altera_avalon_jtag_uart_read.c:173-178 | when the spin sees `rx_in` moved there are bytes; it gives up only when the host has been away for the time-out, and it is still waiting only while the ring is empty and the host counts as there |
| JtagUart.Driver.Read | software/DES_bsp/drivers/src/altera_avalon_jtag_uart_read.c:100-203 | under any interrupts the buffer receives the next bytes of the stream and the return value counts them; a call returns with none only if no space, non-blocking (it would block) or after the time-out (an I/O error); it spins only while the ring is empty and the host counts as there |
| JtagUart.Driver.ReleaseWriter | software/DES_bsp/drivers/src/altera_avalon_jtag_uart_write.c:183-191 | a writer that still spins can go on after one interrupt of an eager device that has room |
| JtagUart.Driver.ReleaseReader | software/DES_bsp/drivers/src/altera_avalon_jtag_uart_read.c:173-178 | a reader that still spins can go on after one interrupt of an eager device that has a byte |
| JtagUart.Session | software/DES_bsp/drivers/src/altera_avalon_jtag_uart_write.c:83-215 | over any sequence of read, write and close calls: bytes sent and bytes still in the ring are the accepted prefixes in order; bytes read, in the ring and still pending are the host's stream; waiting bytes have their interrupt on; every answer fits its call, and unless the host has been away for the time-out every blocking call that returned has done what it is for |
| AlarmTime.ExpiryAtTick | software/DES_bsp/HAL/src/alt_tick.c:104-115 | a visit finds the alarm due exactly at its absolute expiry, and otherwise leaves the expiry alone |
| AlarmTime.StartExpiry | software/DES_bsp/HAL/src/alt_alarm_start.c:80-96 | the absolute expiry of a started alarm, in both cases, and when the 32-bit fields name it |
| AlarmTime.RearmExpiry | software/DES_bsp/HAL/src/alt_tick.c:127-137 | an alarm re-armed at a tick expires its period later, across a wrap or not |
| AlarmTime.CallTimesIncrease | software/DES_bsp/HAL/src/alt_tick.c:115-139 | the ideal call times are strictly increasing |
| AlarmTime.StepInStep | software/DES_bsp/HAL/src/alt_tick.c:104-139 | one tick keeps the 32-bit alarm in step with unbounded time, and calls exactly when a call is scheduled |
| AlarmTime.CallsAreExact | software/DES_bsp/HAL/src/alt_tick.c:87-141 | across any number of wraps the callback is called nticks+1 ticks after the start, then each time as many ticks later as it asked for, and at no other tick |
| AlarmTime.FirstCall | software/DES_bsp/HAL/src/alt_alarm_start.c:80-96 | the callback is called at tick nticks+1 and at none before |
| AlarmTime.NextCall | software/DES_bsp/HAL/src/alt_tick.c:115-139 | after a call the next one comes exactly as many ticks later as it asked for, or never if it asked for none |
| AlarmTime.CallsCounted | software/DES_bsp/HAL/src/alt_tick.c:115-139 | after any number of ticks the callback has been called exactly as often as calls were scheduled |
| AlarmTime.WholeTurnFiresAtOnce | software/DES_bsp/HAL/src/alt_alarm_start.c:80-96 | a delay of 2^32-1 asked for at any other moment fires at the next tick |
| AlarmTime.ExactIffTimedRight | software/DES_bsp/HAL/src/alt_alarm_start.c:80-96 | an alarm keeps its ideal times if and only if nticks < 2^32-1 or the counter is at its maximum |
| AlarmList.Insert | software/DES_bsp/HAL/inc/sys/alt_llist.h:90-98 | an entry from outside becomes the first of a list still linked both ways; one that is in the list already closes the links behind it to a loop without the head |
| AlarmList.TrappedForEver | software/DES_bsp/HAL/src/alt_tick.c:87-141 | after that no walk along the links, however long, comes back to the head |
| AlarmList.TrappedIsNotLinked | software/DES_bsp/HAL/inc/sys/alt_llist.h:90-98 | and so the links no longer make a list of any nodes |
| AlarmList.BypassedIsLinked | software/DES_bsp/HAL/inc/sys/alt_llist.h:107-108 | once the neighbours of a node point at each other, the list without it is linked both ways |
| AlarmList.Remove | software/DES_bsp/HAL/inc/sys/alt_llist.h:105-117 | the entry leaves the list and points to itself; removing it again changes nothing |
| AlarmList.RemovedIsGone | software/DES_bsp/HAL/src/alt_tick.c:119-124 | an alarm removed earlier in a walk is not in what is left of the list |
| AlarmList.SurvivesExactly | software/DES_bsp/HAL/src/alt_tick.c:115-124 | an alarm is still in the list after a tick exactly if it was not due or its callback did not return 0 |
| AlarmList.RestStep | software/DES_bsp/HAL/src/alt_tick.c:100-141 | where the next alarm stands in the list as edited so far, and what its visit makes of the list |
| AlarmList.OthersDoNotMatter | software/DES_bsp/HAL/src/alt_tick.c:87-141 | calls that concern other alarms leave an alarm to its own timing |
| AlarmList.Wheel.constructor | software/DES_bsp/HAL/inc/sys/alt_llist.h:75 | the wheel starts with an empty linked list |
| AlarmList.Wheel.AlarmStart | software/DES_bsp/HAL/src/alt_alarm_start.c:64-112 | a started alarm is first in the list with its deadline; on an error nothing changes; the list survives if and only if the alarm was not registered already |
| AlarmList.Wheel.AlarmStop | software/DES_bsp/HAL/src/alt_tick.c:66-73 | a stopped alarm leaves the list; stopping it again changes nothing |
| AlarmList.Wheel.VisitAlarm | software/DES_bsp/HAL/src/alt_tick.c:104-139 | one visit does to the fields what the timing model says, and unlinks the alarm exactly if its callback returned 0 |
| AlarmList.Wheel.VisitAndStep | software/DES_bsp/HAL/src/alt_tick.c:102-140 | the saved successor is the next alarm of the original list |
| AlarmList.Wheel.Tick | software/DES_bsp/HAL/src/alt_tick.c:87-141 | one tick ends, visits every alarm exactly once, and leaves the survivors in their order in a list still linked |
| AlarmList.Wheel.PerformTick | software/DES_bsp/HAL/src/alt_tick.c:87-141 | one tick of the wheel is one tick of the timing model for every alarm |
| AlarmList.Wheel.PerformStart | software/DES_bsp/HAL/src/alt_alarm_start.c:64-112 | starting one alarm leaves all others as they are |
| AlarmList.Wheel.PerformStop | software/DES_bsp/HAL/src/alt_tick.c:66-73 | stopping one alarm leaves all others as they are |
| AlarmList.Wheel.Run | software/DES_bsp/HAL/src/alt_tick.c:87-141 | over any sequence of starts, stops and ticks of any alarms, none started while registered, every alarm goes through the states of the timing model as if it were alone |
| AlarmList.Wheel.StartAndRun | software/DES_bsp/HAL/src/alt_alarm_start.c:64-112 | an alarm that is started, while others are started, stopped and called around it: after any number of ticks its callback has been called exactly as often as calls were scheduled by then, in unbounded time |
| WallClock.Clock.SetTimeOfDay | software/DES_bsp/HAL/src/alt_settod.c:72-96 | stores the 32-bit offset and the zone; without a clock an error and no change |
| WallClock.Clock.GetTimeOfDay | software/DES_bsp/HAL/src/alt_gettod.c:79-123 | returns the normal form of offset plus counter; without a clock an error |
| WallClock.Normal | software/DES_bsp/HAL/src/alt_gettod.c:95-112 | the normal form has the microseconds in range and stands for the same instant, or for zero if that takes a borrow before zero, unless the last carry leaves 32 bits |
| WallClock.Normalise | software/DES_bsp/HAL/src/alt_gettod.c:95-112 | the two loops end, with the normal form; seconds wrap at 32 bits |
| WallClock.ElapsedExact | software/DES_bsp/HAL/src/alt_gettod.c:91-93 | if the rate divides a million, n ticks are n times the microseconds of one |
| WallClock.PerTickRoundsDown | software/DES_bsp/HAL/src/alt_gettod.c:91-93 | a tick counts as the largest whole number of microseconds with which a second of ticks is not too long, at every rate |
| WallClock.EvenIffRateDivides | software/DES_bsp/HAL/src/alt_gettod.c:91-93 | the clock runs evenly for all counter values if and only if the rate divides a million |
| WallClock.WholeTurns | software/DES_bsp/HAL/src/alt_settod.c:83-84 | a multiple of 2^32 microseconds is a whole number of seconds exactly for multiples of 15625 |
| WallClock.ProductKeptIff | software/DES_bsp/HAL/src/alt_settod.c:83-84 | the 32-bit product has the right remainder if and only if what it drops is a multiple of 15625 times 2^32 |
| WallClock.RawAfterSet | software/DES_bsp/HAL/src/alt_settod.c:82-84 | the wrapping sums of setting and reading add up to one wrapped sum of seconds and an exact one of microseconds |
| WallClock.SetThenRead | software/DES_bsp/HAL/src/alt_gettod.c:71-121 | the two calls, with ticks in between, give what the lemmas below are about |
| WallClock.ReadingIff | software/DES_bsp/HAL/src/alt_gettod.c:91-112 | at every tick rate, within a turn of the counter, the reading is the time set plus what the ticks since then make it move, if and only if `ReadsRight` |
| WallClock.SetThenGet | software/DES_bsp/HAL/src/alt_settod.c:60-63 | an immediate reading returns the value set if and only if `ReadsRight` |
| WallClock.ReadingExactIff | software/DES_bsp/HAL/src/alt_gettod.c:91-112 | at an even rate, from any tick to any later one, over any number of turns of the counter: the reading is the right time if and only if the turns in between are a multiple of the rate and the product was kept (or it saturates at zero) |
| WallClock.RightWithinTurn | software/DES_bsp/HAL/src/alt_settod.c:83-84 | a clock set while the product fits 32 bits is right until the counter wraps |
| WallClock.DroppedProduct | software/DES_bsp/HAL/src/alt_settod.c:83-84 | a counterexample to an exact read-back at a thousand ticks a second |
| WallClock.ShownIsDisplay | software/DES_bsp/HAL/src/alt_gettod.c:91-112 | at every tick rate above one a second and any two counter values, what a reading shows, right or wrong: the time set plus what the counter moved, off by what the product dropped, or zero where a borrow is needed before zero |
| WallClock.OrderOfReadings | software/DES_bsp/HAL/src/alt_gettod.c:91-112 | at every such rate, two readings are in order if and only if what they display is |
| WallClock.BackwardsIff | software/DES_bsp/HAL/src/alt_gettod.c:91-112 | at an even rate, any two readings after any setting of the clock, right or wrong, over any number of turns of the counter: the later one does not show an earlier time if and only if `InOrder` (neither saturates and the counter value is not smaller, or the case where one does), or it ticks once a second |
| WallClock.NeverBackwardsWithinTurn | software/DES_bsp/HAL/src/alt_gettod.c:91-112 | so readings within the turn of the counter in which the clock was set never go backwards, even if it was set wrong |
| WallClock.BackwardsWithCounter | software/DES_bsp/HAL/src/alt_gettod.c:91-112 | and after a reading past zero, in whichever turn, the clock goes backwards exactly when the counter value does |
| WallClock.WrongAfterWrap | software/DES_bsp/HAL/src/alt_gettod.c:91-112 | a case of both at a thousand ticks a second: two wrong readings after a wrap, the later one 0.9 seconds before the earlier one although the counter went on |
| Printing.NumeralRoundTrip | software/DES_bsp/HAL/src/alt_log_printf.c:281-296 | the digits of a number read back as the number, in each base |
| Printing.DigitsByName | software/DES_bsp/HAL/src/alt_log_printf.c:286-295 | the sixteen digits in lower and in upper case |
| Printing.NoLeadingZero | software/DES_bsp/HAL/src/alt_log_printf.c:247-255 | the first digit is zero exactly for zero |
| Printing.RepChar | software/DES_bsp/HAL/src/alt_log_printf.c:106-110 | prints the character count times, and nothing for a count of zero or less |
| Printing.CountDigits | software/DES_bsp/HAL/src/alt_log_printf.c:247-255 | finds the number of digits and the largest place value, which always fits 32 bits |
| Printing.EmitStep | software/DES_bsp/HAL/src/alt_log_printf.c:286-295 | dividing by the place value splits off the first digit |
| Printing.EmitDigits | software/DES_bsp/HAL/src/alt_log_printf.c:281-296 | the place-value loop prints exactly the digits of the number |
| Printing.PrintPrefix | software/DES_bsp/HAL/src/alt_log_printf.c:257-279 | sign and padding: zeros after the sign, blanks before it (`Padding` says so place by place) |
| Printing.PrintInteger | software/DES_bsp/HAL/src/alt_log_printf.c:238-297 | prints sign, padding and numeral of the argument |
| Printing.PrintReadRoundTrip | software/DES_bsp/HAL/src/alt_log_printf.c:238-297 | everything printed reads back as the number the argument stands for, with its sign, for every format |
| Printing.OutputWidth | software/DES_bsp/HAL/src/alt_log_printf.c:257-279 | the output is as wide as asked for, or as sign and digits need |
| Printing.Padding | software/DES_bsp/HAL/src/alt_log_printf.c:257-279 | places to fill hold zeros behind the sign, or blanks before it, as the format says |
| Printing.MeaningIsTwosComplement | software/DES_bsp/HAL/src/alt_log_printf.c:238-245 | a signed argument stands for the number between -2^31 and 2^31 with the same 32 bits, an unsigned one for itself |
| Printing.MaskIsNibble | software/DES_bsp/HAL/src/alt_printf.c:104 | masking with a shifted nibble keeps that digit in place |
| Printing.ExtractedDigit | software/DES_bsp/HAL/src/alt_printf.c:98-104 | mask and shift extract a hexadecimal digit, and the mask test is zero exactly for a zero digit |
| Printing.HighestShift | software/DES_bsp/HAL/src/alt_printf.c:96-99 | the search for the first non-zero digit ends at the top digit of the numeral, for every value but zero |
| Printing.PrintHex | software/DES_bsp/HAL/src/alt_printf.c:82-111 | both loops end and print the hexadecimal numeral without leading zeros |
| Printing.PrintersAgree | software/DES_bsp/HAL/src/alt_log_printf.c:309-312 | for `%x` the place-value printer prints what the mask-and-shift printer prints |

## Left out

- Printing.PrintInteger: the field width is an unbounded integer, because widths near 2^31 would need a format string of that many blanks.
- AlarmList.Wheel.Tick: callbacks do not touch the list. A callback that stopped the alarm saved as the successor would leave the walk on a node that points to itself.
- JtagUart.Session: the time-out is fixed over a session; the call that changes it is not modelled, nor are the real-time operating system branches and event flags.
- The small UART driver and the build option that ignores a full FIFO: separate variants.
- The dummy reads of the control register at the end of the interrupt routine: they have no effect on the state modelled here.
- The format-string scanner and `%c`, `%s` of the two printers: short case analyses around the integer conversions.
- The printing in `source.c`: output.
- The key register behind `DES_CONTROL.v`: no such register is connected in the repository any more; the one compared with the pipeline does what `Mux_sel` and `Shift_sel` say.
- `ROUND_KEY.v`, `REGISTER_TOP.v`, `REGISTER_C0_D0.v`, `MUX2_1.v`, `MUX2_1_TOP.v`, `XOR_FUNCTION.v`, `F_XOR_L0.v`: the superseded design.
- A start issued while another is in flight: the read-back and done-bit theorems cover it, the transaction theorems do not.
- WallClock.ReadingIff: whether a reading across a turn of the counter is right at rates that do not divide a million, where the clock does not run evenly in the first place; what it shows then is `ShownIsDisplay`.
- The file-descriptor layer, interrupt dispatch, memory, cache and exception code of the runtime: bounded tables and hardware effects.
- The numbers of the error codes: an error return is one of a few named values.
