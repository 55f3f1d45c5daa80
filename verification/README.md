# EDK II: protocols, tables and text tools, modelled and proved

A Dafny model of the parts of EDK II whose behaviour is hardest to see by
reading one function, with proofs about every schedule, every byte stream and
every input.  `dafny verify dfyconfig.toml` checks all of it.

* **The emulator's multi-processor dispatcher** (`Mp*.dfy`).  Each application
  processor (AP) polls a procedure slot under one mutex and moves READY, BUSY,
  FINISHED under another; the bootstrap processor (BSP) hands out work from
  StartupAllAPs and from a timer callback.  `MpProtocol` is a transition system
  in which one step is one lock section of one thread, so a schedule is any
  interleaving.  `MpInvariant` and `MpBspSteps` hold the inductive invariant,
  `MpTheorems` what it gives for all schedules, `MpProgress` that no wake-up is
  lost, `MpFairness` that every fair run ends and how soon, `MpTiming`, `MpExpiry`
  and `MpBlocking` the time limits.  `MpRearm` is about the blocking call's window,
  `MpSecondCall`, `MpTurns` and `MpFalseSuccess` about which calls it spoils.
  `MpService` is the driver as it is written, loops updating the processor table
  in place with the APs running in between, proved to be a run of that system.
* **The GDB stub's remote serial link** (`Gdb*.dfy`).  `GdbPacket` gives the
  receiver on any byte stream and a grammar of streams that is proved to say the
  same; `GdbLink` the imperative sender and receiver over a port;
  `GdbExchange` both together over a line that damages packets, and binary
  escaping; `GdbMemory` hexadecimal memory transfer and the `M` command.
* **Memory descriptors**: splitting the system memory descriptor around the
  firmware image in place (`MemoryInit.dfy`, `MemoryTheorems.dfy`), and placing the
  UEFI region on 32-bit and 64-bit ARM (`UefiRegion.dfy`).
* **Text tools**: the line-ending normaliser (`FormatDos.dfy`, and
  `FormatLines.dfy` against a line-by-line reference), the diff checker
  (`PatchCheck.dfy`, and `PatchGrammar.dfy` with the grammar of what it accepts),
  and the converter's anonymous labels and saved registers
  (`MasmToNasm.dfy`).
* **Layouts**: SMBIOS record packing (`Smbios.dfy`) and the temporary RAM move
  (`TempRam.dfy`).

Mutable state is modelled as such: processor table, packet buffers and memory
are arrays, the HOB list, checker and converter are objects whose methods update
their fields, and each method is proved against a function or a transition
system about which the theorems are then stated.

## Where the code and its promises part

The model follows the code.  Each point below is proved, with the exact
condition where there is one.

* A blocking StartupAllAPs reads READY and fills the slot in two sections
  (`MpService.c:538-544`).  An AP that clears its slot in between is started a
  second time.  `SecondCallExactlyWhen` shows that this window is the only way.
  What a caller can tell beforehand is `CalledOnceExactly`: no schedule calls an
  AP twice exactly when the call does not block or there is no AP to start.
* The AP that was called twice is counted twice, so the blocking call can return
  success while another enabled AP has never called.  `FalseSuccessTakes` says what
  that takes, `SuccessIsTrueExactly` for which calls it cannot happen: those that
  do not block and those with fewer than two APs to start.
* The callback that brings the remaining time to zero ends the run exactly when
  none of its try-locks fails, those of the scan (`MpService.c:1044-1045`) and
  those of the walk over the failed list (`1094-1097`).  If one fails the limit is
  lost, as the next tick wraps the time (`1023`).  `ExpiryNeedsTheLocks` is that
  condition, `MissReachable` shows both misses in a run from its start.
* SendPacket returns the same length when it gives up as when it is acknowledged
  (`ExchangeDelivers`, `ExchangeGivesUp`).
* ReceivePacket's documentation speaks of whole packets only; the '#' is read in
  the loop only while there is room, so a payload that fills the buffer is
  accepted without one (`ReceiveExactly`, `ReceivedTail`).
* A bad hex digit is noticed only where `CHAR8` is signed; builds with
  `-funsigned-char` (`tools_def.template:1712`) write it as data
  (`BadDigitStopsExactly`).
* The size test of the `M` command is made modulo 2^64.  It lets through data of
  the wrong size exactly for lengths of 2^63 and more, when the data is 2^64
  characters short (`TransfersExactly`, `SizeTestSoundExactly`).  With the length
  "8000000000000001" and the data "AB" a byte of memory is overwritten
  (`WrongSizeTransfers`); where `CHAR8` is signed the answer is then an error,
  where it is unsigned the transfer goes on and is answered OK
  (`AnsweredOkExactly`).
* The response type of a qXfer answer is overwritten by the data
  (`GdbStub.c:798`).
* MemoryPeim's first scan accepts a descriptor that lies wholly below system
  memory, and then declares no system memory at all; only with the image inside
  system memory does an assertion notice (`LowMemoryHidesMainMemory`).
  `MainMemoryExactly` says for every list whether all of system memory is
  declared in the end.
* The same scan passes over a descriptor that holds system memory and goes on
  above it, and system memory is then declared a second time on top of it
  (`LargerMemoryIsDeclaredTwice`).  `StaysDisjointExactly` says when disjoint
  descriptors stay disjoint.
* Firmware that starts its descriptor and ends system memory gets no descriptor
  of its own (`SplitOffExactly`).
* On AArch64 InitializeMemory places the region in memory and clear of an image
  inside it whenever there is room (`PlacedOnAArch64`).  On ARM, where a UINTN has 32 bits, there are
  exactly two exceptions (`GoodIfPlacedExactly`): the sum tested for room below the
  image wraps and there is none above (`ArmSumWraps`), or the image ends with the
  address space, its end is taken for zero, and the region is placed over it
  (`ArmImageAtTheEnd`).
* Its two assertions about an image outside system memory let through one that
  encloses it, on both (`EnclosingImagePasses`, `ElsewhereExactly`).
* The `M` command copies its two fields into buffers of 32 bytes and tests their
  lengths afterwards, so a field of 32 characters or more has overrun its buffer
  before it could be refused (`CopyField`, `WriteToMemory`).  A dump of 1000 bytes
  or more and an escaped text that does not fit overrun their buffers likewise
  (`TransferFromMemToOutBufAndSend`, `XferObjectReadResponse`).
* The converter restores registers only at the first `ret` after a PROC with
  USES (`RetRestoresExactly`), stops with an error exactly when some `ret` stands
  before any PROC (`StopsExactly`), and writes a dangling label exactly for an
  `@b` without an earlier and an `@f` without a later `@@:`
  (`BackDanglesExactly`, `ForwardDanglesExactly`).
* The diff checker does not check anything after a line that a text hunk could not
  hold, except that no file header may follow (`AcceptedExactly`).  In a shell
  script an added line may end in up to four line endings (`PlainLineExactly`).
* An empty string cuts an SMBIOS string set short for its readers
  (`RoundTripExactly`); one that is not the first also hides the end of the record
  from them (`EndsExactly`), and a NULL string pack is sized but then dereferenced
  (`LogSmbiosData`).
* The migration of the temporary RAM keeps the heap exactly when the new stack
  does not run into the old heap (`HeapFollowsExactly`).

## Model

| member | source | states |
|---|---|---|
| MpInvariant.ApKeeps | edk2/EmulatorPkg/CpuRuntimeDxe/MpService.c:1237-1266 | an AP's idle-loop step, at any moment outside the blocking window, keeps the dispatcher's invariant |
| MpBspSteps.StepKeeps | edk2/EmulatorPkg/CpuRuntimeDxe/MpService.c:450-580 | so does every step of every thread |
| MpTheorems.Reached | edk2/EmulatorPkg/CpuRuntimeDxe/MpService.c:450-521 | the invariant holds in every state of every schedule of a run |
| MpTheorems.NonBlockingIsCalm | edk2/EmulatorPkg/CpuRuntimeDxe/MpService.c:486-521 | a non-blocking run never has the window, whatever the schedule |
| MpTheorems.AtMostOnce | edk2/EmulatorPkg/CpuRuntimeDxe/MpService.c:455-484 | no processor calls the procedure twice, the one it calls is the one passed in, and the BSP and disabled APs never call it |
| MpTheorems.EntryOrder | edk2/EmulatorPkg/CpuRuntimeDxe/MpService.c:1048-1063 | the order of entry has one entry for each processor that has called, and is ascending in SingleThread |
| MpTheorems.OneAtATime | edk2/EmulatorPkg/CpuRuntimeDxe/MpService.c:1048-1069 | in SingleThread no two APs are between fetching the work and FINISHED in the same state |
| MpTheorems.CountsConserved | edk2/EmulatorPkg/CpuRuntimeDxe/MpService.c:1066-1070 | in every state before a time-out FinishCount and the started APs not back in IDLE add up to StartCount, the number of enabled APs |
| MpTheorems.SignalledOnce | edk2/EmulatorPkg/CpuRuntimeDxe/MpService.c:1118-1139 | WaitEvent is signalled at most once, and exactly when the run has ended |
| MpTheorems.ExactlyOnce | edk2/EmulatorPkg/CpuRuntimeDxe/MpService.c:1026-1139 | when a run ends other than by time-out, every AP enabled at the start has called the procedure once, gone through all states in order, and is at rest |
| MpTheorems.SingleThreadOrder | edk2/EmulatorPkg/CpuRuntimeDxe/MpService.c:79-106 | a completed SingleThread run has called exactly the enabled APs, in ascending processor number |
| MpProgress.SomeoneWaits | edk2/EmulatorPkg/CpuRuntimeDxe/MpService.c:1048-1069 | if no AP can move and not all are retired, some AP is FINISHED and waits for the BSP, or in a blocking call READY and waits for the work: no wake-up is lost |
| MpProgress.NeverStuck | edk2/EmulatorPkg/CpuRuntimeDxe/MpService.c:1026-1139 | from every state of every non-blocking run some continuation signals WaitEvent |
| MpFairness.StepForward | edk2/EmulatorPkg/CpuRuntimeDxe/MpService.c:1026-1266 | in both modes no step of any thread undoes progress: less is left to do, or no processor has changed |
| MpFairness.RoundProgress | edk2/EmulatorPkg/CpuRuntimeDxe/MpService.c:1026-1139 | a stretch of schedule with a step of every AP and two callbacks' or turns' worth of BSP steps makes progress or finds the run ended, in both modes |
| MpFairness.FairRunsEnd | edk2/EmulatorPkg/CpuRuntimeDxe/MpService.c:1008-1142 | every fair non-blocking run signals WaitEvent, within ten such rounds per processor and one more, whatever else is scheduled in between |
| MpFairness.FairRunsComplete | edk2/EmulatorPkg/CpuRuntimeDxe/MpService.c:450-521 | without a time limit every enabled AP has then called the procedure exactly once and is at rest |
| MpFairness.FairBlockingRunsComplete | edk2/EmulatorPkg/CpuRuntimeDxe/MpService.c:525-580 | a fair blocking call without a limit returns too, every enabled AP having called exactly once and being at rest, if no AP clears its slot inside the window |
| MpFairness.RoundsExist | edk2/EmulatorPkg/CpuRuntimeDxe/MpService.c:1237-1266 | such rounds exist for any number of processors |
| MpFairness.FairCalmRunsExist | edk2/EmulatorPkg/CpuRuntimeDxe/MpService.c:525-580 | from every state of either mode there are schedules with any number of rounds in which no AP clears its slot inside the window |
| MpRearm.SecondCallExactlyWhen | edk2/EmulatorPkg/CpuRuntimeDxe/MpService.c:538-544 | a choice keeps all later runs free of second calls if and only if it is not the AP clearing its slot between the BSP's read of READY and its write |
| MpRearm.Rearmed | edk2/EmulatorPkg/CpuRuntimeDxe/MpService.c:543-544 | after such a choice four steps of the AP make it call again |
| MpRearm.WindowReachable | edk2/EmulatorPkg/CpuRuntimeDxe/MpService.c:525-580 | a blocking call of one AP reaches that choice |
| MpSecondCall.CalledOnceExactly | edk2/EmulatorPkg/CpuRuntimeDxe/MpService.c:450-580 | known before the call: no schedule has an AP call twice if and only if the call does not block or there is no enabled AP |
| MpFalseSuccess.FalseSuccessTakes | edk2/EmulatorPkg/CpuRuntimeDxe/MpService.c:538-579 | success with an enabled AP that has not called takes a blocking call, an AP clearing its slot inside the window, and another enabled AP that has called |
| MpFalseSuccess.TakesTwo | edk2/EmulatorPkg/CpuRuntimeDxe/MpService.c:450-580 | whatever the limit, it takes a blocking call with two enabled APs |
| MpFalseSuccess.SuccessIsTrueExactly | edk2/EmulatorPkg/CpuRuntimeDxe/MpService.c:450-580 | known before the call: whatever the schedule, success means that every enabled AP has called, if and only if the call does not block or has fewer than two enabled APs; for calls without a limit or with one longer than an interval for each AP |
| MpTiming.StallsExact | edk2/EmulatorPkg/CpuRuntimeDxe/MpService.c:117-132 | the stalls of a wait that runs into its limit add up to the limit, and there are ceil(limit / interval) of them |
| MpTiming.StallIs | edk2/EmulatorPkg/CpuRuntimeDxe/MpService.c:117-132 | each of those stalls but the last is the interval, and the last is what is left of the limit |
| MpTiming.RemainsExactly | edk2/EmulatorPkg/CpuRuntimeDxe/MpService.c:117-132 | after each stall or tick the remaining time is one interval less, down to zero |
| MpTiming.WaitForAp | edk2/EmulatorPkg/CpuRuntimeDxe/MpService.c:744-759 | the wait stalls in full intervals, but for what is left at the end of the limit; with a limit it ends, succeeds exactly when one of the first ceil(limit / interval) + 1 looks finds the AP finished, and a time-out has stalled for the limit; without one it ends when a look finds the AP finished; on success the AP is left IDLE |
| MpTiming.Countdown | edk2/EmulatorPkg/CpuRuntimeDxe/MpService.c:117-132 | a time counted down by stalls is zero after ceil(limit / interval) of them and no earlier, and wraps with the next |
| MpExpiry.TimeoutCountsDown | edk2/EmulatorPkg/CpuRuntimeDxe/MpService.c:1022-1024 | in every state of every non-blocking run with a limit the remaining time is the limit counted down by the ticks so far, beyond zero included |
| MpExpiry.RemainingTime | edk2/EmulatorPkg/CpuRuntimeDxe/MpService.c:1022-1024 | while the limit lasts that is the limit less one interval for each tick |
| MpExpiry.NotBeforeTheLimit | edk2/EmulatorPkg/CpuRuntimeDxe/MpService.c:1076-1119 | no run times out before tick ceil(limit / interval) |
| MpExpiry.CallbackEndsRunExactly | edk2/EmulatorPkg/CpuRuntimeDxe/MpService.c:1041-1119 | a callback with no time left ends the run, as timed out, if and only if none of its try-locks fails: those of the scan, and those of the walk over the failed list if the caller asked for one and there is an enabled AP |
| MpExpiry.WalkGivesUpExactly | edk2/EmulatorPkg/CpuRuntimeDxe/MpService.c:1076-1119 | with no time left the end of the callback goes back to waiting exactly for a failed list, an enabled AP and a taken lock, and otherwise signals the time-out with the counters forced to agree |
| MpExpiry.ExpiryNeedsTheLocks | edk2/EmulatorPkg/CpuRuntimeDxe/MpService.c:1022-1119 | so the callback of tick ceil(limit / interval) ends the run if and only if none of its try-locks fails, and otherwise the next tick restarts the countdown from the top of the range |
| MpExpiry.MissReachable | edk2/EmulatorPkg/CpuRuntimeDxe/MpService.c:1041-1099 | from the start of a call a run leads to such a miss, in the scan and in the walk over the failed list |
| MpBlocking.StallsConserved | edk2/EmulatorPkg/CpuRuntimeDxe/MpService.c:525-580 | in every state of every schedule of a blocking call with a limit the remaining time has not wrapped, and the stalls made and those to come are the stalls of the limit |
| MpBlocking.StalledExactly | edk2/EmulatorPkg/CpuRuntimeDxe/MpService.c:569-579 | each stall made by a blocking call is the interval but for what is left at the end, and the remaining time is the limit less one interval for each |
| MpBlocking.TimedOutExactly | edk2/EmulatorPkg/CpuRuntimeDxe/MpService.c:569-579 | a blocking call that has returned timed out exactly when the counters differ, and then it has stalled for the limit exactly |
| MpBlocking.BlockingCallReturns | edk2/EmulatorPkg/CpuRuntimeDxe/MpService.c:525-580 | a blocking call with a limit returns whatever the APs do, within ceil(limit / interval) + 1 turns' worth of BSP steps and those that assign the states |
| MpService.MpSystem.ApIdleStep | edk2/EmulatorPkg/CpuRuntimeDxe/MpService.c:1237-1266 | one section of the idle loop, in place, is the transition system's AP step |
| MpService.MpSystem.SetApProcedure | edk2/EmulatorPkg/CpuRuntimeDxe/MpService.c:65-76 | fills the slot of one processor and changes nothing else |
| MpService.MpSystem.AssignStates | edk2/EmulatorPkg/CpuRuntimeDxe/MpService.c:455-484 | the loop over initial states is a run up to the loop that dispatches or polls, whatever the APs do |
| MpService.MpSystem.DispatchAll | edk2/EmulatorPkg/CpuRuntimeDxe/MpService.c:486-505 | the loop that fills the slots of READY APs is a run |
| MpService.MpSystem.StartupAllAps | edk2/EmulatorPkg/CpuRuntimeDxe/MpService.c:450-521 | the non-blocking call is a run that ends waiting for the timer |
| MpService.MpSystem.GetNextBlockedNumber | edk2/EmulatorPkg/CpuRuntimeDxe/MpService.c:79-106 | the search is a run that finds the next AP to release or none |
| MpService.MpSystem.HandleFinished | edk2/EmulatorPkg/CpuRuntimeDxe/MpService.c:1047-1070 | release the next AP, in a callback feed it too, then retire this one: a run |
| MpService.MpSystem.ScanAp | edk2/EmulatorPkg/CpuRuntimeDxe/MpService.c:1026-1074 | one turn of the callback's loop; it leaves the callback exactly when the try-lock fails |
| MpService.MpSystem.WalkFailedList | edk2/EmulatorPkg/CpuRuntimeDxe/MpService.c:1080-1099 | the walk over the failed list leaves the callback exactly when it reaches an enabled AP whose try-lock fails |
| MpService.MpSystem.CompareCounts | edk2/EmulatorPkg/CpuRuntimeDxe/MpService.c:1077-1139 | time limit and counters: the run signals or waits on |
| MpService.MpSystem.CheckAllAPsStatus | edk2/EmulatorPkg/CpuRuntimeDxe/MpService.c:1008-1142 | a timer callback is a run from one wait to the next or to the signal |
| MpService.MpSystem.PollAp | edk2/EmulatorPkg/CpuRuntimeDxe/MpService.c:526-567 | one turn of the polling loop for one processor is a run: fill the slot of a READY one, count, release and retire for a FINISHED one |
| MpService.MpSystem.StallOrReturn | edk2/EmulatorPkg/CpuRuntimeDxe/MpService.c:569-579 | the end of a turn returns exactly when the counters agree or no time is left, and else spends a stall |
| MpService.MpSystem.StartupAllApsAndWait | edk2/EmulatorPkg/CpuRuntimeDxe/MpService.c:450-580 | the blocking call is a run; with a limit it returns, and without one it returns or has taken as many turns as one asks for |
| MpService.Outcome | edk2/EmulatorPkg/CpuRuntimeDxe/MpService.c:450-521 | what the caller finds in the processor table at the signal: one call and IDLE for each enabled AP, ascending entry in SingleThread |
| MpService.BlockingOutcome | edk2/EmulatorPkg/CpuRuntimeDxe/MpService.c:525-590 | the same for a blocking call that was not cut short, if no AP cleared its slot inside the window |
| GdbPacket.Hex2Decodes | edk2/MdePkg/Library/BaseLib/SafeString.c:2419-2491 | two hex digits written for a byte are read back as that byte |
| GdbPacket.HexCharExactly | edk2/EmbeddedPkg/GdbStub/GdbStub.c:413-427 | the characters read as digits are the hexadecimal ones in either case, each with its value, and no others; those written are the capital ones |
| GdbPacket.HexNumberReads | edk2/MdePkg/Library/BaseLib/SafeString.c:2419-2491 | any number written in hexadecimal is read back, with blanks, zeros and an `x` before it and anything after it; from 2^64 on it saturates; an `x` without a zero gives zero |
| GdbPacket.CheckSumIsSum | edk2/EmbeddedPkg/GdbStub/GdbStub.c:354-364 | the running checksum is the sum of the bytes modulo 256 |
| GdbPacket.CheckSumsAdd | edk2/EmbeddedPkg/GdbStub/GdbStub.c:300-303 | the checksum of two parts is the sum of theirs modulo 256 |
| GdbPacket.FrameExactly | edk2/EmbeddedPkg/GdbStub/GdbStub.c:297-308 | a frame is '$', the data, '#' and the byte sum modulo 256 in two capital digits |
| GdbPacket.AttemptOutcome | edk2/EmbeddedPkg/GdbStub/GdbStub.c:346-387 | what the receiver does with noise, cut-off fragments, data and check characters, followed by anything |
| GdbPacket.AfterFailures | edk2/EmbeddedPkg/GdbStub/GdbStub.c:346-387 | after n failed attempts it is as at the start, but for n '-' sent |
| GdbPacket.ReceiveExactly | edk2/EmbeddedPkg/GdbStub/GdbStub.c:332-390 | the receiver returns data after n '-' if and only if the stream is n failed attempts and a good one with that data |
| GdbPacket.ReceivedTail | edk2/EmbeddedPkg/GdbStub/GdbStub.c:354-382 | the bytes consumed end with '$', the data, '#' (absent only when the buffer is full) and two characters that give the sum of its bytes modulo 256, and the data holds no '$' or '#' |
| GdbLink.SendExactly | edk2/EmbeddedPkg/GdbStub/GdbStub.c:288-311 | the sender stops after n frames exactly when reply n is the first '+' or the retry count is spent |
| GdbLink.Port.PutFrame | edk2/EmbeddedPkg/GdbStub/GdbStub.c:297-308 | one transmission writes '$', the string, '#' and its checksum |
| GdbLink.Port.SendPacket | edk2/EmbeddedPkg/GdbStub/GdbStub.c:274-314 | identical frames, as many as the replies call for, and the length returned |
| GdbLink.Port.ReadCharacters | edk2/EmbeddedPkg/GdbStub/GdbStub.c:353-365 | one pass of the character loop over the buffer |
| GdbLink.Port.AwaitStart | edk2/EmbeddedPkg/GdbStub/GdbStub.c:347-351 | waiting for '$' skips noise and nothing else |
| GdbLink.Port.ReadPacketData | edk2/EmbeddedPkg/GdbStub/GdbStub.c:353-366 | the loop with its restarts leaves the data of the last fragment only |
| GdbLink.Port.Acknowledge | edk2/EmbeddedPkg/GdbStub/GdbStub.c:372-386 | '+' exactly when the two characters have the checksum's value, else '-' |
| GdbLink.Port.ReceivePacket | edk2/EmbeddedPkg/GdbStub/GdbStub.c:332-390 | the buffer, length, replies and unread input are those the receiver function gives for the whole stream |
| GdbExchange.Resynchronises | edk2/EmbeddedPkg/GdbStub/GdbStub.c:322-323 | after any noise and any abandoned fragments a frame is received as its payload alone |
| GdbExchange.ExchangeDelivers | edk2/EmbeddedPkg/GdbStub/GdbStub.c:274-390 | sender, line and receiver taking turns, the first frames damaged and the next one intact within the retry limit: the exchange comes to rest with the payload returned once, that many identical frames sent, and the payload's length returned by the sender |
| GdbExchange.ExchangeGivesUp | edk2/EmbeddedPkg/GdbStub/GdbStub.c:285-313 | when the line damages as many frames as the sender has tries, nothing is received and the sender has sent them all; its return value is that of success |
| GdbExchange.EscapeRoundTrip | edk2/EmbeddedPkg/GdbStub/GdbStub.c:797-811 | unescaping undoes escaping |
| GdbExchange.EscapeIsTame | edk2/EmbeddedPkg/GdbStub/GdbStub.c:801-806 | the escaped text holds no '#', '$' or '*', and no new NUL |
| GdbExchange.EscapeExactly | edk2/EmbeddedPkg/GdbStub/GdbStub.c:801-806 | the four special bytes are sent as 7D 5D, 7D 03, 7D 04 and 7D 0A, every other byte as it is |
| GdbExchange.EscapesAppend | edk2/EmbeddedPkg/GdbStub/GdbStub.c:797-807 | a text is escaped byte by byte |
| GdbExchange.EscapedDelivery | edk2/EmbeddedPkg/GdbStub/GdbStub.c:797-812 | an escaped text that fits is framed, received and unescaped unchanged |
| GdbExchange.EncodeInto | edk2/EmbeddedPkg/GdbStub/GdbStub.c:797-811 | the encoding loop writes the escaped string and its NUL, and overruns the buffer exactly when they do not fit |
| GdbExchange.XferObjectReadResponse | edk2/EmbeddedPkg/GdbStub/GdbStub.c:782-815 | what is sent is the escaped string without the response type, and the count is that of the string plus one, exactly unless the escaped string overruns the buffer |
| GdbMemory.HexRoundTrip | edk2/EmbeddedPkg/GdbStub/GdbStub.c:235-251 | encoding any bytes and writing the text back gives the same bytes |
| GdbMemory.TextRoundTrip | edk2/EmbeddedPkg/GdbStub/GdbStub.c:194-204 | writing any text of hex digits, in either case, and dumping the bytes gives the text back in lower case |
| GdbMemory.BadPairIs | edk2/EmbeddedPkg/GdbStub/GdbStub.c:194-203 | the byte a bad pair is written as where CHAR8 is unsigned |
| GdbMemory.ErrorRepliesDiffer | edk2/EmbeddedPkg/GdbStub/GdbStub.c:440-452 | an error reply is an 'E' and its number in two capital digits, differs for different numbers, and is neither OK nor a dump |
| GdbMemory.DumpAndRestore | edk2/EmbeddedPkg/GdbStub/GdbStub.c:184-255 | a dumped block, written back over any memory, is restored and nothing else changes |
| GdbMemory.BadDigitStopsExactly | edk2/EmbeddedPkg/GdbStub/GdbStub.c:194-204 | the first bad digit, in pair k, stops the transfer after exactly k bytes if and only if CHAR8 is signed |
| GdbMemory.StoreHex | edk2/EmbeddedPkg/GdbStub/GdbStub.c:194-204 | memory is overwritten by the bytes of the pairs up to the first bad one noticed |
| GdbMemory.TransferFromInBufToMem | edk2/EmbeddedPkg/GdbStub/GdbStub.c:184-207 | that, and OK or the error is sent accordingly |
| GdbMemory.EncodeMemory | edk2/EmbeddedPkg/GdbStub/GdbStub.c:234-251 | the buffer holds the lower-case hex text of the block and its NUL, exactly when they fit |
| GdbMemory.TransferFromMemToOutBufAndSend | edk2/EmbeddedPkg/GdbStub/GdbStub.c:218-255 | the text or the address error is sent, for up to 999 bytes; more overrun the buffer |
| GdbMemory.CopyField | edk2/EmbeddedPkg/GdbStub/GdbStub.c:664-676 | a field and its NUL are copied to its buffer and the scan goes on behind the delimiter; the copy leaves the buffer exactly for fields as long as the buffer or longer |
| GdbMemory.WriteToMemory | edk2/EmbeddedPkg/GdbStub/GdbStub.c:651-712 | the `M` command stays inside its buffers exactly when both fields have fewer than 32 characters; then data of the wrong size is refused with memory untouched, and other data overwrites memory up to the first bad pair noticed |
| GdbMemory.TransfersExactly | edk2/EmbeddedPkg/GdbStub/GdbStub.c:702-711 | the command is carried out exactly when the data has twice the length's characters, or the length is 2^63 or more and the data is 2^64 characters short |
| GdbMemory.SizeTestSoundExactly | edk2/EmbeddedPkg/GdbStub/GdbStub.c:702-711 | the size test lets through only the right sizes, whatever the data, exactly for lengths below 2^63 |
| GdbMemory.WrongSizeTransfers | edk2/EmbeddedPkg/GdbStub/GdbStub.c:702-711 | a length and data for which a transfer of the wrong size is carried out, and how much of it is written |
| GdbMemory.AnsweredOkExactly | edk2/EmbeddedPkg/GdbStub/GdbStub.c:684-711 | when the command is answered OK: where CHAR8 is signed exactly for data of the right size with hex digits only, where it is unsigned exactly when it is carried out |
| MemoryInit.HobList.Search | edk2/ArmPlatformPkg/MemoryInitPei/MemoryInitPeiLib.c:95-106 | the walk finds the first descriptor that passes |
| MemoryInit.HobList.Split | edk2/ArmPlatformPkg/MemoryInitPei/MemoryInitPeiLib.c:138-172 | the split in place and the appended pieces |
| MemoryInit.HobList.MemoryPeim | edk2/ArmPlatformPkg/MemoryInitPei/MemoryInitPeiLib.c:92-186 | both scans, the split and the allocation record on the list, and whether the assertion holds |
| MemoryTheorems.CarvedConserves | edk2/ArmPlatformPkg/MemoryInitPei/MemoryInitPeiLib.c:138-172 | in every branch each address is in as many descriptors as before, with the same attributes, and the total length is the same |
| MemoryTheorems.DeclaresExactly | edk2/ArmPlatformPkg/MemoryInitPei/MemoryInitPeiLib.c:97-101 | a descriptor passes the first scan exactly when it is system memory, starts at or below the base, and has nothing above the top |
| MemoryTheorems.HoldsExactly | edk2/ArmPlatformPkg/MemoryInitPei/MemoryInitPeiLib.c:134-136 | and the second exactly when it has every address of the image |
| MemoryTheorems.DeclaredExactly | edk2/ArmPlatformPkg/MemoryInitPei/MemoryInitPeiLib.c:92-186 | for each address and attribute, and in total: MemoryPeim declares system memory once more, with the six attributes, if no descriptor passes the first scan, and nothing else |
| MemoryTheorems.AllocatedExactly | edk2/ArmPlatformPkg/MemoryInitPei/MemoryInitPeiLib.c:175-177 | the only new allocation record is the range of the image, exactly when it is inside system memory and a descriptor holds it |
| MemoryTheorems.OthersKept | edk2/ArmPlatformPkg/MemoryInitPei/MemoryInitPeiLib.c:92-186 | HOBs other than system memory stay as and where they were |
| MemoryTheorems.MemoryConserved | edk2/ArmPlatformPkg/MemoryInitPei/MemoryInitPeiLib.c:128-186 | MemoryPeim conserves what the first scan leaves |
| MemoryTheorems.StaysDisjointExactly | edk2/ArmPlatformPkg/MemoryInitPei/MemoryInitPeiLib.c:92-186 | disjoint descriptors stay disjoint if and only if one passes the first scan or none meets system memory |
| MemoryTheorems.LargerMemoryIsDeclaredTwice | edk2/ArmPlatformPkg/MemoryInitPei/MemoryInitPeiLib.c:97-116 | a list, of one descriptor larger than system memory, after which all of system memory is declared twice |
| MemoryTheorems.AssertionExactly | edk2/ArmPlatformPkg/MemoryInitPei/MemoryInitPeiLib.c:185 | the final assertion holds exactly when no descriptor passes the first scan or some descriptor holds the image |
| MemoryTheorems.SeamsExactly | edk2/ArmPlatformPkg/MemoryInitPei/MemoryInitPeiLib.c:97-106 | all of system memory is declared exactly when its base is, and each address in it at which a descriptor ends |
| MemoryTheorems.MainMemoryExactly | edk2/ArmPlatformPkg/MemoryInitPei/MemoryInitPeiLib.c:92-186 | after MemoryPeim, wherever the image is, all of system memory is declared exactly when no descriptor passes the first scan or the incoming list has those addresses declared |
| MemoryTheorems.LowMemoryHidesMainMemory | edk2/ArmPlatformPkg/MemoryInitPei/MemoryInitPeiLib.c:98-100 | a list after which none of system memory is declared; the assertion fails only for an image inside system memory |
| MemoryTheorems.SplitOffExactly | edk2/ArmPlatformPkg/MemoryInitPei/MemoryInitPeiLib.c:142-153 | the image gets a descriptor of its own except in exactly one case |
| UefiRegion.PlaceUefiRegion | edk2/ArmPlatformPkg/MemoryInitPei/MemoryInitPeim.c:104-134 | the placement as the code computes it, with the word width of ARM or AArch64, equals the function the lemmas below are about |
| UefiRegion.GoodIfPlacedExactly | edk2/ArmPlatformPkg/MemoryInitPei/MemoryInitPeim.c:117-127 | a region placed beside an image inside system memory is in memory and clear of the image if and only if the image does not end with the address space, and the sum tested for room below does not wrap or there is room above |
| UefiRegion.RegionExactly | edk2/ArmPlatformPkg/MemoryInitPei/MemoryInitPeim.c:117-127 | where nothing wraps: at the end of memory if there is room above the image, else right below the image if there is room there, else the assertion |
| UefiRegion.MemoryIsCapped | edk2/ArmPlatformPkg/MemoryInitPei/MemoryInitPeim.c:106-108 | memory beyond the last address that may be allocated is not used: 48 bits on AArch64, 32 on ARM |
| UefiRegion.PlacedOnAArch64 | edk2/MdePkg/Include/AArch64/ProcessorBind.h:142 | with the highest address of AArch64 neither can happen: there is a placement exactly when there is room, and it is always in memory and clear of the image |
| UefiRegion.PlacedOnArm | edk2/ArmPlatformPkg/MemoryInitPei/MemoryInitPeim.c:117-127 | on ARM the same holds if the image, and a region at the base of memory, end below the last address |
| UefiRegion.ArmSumWraps | edk2/ArmPlatformPkg/MemoryInitPei/MemoryInitPeim.c:124-126 | settings on ARM for which the sum wraps and the region is placed below system memory |
| UefiRegion.ArmImageAtTheEnd | edk2/ArmPlatformPkg/MemoryInitPei/MemoryInitPeim.c:110-121 | settings on ARM for which the region is placed over an image at the end of the address space |
| UefiRegion.ElsewhereExactly | edk2/ArmPlatformPkg/MemoryInitPei/MemoryInitPeim.c:128-134 | with the image elsewhere the region is in memory exactly when it is not larger; the image meets memory exactly if it encloses it or ends with the address space |
| UefiRegion.EnclosingImagePasses | edk2/ArmPlatformPkg/MemoryInitPei/MemoryInitPeim.c:130-131 | settings, with an image that encloses system memory, that pass both assertions |
| UefiRegion.RegionHasAHome | edk2/ArmPlatformPkg/MemoryInitPei/MemoryInitPeiLib.c:142-171 | after the split the region lies wholly inside one descriptor, which does not hold the image |
| FormatDos.TwoStepsInsertCr | edk2/BaseTools/Scripts/FormatDosFiles.py:32-34 | the first two substitutions insert exactly the missing CRs, although matches do not overlap |
| FormatDos.RunsAreBlanks | edk2/BaseTools/Scripts/FormatDosFiles.py:37-38 | the substitution of runs drops each blank before a CRLF |
| FormatDos.FormatIsNormal | edk2/BaseTools/Scripts/FormatDosFiles.py:32-40 | every text comes out with a CR before each LF, no blank before CRLF, no tab, and ended |
| FormatDos.NormalExactly | edk2/BaseTools/Scripts/FormatDosFiles.py:32-40 | the normal form byte by byte: 0D before each 0A, neither 20 nor 09 before 0D 0A, no 09, and 0D or 0A at the end |
| FormatDos.FixedExactlyWhenNormal | edk2/BaseTools/Scripts/FormatDosFiles.py:32-40 | the normal texts are exactly those left alone |
| FormatDos.Idempotent | edk2/BaseTools/Scripts/FormatDosFiles.py:32-40 | formatting twice is formatting once |
| FormatDos.ContentKept | edk2/BaseTools/Scripts/FormatDosFiles.py:32-40 | bytes other than CR, LF, blank and tab stay, in order, and so does the number of lines but for an unended last one |
| FormatDos.BytesKept | edk2/BaseTools/Scripts/FormatDosFiles.py:32-40 | every byte but 09, 0A, 0D and 20 occurs as often as before, and 0A as often or once more after an unended last line |
| FormatLines.SameAsByLines | edk2/BaseTools/Scripts/FormatDosFiles.py:32-40 | the five substitutions over the whole text equal a line-by-line reference: each line stripped of its blanks, tabs expanded, ended by CRLF |
| FormatLines.RStripExactly | edk2/BaseTools/Scripts/FormatDosFiles.py:37-38 | what a line loses are the blanks and tabs at its end, all of them |
| FormatLines.TabsExactly | edk2/BaseTools/Scripts/FormatDosFiles.py:40 | a tab becomes two blanks, and every other byte stays |
| PatchCheck.CrlfLineExactly | edk2/BaseTools/Scripts/PatchCheck.py:358-379 | a line that must end in CRLF passes exactly when it is a clean body and CRLF, though the loop over endings does not stop at a match |
| PatchCheck.PlainLineExactly | edk2/BaseTools/Scripts/PatchCheck.py:358-379 | a line of a shell script passes exactly when it is a clean body and some of CR, LF, LF CR and CR LF, in this order, each at most once |
| PatchCheck.HeaderExactly | edk2/BaseTools/Scripts/PatchCheck.py:281-286 | a header is read for its file name, and CRLF is asked for exactly unless that ends in ".sh" |
| PatchGrammar.AcceptedExactly | edk2/BaseTools/Scripts/PatchCheck.py:238-320 | a diff is accepted if and only if it is blank lines, files with their known lines, binary data and hunks, and perhaps an unchecked end, and each added line passes its checks |
| PatchGrammar.WrittenIsRead | edk2/BaseTools/Scripts/PatchCheck.py:263-320 | every diff of that grammar, written as lines, is read back as it was |
| PatchGrammar.AddedLinesPass | edk2/BaseTools/Scripts/PatchCheck.py:314-379 | each added line of an accepted diff is a clean body and CRLF, or in a shell script any line endings |
| PatchCheck.GitDiffCheck.constructor | edk2/BaseTools/Scripts/PatchCheck.py:238-250 | the driver ends, each turn makes progress, and ok holds exactly when every line is as its place in the diff requires |
| PatchCheck.GitDiffCheck.Run | edk2/BaseTools/Scripts/PatchCheck.py:263-320 | one turn keeps ok in step with the lines read |
| PatchCheck.GitDiffCheck.CheckAddedLine | edk2/BaseTools/Scripts/PatchCheck.py:358-379 | ok survives exactly when all four checks pass |
| PatchCheck.GitDiffCheck.CheckTail | edk2/BaseTools/Scripts/PatchCheck.py:274-279 | after the end of the patch only a header is out of order |
| PatchCheck.GitDiffCheck.ReadStart | edk2/BaseTools/Scripts/PatchCheck.py:281-289 | a header or an empty line, else an error; the state follows the line's place |
| PatchCheck.GitDiffCheck.ReadPrePatch | edk2/BaseTools/Scripts/PatchCheck.py:290-308 | a hunk, binary data or a known prefix, else an error |
| PatchCheck.GitDiffCheck.ReadPatch | edk2/BaseTools/Scripts/PatchCheck.py:309-320 | a hunk line; an added one must pass its checks |
| PatchCheck.GitDiffCheck.Reclassify | edk2/BaseTools/Scripts/PatchCheck.py:266-279 | headers and hunk markers change the state, and the patch ends exactly where the line's shape says so |
| PatchCheck.HeadersWereRead | edk2/BaseTools/Scripts/PatchCheck.py:266-286 | in an accepted diff every 'diff --git' line was read as a file header |
| PatchCheck.HunkGoesOn | edk2/BaseTools/Scripts/PatchCheck.py:269-293 | after a hunk marker, hunk lines stand in a text hunk of the same file |
| PatchCheck.AddedLinesWereChecked | edk2/BaseTools/Scripts/PatchCheck.py:314-315 | an accepted diff has passed the checks on each '+' line, and one that fails them is enough for rejection |
| MasmToNasm.NamesDiffer | edk2/BaseTools/Scripts/ConvertMasmToNasm.py:531-532 | labels are equal exactly when their counts are |
| MasmToNasm.BackIsNearestAbove | edk2/BaseTools/Scripts/ConvertMasmToNasm.py:521-525 | `@b` becomes the label written for the nearest '@@:' above |
| MasmToNasm.ForwardIsNearestBelow | edk2/BaseTools/Scripts/ConvertMasmToNasm.py:526-528 | `@f` becomes the label written for the nearest '@@:' below |
| MasmToNasm.LabelsDistinct | edk2/BaseTools/Scripts/ConvertMasmToNasm.py:421-423 | the anonymous labels written are all different |
| MasmToNasm.LabelNumber | edk2/BaseTools/Scripts/ConvertMasmToNasm.py:421-423 | the label of a '@@:' is '.' and the number of those above it |
| MasmToNasm.BackDanglesExactly | edk2/BaseTools/Scripts/ConvertMasmToNasm.py:521-525 | the label for `@b` is one that is written exactly when there is an earlier '@@:' |
| MasmToNasm.ForwardDanglesExactly | edk2/BaseTools/Scripts/ConvertMasmToNasm.py:526-528 | the label for `@f` is one that is written exactly when there is a later '@@:' |
| MasmToNasm.PushesSave | edk2/BaseTools/Scripts/ConvertMasmToNasm.py:486-488 | the pushes put the registers' values on the stack in order |
| MasmToNasm.ProcExactly | edk2/BaseTools/Scripts/ConvertMasmToNasm.py:468-488 | what a PROC line writes, run on a machine, saves the listed registers in order and nothing else; its label is written once, and made global exactly when it is not private |
| MasmToNasm.PopsRestore | edk2/BaseTools/Scripts/ConvertMasmToNasm.py:427-430 | the pops take them off again, each into its register |
| MasmToNasm.RetRestoresExactly | edk2/BaseTools/Scripts/ConvertMasmToNasm.py:427-433 | run the code written for PROC, a balanced body, and the code written for a `ret`: stack and registers are restored exactly when it is the first `ret` of its procedure or nothing is listed |
| MasmToNasm.Converter.Convert | edk2/BaseTools/Scripts/ConvertMasmToNasm.py:270-292 | the output is, line by line, what the lines above determine |
| MasmToNasm.StopsExactly | edk2/BaseTools/Scripts/ConvertMasmToNasm.py:427-428 | the converter stops with an error exactly when some `ret` has no PROC above it |
| MasmToNasm.TextKept | edk2/BaseTools/Scripts/ConvertMasmToNasm.py:521-529 | operands without `@b` and `@f`, and lines of other kinds, come out unchanged |
| MasmToNasm.OutputInOrder | edk2/BaseTools/Scripts/ConvertMasmToNasm.py:270-292 | what is written for a line follows all that was written before it |
| MasmToNasm.Converter.TranslateAsm | edk2/BaseTools/Scripts/ConvertMasmToNasm.py:421-433 | one line, with counter and register list kept in step |
| MasmToNasm.Converter.TranslateRet | edk2/BaseTools/Scripts/ConvertMasmToNasm.py:427-433 | pops in reverse order, then `ret`, and the list is cleared |
| MasmToNasm.Converter.TranslateProc | edk2/BaseTools/Scripts/ConvertMasmToNasm.py:468-488 | global unless private, label, pushes in order |
| MasmToNasm.Converter.ConvertAnonymousLabels | edk2/BaseTools/Scripts/ConvertMasmToNasm.py:521-529 | each operand converted by the current count |
| Smbios.RecordSize | edk2/EmulatorPkg/CpuRuntimeDxe/Cpu.c:183-199 | the size is what the packed strings and the closing NULs need, two bytes for a NULL pack |
| Smbios.AppendStrings | edk2/EmulatorPkg/CpuRuntimeDxe/Cpu.c:208-214 | every write in bounds; the strings are packed after the fixed part and nothing else changes |
| Smbios.LogSmbiosData | edk2/EmulatorPkg/CpuRuntimeDxe/Cpu.c:183-215 | the record is the template, the packed strings and the closing NULs, with no byte over; a NULL pack has no result |
| Smbios.ReadsUpToEmpty | edk2/EmulatorPkg/CpuRuntimeDxe/Cpu.c:208-215 | a reader of section 6.1.3 of DMTF DSP0134 gets the strings up to the first empty one |
| Smbios.RoundTripExactly | edk2/EmulatorPkg/CpuRuntimeDxe/Cpu.c:183-215 | the record ends in two NULs, and reading it gives the list back exactly when no string is empty |
| Smbios.EndsExactly | edk2/EmulatorPkg/CpuRuntimeDxe/Cpu.c:208-215 | a reader that goes on to the first two NULs finds the end of the record exactly when no string but the first is empty |
| TempRam.AlignIsLeast | edk2/MdePkg/Include/Base.h:879 | ALIGN_VALUE is the least multiple of the alignment not below the value |
| TempRam.HalfFitsExactly | edk2/ArmPlatformPkg/PrePeiCore/PrePeiCore.c:116 | the aligned half fits in the whole exactly when the whole is at least the alignment, or at most one byte |
| TempRam.HeapIsLeast | edk2/ArmPlatformPkg/PrePeiCore/PrePeiCore.c:116 | the heap is the least multiple of the alignment not below half |
| Common.CopyMem | edk2/ArmPlatformPkg/PrePeiCore/PrePeiCore.c:124-132 | a block copy, overlapping or not, and nothing else changed |
| TempRam.TemporaryRamSupport | edk2/ArmPlatformPkg/PrePeiCore/PrePeiCore.c:116-134 | after both copies each old stack byte is at its address plus the delta, each heap byte at its heap offset if the new stack spares the old heap, and nothing else has changed |
| TempRam.HeapFollowsExactly | edk2/ArmPlatformPkg/PrePeiCore/PrePeiCore.c:121-132 | the heap is kept, whatever it holds, exactly when the new stack does not run into the old heap |
| TempRam.PrimaryMain | edk2/ArmPlatformPkg/PrePeiCore/MainUniCore.c:36-53 | heap and stack partition the temporary RAM, with the border the migration uses |

## Left out

- StartupAllAPs' parameter, EFI_NOT_READY and EFI_UNSUPPORTED checks, and its constant return value; a run starts with every AP at rest, and runs do not overlap.
- The failed-CPU lists, recovery after a time-out, SwitchBSP and EnableDisableAP: unfinished in the source or not matching its comments.
- StartupAllApsAndWait: without a time limit the loop need not end, and the method gives as many turns as it is asked for; FairBlockingRunsComplete says when they are enough.
- SuccessIsTrueExactly: for limits of no more than an interval for each AP only one half is stated (TakesTwo): whether such a limit leaves time for the two counts depends on how many turns the mode needs.
- WaitForAp: with the limit 0 assumes that some look finds the AP finished, as the loop waits for ever otherwise; the non-blocking path of StartupThisAP is not modelled.
- FairRunsEnd, FairBlockingRunsComplete: that the host's threads and timer do schedule such rounds, with no try-lock failing inside them, is assumed, and with it that procedures return.
- GDB registers, breakpoints, exceptions and the PE/COFF lookup; ValidateAddress is a parameter.
- ReceivePacket, SendPacket: silence on the line is an answer None where the stub would wait.
- WriteToMemory: packets without ',' or ':', where the source reads past them; what happens after a field has overrun its buffer; the address range is assumed to lie in memory.
- TransferFromMemToOutBufAndSend, XferObjectReadResponse: what happens after the buffer has been overrun.
- HexToUintn: an `x` counts as a prefix when a zero stands before it among the characters looked at; a byte before the string is not modelled.
- MemoryPeim: ranges that wrap round the 64-bit address space are excluded from the theorems; MMU set-up and other HOB types are not modelled.
- PlaceUefiRegion: ranges that run past the address space; PeiServicesInstallPeiMemory is not modelled.
- MasmToNasm: lines are taken as classified; the regular expressions, other directives and conversions, the prefix put before other uses of a global symbol, white space, comments and NASM's scoping of local labels are not modelled.
- PatchCheck: the old-debug-macro expression is an arbitrary predicate; messages, the list of new binary files and the e-mail and commit-message checks are not modelled.
- LogSmbiosData: a failed allocation and the SMBIOS protocol call are not modelled.
- PrimaryMain: the PPI list and the jump to the PEI core.
- TemporaryRamSupport: copy sizes between 2 and the alignment, for which no aligned half fits (HalfFitsExactly) and the size of the stack copy wraps; the stack switch.
- File reading and writing in the scripts, and the files they choose.
