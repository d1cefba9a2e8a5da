# Flipper in Dafny

A Dafny model of the parts of the Flipper repository that carry its logic, and proofs of what
they do: the Osmium round-robin scheduler, the CRC-16 that guards every message, the Flipper
Message Runtime from the host's argument list to the device's function and back, the linked list
and the module registry under it, the debug endpoint and the UART of the USB controller, the
firmware uploader's framing, the control endpoint's descriptor request, and the PWM clock search.

Code that works in place is modelled in place: each class or array method is proved equal to a
function on values, and the theorems about whole runs are proved about that function.

| file | models |
|---|---|
| Schedule, Effects, RoundRobin, Waiting, Scheduler | the task ring: calls as steps on values, what each means, fairness, bounded waiting, and the linked ring on the heap |
| Poly, Lfsr, Word, BitStream, Crc, Octet | polynomials over two elements, division by shifting, the 16-bit register, bytes |
| Wire, Values, Integrity, Fmr, Host, Runtime, Lookup, Invoke | packets, the numbers in them, damage to them, the device, the host, the device's heap, the lookup of a module, a whole call |
| LinkedList, Registry | lf_ll and the module list |
| DebugFifo, DebugPort, Uart | the debug bank with its flush timer, and the receive buffer |
| Upload, Descriptor, Pwm | XMODEM framing, GET_DESCRIPTOR, clock words |

Values of 64 bits are the eight bytes they occupy. Integers wrap where the source's width matters:
the task count, the module field, the argument count, block numbers, the 16-bit pointers. What the
hardware, the host or another context does is a parameter: the events between two polls, the
bytes on a line, the answers of a boot loader, the memory after a packet.

Where the code does not do what its comments or names promise, the model follows the code:

- `os_task_release` says that it removes a task; its parent loop never leaves the head, so only the
  task after the head is unlinked (`Scheduler.Scheduler.Release`).
- `os_task_next` marks the outgoing task idle whatever its status, so pausing the running task is
  undone if a tick precedes the switch (`Schedule.PauseSurvivesTickIff`).
- `fmr_perform` computes an error for a failed handler and then overwrites it with the error state,
  so a call to a function that does not exist is answered with E_OK (`Fmr.CallReportedOkIff`).
- For the same reason a lookup of a name that is not registered is answered with E_OK and index 0, and
  the call goes on to the first module; and `fmr_dyld` looks up the string that follows the packet
  structure in memory, not the one in the packet (`Lookup.LookupAnswered`, `Invoke.InvokeByName`).
- The module index of a call is a 16-bit index cut to 8 bits (`Registry.LookupsAgreeIff`).
- `lf_invoke_by_index` checks neither the number nor the size of its arguments; which lists stay
  inside the packet, and which leave the checksum inside it, is `Host.InsideIff` and
  `Host.ChecksumReadsInsideIff`.
- `lf_create_call` succeeds with more than 16 arguments, whose types then overlap the argument bytes
  (`Host.CreatedLosesFirstByte`).
- SET_CONFIGURATION and CLEAR_FEATURE wipe out the bytes in the debug bank and leave the flush timer
  running (`DebugFifo.NothingLostIff`, `DebugFifo.ResetSendsZerosIff`).
- The uploader takes the success code 0 for a failure at every status test. With the statuses as
  parameters, `Upload.ImageOutIff` says when an image goes out once the page loop is reached; with the
  status that `uart0_reset` returns nothing does (`Upload.ResetEndsEverything`).
- A PWM divisor of 256 spills into the prescaler field, and a frequency above the master clock is
  accepted as 0 (`Pwm.RecoverableIff`, `Pwm.ZeroIff`).

`dafny verify dfyconfig.toml` checks the project.

## Model

| member | source | states |
|---|---|---|
| `RoundRobin.Fairness` | os/arch/armv7/scheduler.c:168-192 | With k runnable tasks, any k ticks from any state satisfying the invariant make each of them current exactly once and no paused task ever, in ring order after the current one, and end at the task they started from with the same tasks paused. |
| `RoundRobin.TicksFollowRotation` | os/arch/armv7/scheduler.c:168-192 | The m-th tick runs the m-th task of the rotation, for every m up to one trip around; the invariant and the paused set are kept. |
| `RoundRobin.TickRotates` | os/arch/armv7/scheduler.c:168-192 | One tick runs the head of the rotation and moves it to the back. |
| `Waiting.WaitIsBounded` | os/arch/armv7/scheduler.c:62-261 | Whatever tasks are created, paused and stopped meanwhile, a task that can run, and is not itself paused or stopped, gets the CPU before there have been as many ticks as it was steps away on the ring plus one for every task created, if nothing is resumed. |
| `Waiting.StepApproaches` | os/arch/armv7/scheduler.c:62-261 | One call: the task runs or is no further away than before, a tick bringing it closer and a creation taking it one further. |
| `Waiting.ChurnStarves` | os/arch/armv7/scheduler.c:62-165 | The created tasks have to count: with one created before and one stopped after every tick, on a ring of at most four tasks, the kernel task, which can always run, waits through any number of ticks. |
| `RoundRobin.SelectSkipsOnlyPaused` | os/arch/armv7/scheduler.c:168-186 | os_task_next selects the first runnable task strictly after the current one in ring order: everything passed over is paused. |
| `RoundRobin.RotationCount` | os/arch/armv7/scheduler.c:168-186 | The rotation lists every runnable task, and nothing else, exactly once. |
| `Schedule.FirstRunnable` | os/arch/armv7/scheduler.c:175-181 | The skip loop terminates, with the distance to the never-paused head as measure, at a runnable task. |
| `Schedule.FirstRunnableIsFirst` | os/arch/armv7/scheduler.c:175-181 | Nothing runnable is skipped, with wrap-around at the end of the ring. |
| `Schedule.SelectIdempotent` | os/arch/armv7/scheduler.c:168-186 | Calling os_task_next again before the switch selects the same task and changes no status. |
| `Schedule.FindPidIsFirst` | os/arch/armv7/scheduler.c:195-202 | The task returned for a pid is the first one in ring order that has it. |
| `Schedule.TickKeepsInv` | os/arch/armv7/scheduler.c:258-261 | A tick keeps the invariant. |
| `Schedule.PauseKeepsInv` | os/arch/armv7/scheduler.c:205-221 | Pausing any task but the kernel task keeps the invariant, whether or not it is running. |
| `Schedule.ResumeKeepsInv` | os/arch/armv7/scheduler.c:224-243 | Resuming any task but the kernel task keeps the invariant. |
| `Schedule.StopKeepsInv` | os/arch/armv7/scheduler.c:133-165 | Releasing the task after the head keeps the invariant, also when it is the running one. |
| `Schedule.StepKeepsInv` | os/arch/armv7/scheduler.c:62-261 | Every enabled call keeps: pids unique and below next_pid, a running task that is not paused, no active task but it, a runnable kernel task at the head. |
| `Schedule.After` | os/arch/armv7/scheduler.c:26-261 | After every legal run of calls the invariant holds. |
| `Schedule.PausedUntilResumed` | os/arch/armv7/scheduler.c:168-243 | A paused task is never the running one in any run that does not resume it. |
| `Schedule.PauseAndResumeTakeEffect` | os/arch/armv7/scheduler.c:205-243 | Pausing takes the task off the CPU and resuming makes it the running, active one. |
| `Effects.StepMeans` | os/arch/armv7/scheduler.c:62-261 | Every call of a run does what it means, said of the records and of who runs: the following rows, by pid. |
| `Effects.TickMeans` | os/arch/armv7/scheduler.c:168-192 | The first task after the running one that can run takes over and is active, everything passed being paused; the outgoing one is idle; no other record changes. |
| `Effects.PauseMeans` | os/arch/armv7/scheduler.c:205-221 | Pausing a waiting task changes its status and nothing else, and the running task stays; pausing the running one hands over to the first task after it that can run. |
| `Effects.ResumeMeans` | os/arch/armv7/scheduler.c:224-243 | The resumed task runs and is active, the outgoing one is idle, and no third record changes. |
| `Effects.StopMeans` | os/arch/armv7/scheduler.c:133-165 | After releasing the task behind the head the others keep pid, status and order; the same task runs on, or, if the released one was running, the first one after it that can run. |
| `Effects.StopFurtherMeans` | os/arch/armv7/scheduler.c:133-165 | After releasing a task further on nothing changes, unless it was running: then the first task after it that can run takes over. |
| `Effects.NothingForNoOne` | os/arch/armv7/scheduler.c:205-255 | Calls for the kernel task and for pids that no task has do nothing. |
| `Effects.RunsUntilTick` | os/arch/armv7/scheduler.c:62-261 | Over any run without ticks and resumes the running task keeps the CPU, unless a call pauses or stops it. |
| `Schedule.PauseSurvivesTickIff` | os/arch/armv7/scheduler.c:168-221 | If a tick comes before the switch that os_task_pause queued, the pause of any task but the kernel task survives if and only if the task was not the running one. |
| `Scheduler.Scheduler.constructor` | os/arch/armv7/scheduler.c:26-43 | The initial heap represents the boot schedule: the kernel task alone on a closed ring. |
| `Scheduler.Scheduler.SkipPaused` | os/arch/armv7/scheduler.c:175-181 | The pointer loop stops at the task the value model selects. |
| `Scheduler.Scheduler.Activate` | os/arch/armv7/scheduler.c:175-186 | From the label on: the first runnable task is marked active and becomes the next one. |
| `Scheduler.Scheduler.TaskNext` | os/arch/armv7/scheduler.c:168-186 | os_task_next on the linked ring refines the value model: the chosen task and every status. |
| `Scheduler.Scheduler.Switch` | os/arch/armv7/scheduler.c:189-192 | The proposed task becomes the current one. |
| `Scheduler.Scheduler.Tick` | os/arch/armv7/scheduler.c:258-261 | A tick on the heap is a tick of the schedule it represents. |
| `Scheduler.Scheduler.CreateTask` | os/arch/armv7/scheduler.c:79-131 | A fresh idle task gets the next pid and links to the head. |
| `Scheduler.Scheduler.Add` | os/arch/armv7/scheduler.c:62-77 | The task is linked in after the last one; the ring stays closed; the 8-bit count wraps, so it equals the number of tasks while there are at most 255. |
| `Scheduler.Scheduler.FromPid` | os/arch/armv7/scheduler.c:195-202 | The ring walk finds the first task with that pid, or null after one trip. |
| `Scheduler.Scheduler.MarkPaused` | os/arch/armv7/scheduler.c:212-216 | What os_task_pause leaves before the switch, which is what `PauseSurvivesTickIff` starts from. |
| `Scheduler.Scheduler.Pause` | os/arch/armv7/scheduler.c:205-221 | Error without effect for pid 0 and unknown pids; otherwise the pause of the value model. |
| `Scheduler.Scheduler.Resume` | os/arch/armv7/scheduler.c:224-243 | Error without effect for pid 0 and unknown pids; otherwise the resume of the value model. |
| `Scheduler.Scheduler.Unlink` | os/arch/armv7/scheduler.c:145-151 | The parent loop unlinks the task if it directly follows the head and otherwise changes nothing. |
| `Scheduler.Scheduler.Depart` | os/arch/armv7/scheduler.c:152-162 | The count drops by one; if the released task was running, the first runnable task from its successor on takes over. |
| `Scheduler.Scheduler.OthersFormNoRing` | os/arch/armv7/scheduler.c:145-151 | While its predecessor links to a task beyond the first after the head, the other tasks form no closed ring. |
| `Scheduler.Scheduler.Release` | os/arch/armv7/scheduler.c:133-165 | The remaining tasks form a closed ring in unchanged order if and only if the released task directly follows the head; any other task stays linked although the count has dropped, and then all that changes is that the first runnable task after it takes over if it was running. Null and the kernel task are refused without effect. |
| `Scheduler.Scheduler.Stop` | os/arch/armv7/scheduler.c:246-255 | Error without effect for pid 0 and unknown pids; otherwise a release, with the schedule it leaves in either case. |
| `Scheduler.Scheduler.Spawn` | os/arch/armv7/scheduler.c:62-131 | Creating and adding a task appends one idle entry to the schedule. |
| `Scheduler.Scheduler.Perform` | os/arch/armv7/scheduler.c:26-261 | One enabled call of a run: the heap represents the next schedule, the call has done what it means, and the invariant holds again, so every theorem about runs is one about the heap. |
| `Crc.Calcrc` | lib/crc.c:7-23 | Both loops, for signed and unsigned char, compute the register function the theorems are about. |
| `Word.SignExtensionVanishes` | lib/crc.c:12-12 | The sign extension in the cast of a char does not reach the 16-bit register. |
| `Crc.FromBits` | lib/crc.c:7-23 | The byte-at-a-time register equals a bit-serial divider by the generator, from any start value. |
| `Crc.CrcIsTheRemainder` | lib/crc.c:7-23 | A polynomial is the remainder of message times x^16 by x^16+x^12+x^5+1 (section 2 of ITU-T Recommendation V.41) if and only if it is the checksum. |
| `Crc.Linear` | lib/crc.c:7-23 | The checksum of a bitwise sum is the sum of the checksums. |
| `Crc.BurstDetected` | lib/crc.c:7-23 | Different messages of one length whose differences lie within 16 consecutive bits, at any bit position, have different checksums. |
| `Crc.ChecksumKeepsParity` | lib/crc.c:7-23 | The checksum has an odd number of set bits if and only if the message has. |
| `Crc.OddDamageDetected` | lib/crc.c:7-23 | Messages of one length that differ in an odd number of bits have different checksums. |
| `Crc.SeventeenBitsUndetected` | lib/crc.c:7-23 | A 17-bit burst that is not noticed. |
| `Crc.UndetectedIffMultiple` | lib/crc.c:7-23 | Corruption goes unnoticed if and only if the difference is a multiple of the generator. |
| `Crc.ResidueIffChecksum` | lib/crc.c:7-23 | A message followed by two bytes has checksum zero if and only if they are its own checksum, high byte first. |
| `Octet.LfCrc` | lib/crc.c:26-29 | The checksum as the two bytes stored in memory, low byte first. |
| `Integrity.BurstRejected` | lib/fmr.c:47-56 | A packet that fmr_perform accepts is refused after any burst of up to 16 bits in its checksummed part that spares the length field. |
| `Integrity.ChecksumFieldDamageRejected` | lib/fmr.c:49-56 | Any change confined to the checksum field is refused. |
| `Fmr.RemoteCall` | lib/fmr.c:40-92 | A packet as lf_invoke_by_index builds it runs exactly the named function, once, on arguments equal to the given ones in number, order, type and transmitted bytes, each read as the number given modulo its type's width, and the one answer carries what it returned. |
| `Values.SizeIsWidth` | lib/fmr_helper.c:28-42 | lf_sizeof is the width of the C type for every type code: one more than its low three bits for the fixed-width codes, 4 for int, 8 for 64-bit unsigned and pointers, 0 for every other. |
| `Values.SameArgsSameNumbers` | lib/fmr.c:133-141 | Arguments whose transmitted bytes are equal are read, by their C types, as the numbers given modulo those types' widths, whatever the records held above them. |
| `Values.NumberArrives` | lib/fmr.c:133-141 | A number that its type can hold is read as that number. |
| `Invoke.InvokeByIndex` | lib/libflipper.c:126-166 | From the linked argument list on the host to the heap of the device and back, for every list whose writes stay inside the packet: the device performs the built packet, sends one record, and retval is its value. If the list fits and the function exists, that function ran once on the arguments given and retval is what it returned. |
| `Invoke.InvokeByName` | lib/libflipper.c:113-166 | The lookup and then the call, on the device. The lookup fails if and only if the name is too long or the device has no modules; otherwise the function of the module it reaches runs once on the arguments given. If the device looked up the name that was meant, that is the named module if and only if it is registered among the first 256, and the first module if it is not registered. |
| `Invoke.LookUp` | lib/dyld.c:123-181 | What lf_dyld_dyn_sym_lookup returns, through the packet it builds and the answer of the device. |
| `Lookup.LookupAnswered` | lib/fmr.c:186-203 | A device with modules answers every lookup with E_OK: the index of the module whose name follows the packet structure in its memory, and zero if there is none, whatever name was sent. |
| `Lookup.FmrDyld` | lib/fmr.c:186-203 | fmr_dyld on the packet buffer and the module list yields that outcome. |
| `Lookup.RequestAccepted` | lib/dyld.c:124-156 | The lookup packet passes the magic and checksum tests and is of the lookup class. |
| `Lookup.RequestCarriesName` | lib/dyld.c:146-153 | Read back as a C string after the header, the packet holds the name asked for. |
| `Lookup.BuildLookup` | lib/dyld.c:124-156 | The in-place construction yields the specified lookup packet. |
| `Lookup.ReachesNamedIff` | lib/dyld.c:102-118 | Which module the low byte of the answered index is the position of: the named one if and only if it is registered among the first 256, the first one if it is not registered. |
| `Wire.DecodesWhatWasSent` | lib/fmr.c:127-148 | The argument loop of fmr_rpc recovers types, order and low bytes of every argument sent, whatever memory holds elsewhere. |
| `Wire.SentPacketAccepted` | lib/fmr.c:47-56 | A built packet passes the magic and checksum tests. |
| `Fmr.CallArrives` | lib/fmr.c:118-149 | Module, function, count and arguments arrive as sent. |
| `Fmr.OneRecordPerPacket` | lib/fmr.c:40-92 | A dispatched packet is answered by what its handler wrote and one result record; one that is not by a record with value 0 and the error of the test it failed, and the world is as it was. |
| `Fmr.RunAnswersEachPacketOnce` | lib/fmr.c:40-92 | What is sent over any run of packets is, packet by packet, their answers; a packet is dispatched exactly when the device would have dispatched it at the start, and only dispatched packets change the world. |
| `Fmr.CallReportedOkIff` | lib/fmr.c:67-86 | The answer to a call says E_OK if and only if the module exists and the function, if in range, left no error: a function index out of range fails and is still reported as E_OK with value 0, a missing module as E_NULL. |
| `Fmr.Register` | lib/fmr.c:14-18 | Registration succeeds if and only if the class is in range and a handler is given; the slot of that class then holds the handler, and nothing else changes. |
| `Host.BuildCall` | lib/libflipper.c:126-153 | The in-place construction, advancing pointers, 8-bit count and checksum included, yields the specified packet for every list whose writes stay inside it. |
| `Host.BuiltIsEncode` | lib/libflipper.c:126-153 | For a list that fits, that packet is the encoding the receiver theorems are about, whatever follows it in memory. |
| `Host.InsideIff` | lib/libflipper.c:139-149 | Every write of the argument loop stays inside the packet if and only if at most 54 arguments with at most 38 bytes are counted. |
| `Host.ChecksumReadsInsideIff` | lib/libflipper.c:134-153 | The packet does not depend on the memory after it if and only if its length is at most 64. |
| `Host.BuiltAcceptedIff` | lib/fmr.c:47-56 | A device accepts a built packet if and only if the checksum over its own memory, up to the claimed length, is the host's. |
| `Host.AcceptedEverywhereIff` | lib/fmr.c:47-56 | A built packet is accepted whatever follows it in either memory if and only if its length is at most 64. |
| `Host.WriteArgs` | lib/libflipper.c:136-150 | The loop makes the writes of the counted arguments in order. |
| `Host.WrittenIsFrame` | lib/libflipper.c:136-150 | With at most 16 arguments those writes put each type into its slot and each value after the last, and nothing else. |
| `Host.CreateCall` | lib/fmr_helper.c:66-94 | It succeeds if and only if the counted arguments and their bytes are at most 38, which is exactly when the other builder's length is at most 64; the packet is then the one with these writes made in order, all of them inside, for any number of arguments and any earlier contents. |
| `Host.CreatedIsFrame` | lib/fmr_helper.c:66-94 | In a blank packet with at most 16 arguments each type is in its slot and each value has its bytes. |
| `Host.CreatedLosesFirstByte` | lib/fmr_helper.c:77-89 | After a success with more than 16 arguments, the first 16 with any bytes among them, the first argument byte holds the seventeenth type. |
| `Host.WriteArgsChecked` | lib/fmr_helper.c:75-89 | The checked loop stops at the first argument that does not fit, after writing its type, and otherwise makes all the writes. |
| `Host.SeventeenthSlot` | lib/fmr_helper.c:77-89 | With more than 16 arguments the first argument byte ends as the seventeenth type if the first 16 have bytes or none has, and otherwise as the first byte of the payload, the type being lost. |
| `Host.SeventeenBytesFit` | lib/fmr_helper.c:77-89 | Seventeen one-byte arguments are a list both builders take. |
| `Runtime.Endpoint.RegisterHandler` | lib/fmr.c:14-18 | fmr_register on the endpoint refines the registration function. |
| `Runtime.Endpoint.DecodeArgs` | lib/fmr.c:127-148 | The heap list built by the argument loop holds the decoded arguments in order. |
| `Runtime.Endpoint.Call` | lib/fmr.c:118-153 | fmr_rpc on the heap refines the value model: result, world and error. |
| `Runtime.Endpoint.Dispatch` | lib/fmr.c:74-76 | The packet is the current one during the handler only; afterwards none is. |
| `Runtime.Endpoint.CheckCrc` | lib/fmr.c:49-56 | The checksum field is cleared in place and the verdict is that of the packet as received. |
| `Runtime.Endpoint.Perform` | lib/fmr.c:40-92 | fmr_perform on the heap refines the value model, so every theorem about packets is one about it. |
| `Registry.NamesStayDistinct` | lib/dyld.c:17-50 | Whatever indices are asked for, no name is registered twice, nothing registered is lost or moved, and every requested name can be found. |
| `Registry.PositionsAssigned` | lib/dyld.c:17-50 | Modules that ask for it get their list position as index. |
| `Registry.RegisterMeans` | lib/dyld.c:17-50 | A new module goes to the end with the index it brings, or its position if it asks for that; a name that is there is left alone. |
| `Registry.OwnIndexKept` | lib/dyld.c:17-50 | Over any requests a module keeps the index it brings. |
| `Registry.LookupsAgreeIff` | lib/dyld.c:102-118 | Looking a name up and then using the low byte of its index as a position, as a call does, gives the same module if and only if it is among the first 256. |
| `Registry.Modules.Add` | lib/dyld.c:17-50 | dyld_register on the linked list refines registration. |
| `Registry.Modules.GetByName` | lib/dyld.c:102-118 | The list walk returns the first module of that name, or null. |
| `Registry.Modules.GetByIndex` | lib/fmr_helper.c:97-104 | The walk returns the module at that position, or null past the end. |
| `LinkedList.List.constructor` | lib/ll.c:136-138 | A new list is empty. |
| `LinkedList.List.Count` | lib/ll.c:3-10 | The number of nodes. |
| `LinkedList.List.Append` | lib/ll.c:12-42 | One cell is added at the end; the others stay in place. |
| `LinkedList.List.Concat` | lib/ll.c:44-58 | The cells of the second list follow those of the first. |
| `LinkedList.List.Item` | lib/ll.c:60-67 | The item at that position, or none past the end. |
| `LinkedList.List.Unlink` | lib/ll.c:83-106 | One node leaves the chain; the others keep their order. |
| `LinkedList.List.Remove` | lib/ll.c:83-106 | All matches go, the rest stays in order, and each deconstructor of a removed cell is called once, on its own item, in order, and nothing else is called. |
| `LinkedList.List.Release` | lib/ll.c:123-134 | The list is empty afterwards and each deconstructor has been called once, on its own item, in order, and nothing else. |
| `LinkedList.CallsOnceEach` | lib/ll.c:70-74 | The calls are at increasing positions those of the cells that have a deconstructor, all of them. |
| `LinkedList.AllFreed` | lib/ll.c:70-74 | If every cell has a deconstructor, the i-th call frees the i-th item. |
| `LinkedList.RemovalConserves` | lib/ll.c:83-106 | As multisets, the freed and the kept cells make up the list; the freed ones match and the kept ones do not. |
| `LinkedList.RemovalKeepsOrder` | lib/ll.c:83-106 | The kept cells sit at increasing positions of the old list, and so do the freed ones. |
| `DebugFifo.StepKeepsInvIff` | platforms/atmegau2/src/debug.c:7-71 | An atomic section keeps the timer running exactly while the bank is partly filled if and only if it is not a SET_CONFIGURATION or CLEAR_FEATURE that finds it partly filled. |
| `DebugFifo.RunKeepsInv` | platforms/atmegau2/src/debug.c:7-71 | So does every run in which no such request finds the bank partly filled. |
| `DebugFifo.Conservation` | platforms/atmegau2/src/debug.c:7-71 | In every run from power-up, with any requests of the host, the accepted bytes are in order what the host fetched, what resets of the endpoint wiped out, and what is in the bank, partly filled or handed over; the packets the host has are what it fetched, padded with zeros to 32 bytes. |
| `DebugFifo.NothingLostIff` | platforms/atmegau2/src/control.c:155-204 | What the host has fetched, followed by what is in the bank, is what was accepted if and only if no SET_CONFIGURATION or CLEAR_FEATURE comes while written bytes are in the bank, partly filled or handed over. |
| `DebugFifo.NoEmptyPackets` | platforms/atmegau2/src/debug.c:7-71 | And then every packet fetched carries some of them. |
| `DebugFifo.StepBalances` | platforms/atmegau2/src/debug.c:7-71 | One atomic section: what leaves and what stays is what was there and what came. |
| `DebugFifo.StepCollects` | platforms/atmegau2/src/debug.c:7-71 | The host fetches exactly what was written, padded with zeros. |
| `DebugFifo.HandedOverIff` | platforms/atmegau2/src/debug.c:46-71 | Bytes are buffered: in any run from power-up a partly filled bank is handed over if and only if the event is a flush, the second frame on a configured device since the last accepted byte, or the byte that fills it, and then with everything written to it; any other byte is added and sends nothing. |
| `DebugFifo.FirstByteBuffered` | platforms/atmegau2/src/debug.c:46-53 | A byte offered to an empty bank stays in it and starts the timer. |
| `DebugFifo.ShortPacketsWait` | platforms/atmegau2/src/debug.c:46-71 | In any run, a packet with room left in it goes out only on a flush or on the second frame since the last accepted byte. |
| `DebugFifo.TimerCountsFrames` | platforms/atmegau2/src/control.c:57-69 | In any run the running timer is two less the frames since the last accepted byte. |
| `DebugFifo.HandedOverUntilFetched` | platforms/atmegau2/src/debug.c:7-71 | A bank that was handed over does not change until the host fetches it or a reset comes, and is empty when fetched. |
| `DebugFifo.ConfiguredByRequests` | platforms/atmegau2/src/control.c:44-53 | The device is configured according to the last configuration request since the last bus reset. |
| `DebugFifo.ProductiveApproaches` | platforms/atmegau2/src/control.c:57-69 | 2*(32-fill)+timer drops with every accepted byte and every frame until the bank goes out. |
| `DebugFifo.Latency` | platforms/atmegau2/src/control.c:57-69 | As long as nothing resets the bus or the endpoint, a partly filled bank is handed over before as many bytes and frames have come as it was away from that, in any order. |
| `DebugFifo.ResetSendsZerosIff` | platforms/atmegau2/src/control.c:155-204 | After a reset that wipes out a partly filled bank the remaining frames send a packet of zeros if and only if the device is configured after it. |
| `DebugPort.Port.Putchar` | platforms/atmegau2/src/debug.c:7-56 | It succeeds if and only if the device is configured when it looks and, after what happens before interrupts are disabled, the bank is ready at once or, unless an earlier call timed out, becomes ready before the timeout and before the device goes offline; it then adds one write to what happened meanwhile. Each failure changes nothing else, and is an unconfigured device, a remembered timeout, a timeout, which alone is remembered, or going offline. |
| `DebugPort.Port.Await` | platforms/atmegau2/src/debug.c:28-44 | The wait loop ends in the first turn that finds the bank ready, the timeout reached or the device offline. |
| `DebugPort.EndsReadyIff` | platforms/atmegau2/src/debug.c:28-44 | It ends with the bank ready if and only if the bank becomes ready during the wait. |
| `DebugPort.CallIsRun` | platforms/atmegau2/src/debug.c:7-56 | A call, however it is interrupted, is a stretch of a run of the state machine, so conservation and latency hold across calls. |
| `DebugPort.Port.Write` | platforms/atmegau2/src/debug.c:45-53 | The write sends a full bank at once and otherwise starts the timer. |
| `DebugPort.Port.FlushOutput` | platforms/atmegau2/src/debug.c:59-71 | usb_debug_flush_output refines the flush step. |
| `DebugPort.Port.PadAndRelease` | platforms/atmegau2/src/control.c:64-66 | The padding loop fills the bank with zeros up to 32 bytes and hands it over. |
| `DebugPort.Port.Frame` | platforms/atmegau2/src/control.c:57-69 | The start-of-frame branch refines the frame step. |
| `Uart.Conservation` | platforms/atmegau2/api/uart0.c:75-116 | In every run, what was delivered, overwritten or discarded, in order, followed by what is held, is the received stream; readers got exactly the delivered part; only whole buffers of 64 bytes are overwritten; never more than 64 bytes are held. |
| `Uart.StepBalances` | platforms/atmegau2/api/uart0.c:75-116 | One call neither loses, doubles nor reorders a byte without accounting for it. |
| `Uart.ReadDelivers` | platforms/atmegau2/api/uart0.c:75-101 | A read delivers the first bytes of what is held followed by what arrives, as many as asked for or as there are. |
| `Uart.ReceivedAreHeld` | platforms/atmegau2/api/uart0.c:105-116 | Of any number of bytes received in a row the buffer holds, in order, those from the last multiple of 64 before the last one on. |
| `Uart.ReceivedThenRead` | platforms/atmegau2/api/uart0.c:75-116 | Up to 64 bytes received and then read are delivered as they came. |
| `Uart.Receiver.Interrupt` | platforms/atmegau2/api/uart0.c:105-116 | The receive interrupt on the buffer and index refines the receive step. |
| `Uart.Receiver.Read` | platforms/atmegau2/api/uart0.c:75-101 | The copy, shift and poll loops of uart0_read deliver and keep what the read step says; it succeeds if and only if what is held and what arrives in time is as much as was asked for. |
| `Uart.Receiver.ResetReceiver` | platforms/atmegau2/api/uart0.c:37-41 | Resetting empties the buffer and drains what the hardware holds, which is what the account discards. |
| `Uart.Receiver.Run` | platforms/atmegau2/api/uart0.c:37-116 | A whole run on the buffer holds and delivers what the account says. |
| `Upload.UploadLossless` | utils/fdfu/src/main.c:176-239 | For any firmware, the blocks of its pages are all accepted by an XMODEM-CRC receiver and carry exactly the firmware followed by fewer than 512 zeros, a multiple of 512 bytes in all. |
| `Upload.TransferLossless` | utils/fdfu/src/main.c:176-205 | For any source, the receiver ends up with it followed by fewer than 128 zeros. |
| `Upload.BlockIsGood` | utils/fdfu/src/main.c:178-187 | A block carries number i+1 modulo 256, its complement, and a CRC that makes data and CRC check to zero. |
| `Upload.DamagedBlockRefused` | utils/fdfu/src/main.c:178-187 | A block damaged anywhere in its header, or within 16 bits after it, is not accepted in its place. |
| `Octet.ResidueIff` | lib/defines.h:11-11 | Data followed by two bytes checks to zero if and only if they are its checksum in swapped order. |
| `Upload.MakePacket` | utils/fdfu/src/main.c:178-187 | The packet built over zeros is the i-th block of the source. |
| `Upload.SendBlocks` | utils/fdfu/src/main.c:176-205 | The loop sends the blocks in order and stops at the first answer that is not an acknowledgement; a cancellation is told apart. |
| `Upload.Handshake` | utils/fdfu/src/main.c:157-170 | It succeeds if and only if one of the first four tries reads the clear-to-send byte and no reset up to it returned zero; the command is written in every try whose reset passes, at most five times. |
| `Upload.SamWrite` | utils/fdfu/src/main.c:74-96 | What is handed to the serial line: nothing if lf_malloc or lf_push returns zero, the first 128 bytes if uart0_write does, otherwise everything. |
| `Upload.SamBaCopy` | utils/fdfu/src/main.c:152-218 | It reports success if and only if the handshake succeeds and every block and the end mark are acknowledged; on the line are the commands, the blocks attempted, none without a handshake and none after an answer that is no acknowledgement, and the end mark if and only if every block was acknowledged. |
| `Upload.LoadPageData` | utils/fdfu/src/main.c:223-239 | The buffer is the file filled up with zeros to whole pages. |
| `Upload.SendPages` | utils/fdfu/src/main.c:328-336 | The loop leaves after the first page that sam_ba_copy reports as a success and goes on after every other; a page is on the line in full if and only if its handshake and transport go through and its first three blocks are acknowledged. |
| `Upload.ImageOutIff` | utils/fdfu/src/main.c:328-336 | The pages of the image are on the line if and only if every page is out in full and none but the last is confirmed. |
| `Upload.ResetEndsEverything` | utils/fdfu/src/main.c:160-160 | With the status zero that uart0_reset returns, all pages are walked and nothing is on the line, whatever the device answers. |
| `Descriptor.Search` | platforms/atmegau2/src/control.c:113-136 | The cursor stops at the first entry with both fields equal, and runs out exactly when there is none. |
| `Descriptor.FirstMatch` | platforms/atmegau2/src/control.c:114-136 | The first position whose value and index are those asked for; every earlier entry differs. |
| `Descriptor.TableRoundTrip` | platforms/atmegau2/src/descriptors.c:122-128 | Reading a laid-out table back gives the declared entries. |
| `Descriptor.PacketsShape` | platforms/atmegau2/src/control.c:139-146 | The packets concatenate to the data; all but the last have 16 bytes and the last has fewer, possibly none. |
| `Descriptor.Clamped` | platforms/atmegau2/src/control.c:137-138 | The byte-wide length is min(wLength, descriptor length). |
| `Descriptor.DataStage` | platforms/atmegau2/src/control.c:139-146 | The loop sends exactly those packets, in order, up to the first before which the host has moved on. |
| `Descriptor.HostGetsAll` | platforms/atmegau2/src/control.c:139-146 | A host following sections 8.5.3.2 and 9.4.3 of the USB 2.0 specification has all the data when it stops, and leaves behind at most one packet, an empty one. |
| `Descriptor.HostAndDevice` | platforms/atmegau2/src/control.c:139-146 | With such a host the packets sent concatenate to exactly the data. |
| `Descriptor.ReadPacket` | platforms/atmegau2/src/control.c:143-143 | The inner loop reads the bytes of a packet one after another through a 16-bit pointer. |
| `Descriptor.GetDescriptor` | platforms/atmegau2/src/control.c:113-148 | The request is stalled if and only if no entry matches; otherwise the data stage is that of the first match, and a host that moves on only when satisfied receives the first min(wLength, length) bytes of program memory from the entry's address on. |
| `Pwm.ClocksGenerate` | platforms/atsam4s/asf/src/pwm.c:97-119 | The search loop computes the clock word the lemmas are about. |
| `Pwm.FirstIsSmallest` | platforms/atsam4s/asf/src/pwm.c:104-111 | The prescaler found is the smallest whose divisor is at most 256. |
| `Pwm.InvalidIff` | platforms/atsam4s/asf/src/pwm.c:114-118 | The request is refused if and only if the master clock is at least 257*1024 times the frequency; valid words stay below 0x1000. |
| `Pwm.ErrorBound` | platforms/atsam4s/asf/src/pwm.c:104-111 | Past the first prescaler the divisor is in 128..256 and the realised clock is at least the frequency and less than 129/128 of it. |
| `Pwm.PackedIs` | platforms/atsam4s/asf/src/pwm.c:115-115 | What the packed word is, a divisor of 256 included. |
| `Pwm.RecoverableIff` | platforms/atsam4s/asf/src/pwm.c:97-119 | For a frequency that is met, prescaler and divisor can be read back from the word if and only if the master clock is at no prescaler between 256 and 257 times the prescaled frequency; otherwise the divisor field is zero. |
| `Pwm.SpillsSomewhere` | platforms/atsam4s/asf/src/pwm.c:97-119 | 1 Hz from 256 Hz is such a frequency. |
| `Pwm.ZeroIff` | platforms/atsam4s/asf/src/pwm.c:97-119 | The word is zero if and only if the frequency is above the master clock. |
| `Pwm.HalvesJoin` | platforms/atsam4s/asf/src/pwm.c:152-152 | The fields of the two clocks do not overlap. |
| `Pwm.Registers.Init` | platforms/atsam4s/asf/src/pwm.c:129-160 | It fails if and only if one of the clocks cannot be met, and then leaves the register alone; otherwise its halves are the two words. |

## Left out

- Invoke.InvokeByIndex: does not cover argument lists for which `lf_invoke_by_index` writes outside its packet, which by `Host.InsideIff` are those with more than 54 arguments or more than 38 bytes counted, because C gives them no meaning. The transport is taken to deliver the packet and the answer, and fmr_rpc to be registered, as fmr_init does.
- Invoke.InvokeByName: covers lists that fit and modules that were given their positions as indices; the module record the host keeps for itself after a lookup is not modelled.
- Host.BuildCall: does not cover the same lists, for the same reason; the running length is kept in a variable and stored once after the loop.
- LinkedList.List.Concat: does not cover lists that share nodes, which the source would link into a cycle.
- Integrity.BurstRejected: does not cover damage to the length field, which changes how much is checksummed.
- Runtime.Endpoint.Perform: does not model a null device, a failing transport write or failing allocation; the packet is followed by modelled memory, because the length field may reach past its 64 bytes. Handlers and functions are pure functions of a device state that does not include the registry and the module list, so that which packets are dispatched is settled at the start of a run; in the source they could register more.
- Schedule.StepKeepsInv: does not cover a call that a tick interrupts before its switch, a 256th task, or a release of a task that does not follow the head; the last two are described by `Scheduler.Scheduler.Add` and `Scheduler.Scheduler.Release`. Process numbers do not overflow.
- DebugPort.Port.Putchar: does not model a poll loop that never ends, the frame counter reaching the timeout by the last poll; a call that interrupts another is the write it makes, without its effect on the remembered timeout. Releasing a bank that the host already has is taken to have no effect, a bus reset to leave the bank to the next configuration, and CLEAR_FEATURE to have no effect on an endpoint that was never configured.
- Uart.Conservation: does not cover a receive interrupt in the middle of uart0_read, whose loops move the same index.
- Upload.SamBaCopy: does not model sleeps and the text of the commands, nor that sam_write repeats lf_free until it reports a failure; the statuses in sam_write are the same for all blocks of a page.
- Upload.SendPages: does not model the flash commands that follow a page, nor the inverted tests before the page loop, which decide whether it is reached.
- Descriptor.GetDescriptor: does not model the other control requests and the endpoint registers.
- Decoding of push, pull, malloc and free packets: they read past the whole packet structure, so what they decode is not in what was received.
- lf_invoke and dyld_unload: their status tests are inverted and they never take their intended path.
- Context switching, stacks, register contents, clocks and the remaining drivers: register writes without logic of their own.
- Sockets, libusb, dynamic loading, files and debug output: input and output.
- os/src/loader.c, the Python bindings, fdwarf and the examples: unfinished or glue.
