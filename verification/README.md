# YOS: a verified model

YOS is a preemptive round-robin kernel for a Cortex-M3, with a mutex, a serial line editor, two I2C
devices and software timers. This project models its core in Dafny and proves what the kernel and its
libraries are for: over every run, who gets the processor and when, that each task gets its own registers
back, that bus transactions never mix, that a typed line arrives as its tokens, that a damaged sensor
frame is rejected, when timers fire and what text puts on the screen.

Code that works in place is modelled in place: `KernelCode.Kernel` is `yos.c` as a class over the task
table and the memory, `RingBuffer.YRingBuffer`, `YIicCode.YIic`, `UserTimer.Timers` and `Oled.Display` are
the other objects, and the tokenizer overwrites its line buffer. Each method is proved equal to a step or
a function on values, and the properties are proved of those, over all runs.

| file | subject |
|---|---|
| Scheduler, SchedulerRuns | the scheduler's steps; lifecycle, bounded waiting, delay timing over runs |
| Mutex | the kernel mutex; mutual exclusion over runs |
| Context, Kernel | stacks, saved registers and the context switch; `yos.c` itself |
| Bus, YIic | I2C transactions of any number of tasks over the mutex; `yiic.c` and the sensor client |
| RingBuffer, Uart, CmdLine, InputPath | the serial input path, stage by stage and end to end |
| Crc8, Crc8Table | the sensor's CRC in both forms, and what it detects |
| UserTimer | software timers |
| Oled | text drawing |
| Arith | small facts about numbers |

## Assumptions

- Handlers and sections with interrupts off are single steps. A pended PendSV is taken before the next
  scheduler invocation: PendSV and SysTick have the same priority and PendSV the lower number.
- Tasks are created before the kernel starts, at least one besides idle. The number of slots is a
  parameter `N >= 2`.
- A task writes only inside its own stack area and, whenever it is switched out, has room there for its
  frame. Stacks are whole numbers of words, at least sixteen. Addresses count words.
- Exception entry and return follow section B1.5 of the ARMv7-M Architecture Reference Manual, with stack
  alignment on or off.
- The idle task neither delays nor returns. Bus clients neither delay nor return between asking for the
  mutex and releasing it.

## Where code and comments differ

The model follows the code.

- The diagram in `src/yos/yos.h` lets a task exit from Waiting; in the code it exits from Running
  (`Scheduler.Moves`).
- `yos.h` promises that `yos_task_msleep` sleeps at least the time asked for. `SchedulerRuns.MsleepPromise`
  says for which calls the guarantee holds, over every run of the call, and `SchedulerRuns.MsleepFallsShort`
  is a call and a run in which it returns too early.
- The timer id guards in `ytimer.c` accept the table's size as an id; those calls are outside the model.

## Model

| member | source | states |
|---|---|---|
| Scheduler.FirstRunnable | src/yos/yos.c:106-128 | The search stops at the nearest created or running task after the current one, and passes over only tasks that are neither. |
| Scheduler.AtIsModulo | src/yos/yos.c:106-128 | The search visits (current + d) mod N at distance d: upwards, around the table. |
| Scheduler.SelectFinds | src/yos/yos.c:204-244 | If any other task is runnable, a switch to a runnable task other than the current one is pended, and the chosen task is strictly nearer on the ring to every task left waiting. |
| Scheduler.SelectReaps | src/yos/yos.c:116-124 | The search makes exactly the exited tasks it passes over invalid, and changes no other status. |
| Scheduler.ReturnExits | src/yos/yos.c:42-48 | A task that returns is exited, and nothing else in the table changes. |
| Scheduler.StoppedTaskIsSwitchedAway | src/yos/yos.c:355-376 | While idle is runnable, scheduling from any other task always pends a switch away from it. |
| Scheduler.StepKeepsInv | src/yos/yos.c:204-299 | Every step keeps: idle runnable; a pended switch targets another, runnable task; the current task is never invalid, and waiting only with a switch pended. Statuses move only along the lifecycle. |
| SchedulerRuns.RunKeepsInv | src/yos/yos.c:204-299 | Those invariants hold after every run. |
| SchedulerRuns.ReachableStates | src/yos/yos.c:35-52 | In every reachable state idle is runnable, a pended switch has a runnable target, and a task that delays or has returned loses the processor at the next scheduler invocation. |
| SchedulerRuns.ExitedNeverRunsAgain | src/yos/yos.c:106-128 | A task that exited and was switched away from never becomes current again, in any run. |
| SchedulerRuns.ReturnedNeverRunsAgain | src/yos/yos.c:35-52 | A task that returns is not current in any later state of any run once a switch has been taken. |
| SchedulerRuns.StepNearsTask | src/yos/yos.c:204-244 | Each scheduler invocation brings the chosen task strictly nearer to a given runnable task; no other step moves it away. |
| SchedulerRuns.BoundedWaitingFrom | src/yos/yos.c:106-128 | A runnable task gets the processor within as many scheduler invocations as its ring distance from the task chosen now, whatever the others do. |
| SchedulerRuns.BoundedWaiting | src/yos/yos.c:106-128 | N - 1 scheduler invocations are always enough. |
| SchedulerRuns.BoundIsTight | src/yos/yos.c:106-128 | For every N there is a run in which N - 2 are not. |
| SchedulerRuns.StaysWaiting | src/yos/yos.c:130-147 | While fewer than max(1, n) hardware ticks pass, a delayed task stays waiting with an exact count of the ticks left, off the processor, however many voluntary calls interleave. |
| SchedulerRuns.DelayStarts | src/yos/yos.c:456-463 | A delay leaves its caller waiting for n ticks with a switch to another task pended. |
| SchedulerRuns.DelayIsExact | src/yos/yos.c:450-463 | The caller of a delay is waiting before the max(1, n)-th later tick, and that tick makes it runnable. |
| SchedulerRuns.DelayDeadline | src/yos/yos.c:450-463 | It has the processor again no later than hardware tick max(1, n) + N - 2. |
| SchedulerRuns.SleepsWholeTicks | src/yos/yos.c:450-463 | However its run goes on, a call of delay returns no earlier than hardware tick max(1, n). |
| SchedulerRuns.ShortestSleep | src/yos/yos.c:450-463 | For every n there is a run in which it returns with exactly that tick. |
| SchedulerRuns.MsleepPromise | src/yos/yos.h:176 | The guarantee that every run of the call sleeps at least ms milliseconds holds if and only if ms is under a tick and the call comes early enough in its tick, or ms is whole ticks and the call comes on a tick; whenever the call comes, it holds only for ms = 0. |
| SchedulerRuns.MsleepFallsShort | src/yos/yos.c:465-468 | A run of a 10 ms sleep, asked for halfway through a tick, that returns after 5 ms. |
| Mutex.YMutex.constructor | src/yos/yos.c:524-531 | A new mutex has no owner. |
| Mutex.YMutex.TryLock | src/yos/yos.c:556-571 | A free mutex becomes the caller's, with 0; an owned one is left alone, with -1. |
| Mutex.YMutex.Lock | src/yos/yos.c:542-554 | Whatever the other tasks leave behind between attempts, it ends with the mutex at the first attempt that finds it free, and not before. |
| Mutex.YMutex.Unlock | src/yos/yos.c:573-588 | The owner's unlock frees the mutex, with 0; anyone else's changes nothing, with -1. |
| Mutex.MutualExclusion | src/yos/yos.c:542-588 | In every run at most one task is between a successful lock and its own unlock, and the owner field names exactly that task. |
| Mutex.OnlyOwnerReleases | src/yos/yos.c:573-588 | Only the owner's own unlock takes the mutex from it, and that one succeeds with 0. |
| Mutex.AbandonedForEver | src/yos/yos.c:542-571 | A task that exits while it owns the mutex, once switched away from, owns it for ever: every later lock fails. |
| Context.PadBitIsBitNine | src/yos/yos.c:246-299 | Stacking the padding changes bit 9 of the xPSR and no other; clearing it gives the rest back. |
| Context.SaveRestore | src/yos/ystack.h:27-54 | Pushing then popping a context gives back every register, the flags and the stack pointer, whether or not exception entry had to pad the stack; with alignment on, the frame is aligned. |
| Context.InitialFrameEntersShell | src/yos/yos.c:61-99 | Restoring the synthetic frame enters the task shell with the task's id as argument, the given values in the other registers, Thumb state, no exception and an empty stack. |
| Context.CStepKeepsInv | src/yos/yos.c:204-299 | Every step of the machine keeps its layout, the saved stack pointers inside their stacks and a prepared frame intact, and is that step of the scheduler. |
| Context.SuspendedStackIsUntouched | src/yos/yos.c:246-299 | While a task is off the processor, in any run, its whole stack and its saved stack pointer stay as they were. |
| Context.ContextIsPreserved | src/yos/yos.c:246-299 | Over every run, the registers, flags and stack pointer restored when a task is switched back in are those it had when it was last switched out; all of it, if bit 9 of the xPSR was clear. |
| Context.CreatedTaskEntersShell | src/yos/yos.c:35-52 | A task switched to for the first time starts in its shell, with its own id and an empty stack, and is then running. |
| Context.RunKeepsCInv | src/yos/yos.c:268-272 | Over every run the recorded low-water mark only descends, stays inside the stack, and covers what every suspended task is using. |
| Context.MachineRunsAreSchedulerRuns | src/yos/yos.c:204-299 | Every run of the machine is, on its scheduler, a run of the scheduler, so its bounds hold of the machine. |
| KernelCode.Kernel.constructor | src/yos/yos.c:378-396 | After init only idle exists, created, current and at the top of the stack area; every other slot is invalid. |
| KernelCode.Kernel.CreateTask | src/yos/yos.c:301-335 | A refused creation returns -1 and changes nothing; otherwise the next slot gets the next stretch of the stack area, fresh and created, and its id is returned. |
| KernelCode.Kernel.StacksTile | src/yos/yos.c:309-332 | The stacks created are pairwise disjoint, and their sizes add up to what the next stack's top has come down by. |
| KernelCode.Kernel.InitTaskStack | src/yos/yos.c:61-99 | The pushes leave exactly the synthetic frame below the stack's top and nothing else changed. |
| KernelCode.Kernel.FindNextTaskToRun | src/yos/yos.c:106-128 | Returns the nearest runnable task, or the current one if there is none, and invalidates exactly the exited tasks passed over. |
| KernelCode.Kernel.UpdateTaskBlockTicksIrq | src/yos/yos.c:130-147 | Is CountDown: every waiting task loses a tick and those at their last become running; nothing else changes. |
| KernelCode.Kernel.ScheduleTasks | src/yos/yos.c:214-243 | Is Select, with the synthetic frame written if the chosen task is in the created state; its dead branches are never reached. |
| KernelCode.Kernel.SysTickHandler | src/yos/yos.c:204-244 | Counts delays down on a hardware tick only, then chooses; always leaves the tick flag at its resting value. |
| KernelCode.Kernel.TickInterrupt | src/yos/yos.c:204-217 | A SysTick interrupt is the machine's tick step, on every field. |
| KernelCode.Kernel.ScheduleIrq | src/yos/yos.c:450-454 | The voluntary path chooses without counting any delay down. |
| KernelCode.Kernel.Schedule | src/yos/yos.c:471-480 | A voluntary call is the machine's schedule step, on every field. |
| KernelCode.Kernel.TaskDelay | src/yos/yos.c:456-463 | A delay is the machine's delay step, on every field. |
| KernelCode.Kernel.TaskMsleep | src/yos/yos.c:465-468 | A sleep is a delay of max(1, ms / 10) ticks. |
| KernelCode.Kernel.TaskReturn | src/yos/yos.c:42-48 | A task function's return marks the current task exited, leaves every other entry alone, and is the machine's return step. |
| KernelCode.Kernel.SaveContext | src/yos/yos.c:250-272 | Entry and the pushes leave the whole context in the task's stack, with its stack pointer and low-water mark recorded. |
| KernelCode.Kernel.RestoreContext | src/yos/yos.c:278-298 | The pops and exception return load exactly the frame at the saved stack pointer. |
| KernelCode.Kernel.PendSvHandler | src/yos/yos.c:246-299 | The handler is the machine's switch, on every field. |
| KernelCode.Kernel.SwitchInterrupt | src/yos/yos.c:246-299 | In every reachable state with a switch pended the handler can run, and is the machine's switch step. |
| KernelCode.Kernel.Start | src/yos/yos.c:398-448 | Leaves task 1 current and still created, eight words into its stack, in a state that satisfies every invariant of the machine; changes no table entry, id, register or memory word if the timer does not start. |
| Bus.WholeTransaction | src/ydevice/yiic.c:88-176 | A transaction is one start, its own address in its own direction, every byte in order, one stop; a receive stops acknowledging just before its last byte. |
| Bus.WholeEventByEvent | src/ydevice/yiic.c:88-176 | The same, with every event in its place. |
| Bus.BStepKeepsBInv | src/ydevice/yiic.c:88-176 | Every step of any task keeps: only the mutex owner is inside a transaction, it is running, the direction is its own, and the trace is whole transactions and its own beginning of one. |
| Bus.BusAtomicity | lib/ssd1306xled/ssd1306xled/yiic_stub.c:5-29 | Under every interleaving the bus trace is whole transactions, each by one task, followed by a prefix of at most one more, by the owner. |
| Bus.DirectionIsOwn | src/ydevice/yiic.c:116-127 | In every run the direction read when a slave is addressed is the one the same task set. |
| Bus.SpinnerWaitsForRunningOwner | src/yos/yos.c:542-571 | A task that fails to lock waits for a different task, running and inside its transaction, and that one gets the processor within N - 1 scheduler invocations. |
| Bus.OwnerAdvances | lib/AVR_aht20/src/iic_stub.c:10-29 | The owner can act whenever it has the processor, each act brings the end of its transaction one nearer, the last frees the mutex, and no other step undoes that. |
| Bus.OwnerFreesInTime | lib/AVR_aht20/src/aht20.c:27-52 | Over any run the owner frees the mutex if and only if the run holds as many acts as its transaction has left. |
| YIicCode.YIic.constructor | src/ydevice/yiic.c:35-67 | The bus starts with a free mutex. |
| YIicCode.YIic.TransStart | src/ydevice/yiic.c:88-105 | Waits for the mutex while the others carry on; once it is free, and not before, takes it, records the direction and sends a start, enabling acknowledgement for a receive. |
| YIicCode.YIic.SelectSlave | src/ydevice/yiic.c:116-127 | Sends the address in the recorded direction. |
| YIicCode.YIic.TransmitData | src/ydevice/yiic.c:129-146 | Sends exactly the first len bytes in order; nothing for a null buffer. |
| YIicCode.YIic.ReceiveData | src/ydevice/yiic.c:148-176 | Fills exactly the first len bytes with the slave's answer, acknowledgement off before the last one only. |
| YIicCode.YIic.TransStop | src/ydevice/yiic.c:107-114 | Sends a stop, then unlocks. |
| YIicCode.YIic.StubStart | lib/AVR_aht20/src/iic_stub.c:10-14 | Once the mutex is free, takes it and opens a transaction in the direction asked for. |
| YIicCode.YIic.StubWrite | lib/AVR_aht20/src/iic_stub.c:21-24 | Sends one byte. |
| YIicCode.YIic.SendFullCommand | lib/AVR_aht20/src/aht20.c:27-34 | Once the mutex is free, carries out one whole transmit transaction of three bytes after all that the others sent meanwhile, and frees the mutex. |
| YIicCode.YIic.ReadFrame | lib/AVR_aht20/src/aht20.c:104-113 | Once the mutex is free, carries out one whole receive transaction, leaves the answer in the frame and frees the mutex. |
| RingBuffer.SlotIsModulo | lib/ringbuf/yringbuffer.c:78-114 | The end index, kept by wrapping at the size, is (start + current_len) mod size. |
| RingBuffer.LastNAt | lib/ringbuf/yringbuffer.c:85-111 | What is kept of too many bytes is the newest, in order. |
| RingBuffer.LastNAppend | lib/ringbuf/yringbuffer.c:85-111 | Dropping the oldest byte by byte is the same as keeping the last size bytes of it all. |
| RingBuffer.YRingBuffer.Init | lib/ringbuf/yringbuffer.c:54-64 | Takes storage and becomes empty; changes nothing without storage or with size 0. |
| RingBuffer.YRingBuffer.Destroy | lib/ringbuf/yringbuffer.c:66-76 | Becomes empty, without storage. |
| RingBuffer.YRingBuffer.Clear | lib/ringbuf/yringbuffer.c:166-175 | Becomes empty. |
| RingBuffer.YRingBuffer.GetCurrentLen | lib/ringbuf/yringbuffer.c:148-155 | The number of bytes held. |
| RingBuffer.YRingBuffer.PutByte | lib/ringbuf/yringbuffer.c:85-111 | One byte goes in at the end, in a full ring for the oldest byte or not at all. |
| RingBuffer.YRingBuffer.PutData | lib/ringbuf/yringbuffer.c:78-114 | When dropping, the last size bytes of the contents and the data remain and len is returned, however long the data; otherwise the first min(len, free) bytes are appended and counted. |
| RingBuffer.YRingBuffer.GetByte | lib/ringbuf/yringbuffer.c:124-142 | The oldest byte comes out, unless there is none. |
| RingBuffer.YRingBuffer.GetData | lib/ringbuf/yringbuffer.c:117-145 | The first min(len, held) bytes move out into the destination, whose other bytes stay. |
| Uart.Usart.constructor | src/ydevice/yusart.c:47-54 | The receive ring starts empty, with 256 bytes. |
| Uart.Usart.Isr | src/ydevice/yusart.c:78-84 | A received byte is appended, the oldest of 256 unread ones dropped; without one nothing changes. |
| Uart.Usart.ReadByteNoBlock | src/ydevice/yusart.c:161-178 | Takes the oldest unread byte with 0, or returns -1 when there is none. |
| Uart.StreamOverRuns | src/ydevice/yusart.c:78-178 | Over every run the unread bytes are the end of those received, at most 256; those delivered are the earlier ones in order with the lost ones left out; and nothing is lost if and only if no byte arrives while 256 are unread. |
| CmdLine.Terminator | lib/cmdline/cmdline.c:221 | Where a C string ends: the first NUL, with none before it. |
| CmdLine.StandsIsCString | lib/cmdline/cmdline.c:221 | A stretch free of NUL and followed by one is the C string that starts there. |
| CmdLine.BlanksAndQuotes | lib/cmdline/cmdline.c:69-77 | Searching the two constant strings is asking for a blank and for a quote. |
| CmdLine.SearchChar | lib/cmdline/cmdline.c:45-67 | The offset of the first occurrence in the C string, or -1 if there is none before its end. |
| CmdLine.QuotedEnd | lib/cmdline/cmdline.c:234-241 | A quoted argument ends at the same quote, or at the end of the line if there is none. |
| CmdLine.WordEnd | lib/cmdline/cmdline.c:251-254 | A bare word ends at a blank or at the end of the line; quotes inside it do not end it. |
| CmdLine.FindToken | lib/cmdline/cmdline.c:229-255 | The code finds the start and the end that the description of the line's tokens gives. |
| CmdLine.MakeArgs | lib/cmdline/cmdline.c:215-264 | For every C string: argv holds strictly increasing offsets that read as exactly the first ten tokens of the line; nothing past the terminator is written, and only terminators within. |
| CmdLine.TokensOfLine | lib/cmdline/cmdline.c:227-262 | Any line of words free of blanks that do not begin with a quote, arguments between two equal quotes, and perhaps a last unclosed one, with any blanks between, tokenizes to exactly those. |
| CmdLine.EveryTextIsALine | lib/cmdline/cmdline.c:227-262 | Every text is such a line, so that says what the tokens of every text are. |
| CmdLine.TokensOfQuoted | lib/cmdline/cmdline.c:229-249 | Arguments wrapped in either quote and joined with blanks tokenize to themselves, empty ones included. |
| CmdLine.QuoteParseRoundTrip | lib/cmdline/cmdline.c:227-263 | At most ten quoted arguments put in a buffer come back from the tokenizer unchanged. |
| InputPath.Reader.ReadLine | lib/cmdline/basic_io.c:84-113 | Reads byte by byte until LF or a full buffer, puts a NUL in the place of the last byte, returns the count and leaves the rest of the buffer and of the ring alone, whatever arrives meanwhile. |
| InputPath.CollectIsARun | lib/cmdline/basic_io.c:84-113 | What it takes is what a run of the receiver delivers, overflow or not. |
| InputPath.CollectConserves | lib/cmdline/basic_io.c:84-113 | Without overflow, bytes read, left and to come are together exactly those sent, in order. |
| InputPath.LineIsRead | lib/cmdline/basic_io.c:84-113 | A completed read has read exactly the line that came first, in the ring already or on the wire, and its LF, and left the rest, whatever the timing. |
| InputPath.EnoughPolls | lib/cmdline/basic_io.c:84-113 | Once the line has arrived, as many polls as it has bytes complete the read. |
| InputPath.NextLineInTime | lib/cmdline/basic_io.c:84-113 | If several lines arrive in time, the first is read and the others are still in time. |
| InputPath.DoCmdlineStep | lib/cmdline/cmdline.c:490-494 | End to end: a line of at most 255 bytes that comes next, in the ring or on the wire, and never overflows the ring, is read with its length plus one returned, and argv then reads as its tokens. |
| InputPath.DoCmdline | lib/cmdline/cmdline.c:480-505 | Over a session the commands read are the tokens of the lines sent, one a line and in order; and all of them are read if the lines arrive with a poll left for each byte. |
| Crc8.CrcBitwise | lib/AVR_aht20/src/aht20.c:76-90 | The nested loops compute the CRC, from 0xFF, of the first len bytes. |
| Crc8.CrcIsSerial | lib/AVR_aht20/src/aht20.c:76-90 | The CRC is the register left by feeding the message's bits one at a time. |
| Crc8.SerialDifference | lib/AVR_aht20/src/aht20.c:76-90 | It is linear: the registers of two messages differ by the register fed with their difference. |
| Crc8.BurstDetected | lib/AVR_aht20/src/aht20.c:76-90 | Messages of the same length, any length, that differ only within eight consecutive bits have different CRCs. |
| Crc8.OddErrorsDetected | lib/AVR_aht20/src/aht20.c:76-90 | So have messages that differ in an odd number of bits, anywhere. |
| Crc8.AcceptedIffCrcIsZero | lib/AVR_aht20/src/aht20.c:115-119 | A frame passes the check if and only if the CRC over all of it is zero. |
| Crc8.CorruptFrameRejected | lib/AVR_aht20/src/aht20.c:115-119 | No acceptable frame is turned into another by a burst of eight bits, CRC byte included, or by an odd number of wrong bits. |
| Crc8.StartComplements | lib/AVR_aht20/src/aht20.c:76-90 | Starting from 0xFF is starting from 0 with the first byte complemented. |
| Crc8.ZeroFrameRejected | lib/AVR_aht20/src/aht20.c:115-119 | A frame of zeros, of any length, is never accepted. |
| Crc8.KnownValue | lib/AVR_aht20/src/aht20.c:76-90 | The CRC of 0xBE 0xEF is 0x92. |
| Crc8.CheckFrame | lib/AVR_aht20/src/aht20.c:115-119 | Success exactly for the seven-byte frames whose last byte is the CRC of the six before it. |
| Crc8Table.LookupIsStep8 | lib/AVR_aht20/src/aht20.c:7-24 | Every entry of the table is eight bit steps of its index. |
| Crc8Table.CrcTable | lib/AVR_aht20/src/aht20.c:94-100 | The table-driven form computes the same CRC as the bitwise one, for every input. |
| UserTimer.CalledExactly | src/yos/ytimer.c:33-59 | A tick calls back exactly the expiring slots that have a callback, once each, in order. |
| UserTimer.FirstFree | src/yos/ytimer.c:128-145 | The first slot not in use. |
| UserTimer.Timers.constructor | src/yos/ytimer.c:70-73 | No slot is in use at first. |
| UserTimer.Timers.CheckInIrq | src/yos/ytimer.c:33-59 | The interrupt is one tick on every slot, with those callbacks. |
| UserTimer.Timers.Create | src/yos/ytimer.c:121-149 | Takes the first free slot and returns its id, which was not in use; -1 if and only if all are. |
| UserTimer.Timers.SetPaused | src/yos/ytimer.c:151-166 | Pauses or restores that slot if it is in use and nothing else; -1 for an id out of range. |
| UserTimer.Timers.Reset | src/yos/ytimer.c:178-194 | Gives that slot a new timeout if it is in use and changes nothing else; -1 for an id out of range. |
| UserTimer.Timers.Destroy | src/yos/ytimer.c:214-234 | Frees that slot and nothing else; -1 for an id out of range. |
| UserTimer.AutoRestartClosedForm | src/yos/ytimer.c:33-59 | After k unpaused ticks, whatever happens to the other slots, an auto-restart timer of timeout T has fired k / (T + 1) times and has T - k mod (T + 1) left. |
| UserTimer.OneShotCountsDown | src/yos/ytimer.c:33-59 | A one-shot timer does not fire in its first T unpaused ticks, and has one less left after each. |
| UserTimer.OneShotFiresOnce | src/yos/ytimer.c:33-59 | Over any run it fires on unpaused tick T + 1, exactly then and never again, and that frees its slot. |
| UserTimer.OthersUntouched | src/yos/ytimer.c:151-234 | An operation on one slot leaves the others alone and does nothing to a free one. |
| UserTimer.PauseThenRestore | src/yos/ytimer.c:151-166 | A paused timer counts no tick and does not fire until it is restored, and then goes on from where it was. |
| UserTimer.ResetStartsOver | src/yos/ytimer.c:178-194 | After a reset it fires as one created with the new timeout does. |
| UserTimer.CreateStarts | src/yos/ytimer.c:121-149 | A timer just created counts, and fires every T + 1 ticks, or once. |
| UserTimer.DestroyedIsQuiet | src/yos/ytimer.c:214-234 | A destroyed timer never fires again while its slot stays free. |
| UserTimer.CreateSparesLiveSlots | src/yos/ytimer.c:121-149 | Creating never changes a slot in use, and takes one whenever one is free. |
| Oled.ShippedFontsAreOk | lib/ssd1306xled/ssd1306xled/font6x8.c:127-136 | Both fonts hold whole glyphs and fit 16-bit positions. |
| Oled.VisibleIsCount | lib/ssd1306xled/ssd1306xled/yos_ssd1306_font.c:5-13 | The range test draws exactly the first min(len, (127 - x) / width) characters, none if the rows do not fit. |
| Oled.CountIsExact | lib/ssd1306xled/ssd1306xled/yos_ssd1306_font.c:5-13 | All that is drawn lies in columns up to 126 and pages up to 7, and one character more would not. |
| Oled.DrawnCell | lib/ssd1306xled/ssd1306xled/yos_ssd1306_font.c:23-62 | Character k is at column x + k * width, byte for byte, in any font. |
| Oled.DrawnGlyph | lib/ssd1306xled/ssd1306xled/yos_ssd1306_font.c:23-62 | In a font fit for 16-bit positions, as both shipped ones are, byte i of row j of character k is the font's data at glyph * width * rows + j * width + i; without a glyph its cell keeps what it held. |
| Oled.DrawnOutside | lib/ssd1306xled/ssd1306xled/yos_ssd1306_font.c:23-62 | Outside the cells nothing is drawn. |
| Oled.GlyphPosition | lib/ssd1306xled/ssd1306xled/yos_ssd1306_font.c:42 | 16-bit arithmetic puts a glyph in its place, and a character without one past all the font's data. |
| Oled.ShownIsGlyph | lib/ssd1306xled/ssd1306xled/yos_ssd1306_font.c:42-55 | No row's position wraps, and the code's bound lets through the character's own glyph or nothing. |
| Oled.Display.SetPos | lib/ssd1306xled/ssd1306xled/ssd1306xled.c:172-178 | Sets the page, of eight, and the column. |
| Oled.Display.PutChar | lib/ssd1306xled/ssd1306xled/yos_ssd1306_font.c:42-58 | The two inner loops draw that character's cell and nothing else. |
| Oled.Display.Puts | lib/ssd1306xled/ssd1306xled/yos_ssd1306_font.c:23-62 | The whole framebuffer afterwards, for any font: the characters that fit, each in its cell, and every other byte as it was. |

## Left out

- Peripheral registers, clocks, interrupt controller setup, busy waits on status flags and interrupt priorities beyond the assumption above.
- Boot before the first switch; `yos_start` with only the idle task; creating tasks once the kernel runs; `yos_delete_task`, which is a stub.
- KernelCode.Kernel.CreateTask: stacks that do not fit the memory left, or are too small for a frame, are excluded; the code does not check for them.
- Task names, functions and data, `yos_get_task_info`, and the exception return code pushed and popped on the main stack.
- Null guards of the mutex functions, and `ymutex_deinit`, which the header forbids while the mutex is in use.
- Mutex.YMutex.Lock: the real loop has no end; here it stops, saying so, when the given turns of the other tasks run out. YIicCode.YIic.TransStart and its callers likewise. Over runs, waiting is the try-lock and schedule steps of Bus.
- The display's start, byte and stop calls as methods: they have the shape of `YIicCode`'s and are covered as transactions of Bus.
- The single-byte sensor commands, its power-up and calibration, and the conversion of its 20-bit readings.
- `YRingBufferNew` and `YRingBufferDelete`, and null ring pointers.
- `yusart_can_receive`, which tests the capacity and not the length; the transmit side; interrupt masking in the read function.
- InputPath.Reader.ReadLine: the real call polls for ever; here it stops, saying so, when the given polls run out. A length of 0, for which the code writes before the buffer, is not modelled.
- `basic_io_read`; a missing port.
- CmdLine.MakeArgs: does not model a null argc, nor say what argv holds past argc.
- `_clear_args` and the commands themselves; printing and hex helpers.
- Timer callbacks: their parameters, and callbacks that call the timer functions; reading the remaining time; 32-bit overflow of timeouts, which are only counted down.
- UserTimer.Timers.SetPaused: an id equal to the table's size, which the guard accepts, reaches past the table and is not modelled; the same for Reset and Destroy.
- Oled.DrawnGlyph: fonts whose data is not whole glyphs, or too long for 16-bit positions, are excluded; what they show is in DrawnCell.
- Oled.Display.SetPos: columns from 128 on, for which the display has no meaning; drawing never sets one.
- The fonts' bitmaps beyond their lengths, `yos_ssd1306_char_col_to_pixel`, the display's initialisation and addressing modes.
