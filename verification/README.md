# SysImpl, verified

SysImpl is a small x86 kernel that carries its own C runtime, C++ runtime and
compiler builtins. This project models the parts of it whose correctness is not
visible from one function body, and proves what they are for: wide integer
division, integer-to-float rounding, the heap, the life of a C++ exception, the
guard of static initialisation, blocking reads with the devices behind them, the
scheduler, the line discipline, FAT16 files, the printer, and the number parser.

`dafny verify dfyconfig.toml` checks everything. Every file is one component:

| file | component |
|---|---|
| `Words.dfy` | machine words: shifts, masks, bitwise operators, the branch-free compare |
| `WideDivision.dfy` | 128-bit division (Knuth, Volume 2, section 4.3.1, Algorithm D) |
| `NarrowDivision.dfy` | 64-bit division on 32-bit words, unsigned and signed |
| `FloatRounding.dfy` | two conversions to single precision, with the rounding of IEEE 754-2008, section 4.3.1 |
| `HeapTiles.dfy`, `Heap.dfy` | the allocator: what a region looks like, and the nodes in memory |
| `Exceptions.dfy` | section 2.5 (Catching an Exception) of the Itanium C++ ABI: Exception Handling |
| `Guard.dfy` | the One-time Construction API, section 3.3 of the Itanium C++ ABI |
| `KernelConstants.dfy` | the process limit and the error codes |
| `Blocking.dfy`, `Semaphore.dfy`, `ProcessWait.dfy` | blocking reads over any device, and two devices |
| `DeviceRuns.dfy` | runs of system calls over all devices, and over several semaphores |
| `Scheduler.dfy`, `Dispatch.dfy` | the two-pass round robin, and a whole system call |
| `LineDiscipline.dfy`, `Terminal.dfy` | line editing over two rings, and the terminals as blocking devices |
| `FatFile.dfy` | files read sector by sector and along cluster chains |
| `Printf.dfy`, `Strtol.dfy`, `RoundTrip.dfy` | formatted output, number input, and one undoing the other |
| `Numerals.dfy`, `Formats.dfy` | numbers spelled out, and formats as they are written: what the two print and read |

Code that works step by step is modelled by methods and classes on fields and
arrays; each is proved against a specification, which is a function or predicate
on plain values, and lemmas then say what that specification means. Machine
arithmetic wraps where the code wraps: words are naturals below a power of two,
and every reduction is written out.

## Where the code and its description differ

- `DoubleWordGuard::try_lock` says that it releases the lock when it finds the
  object initialised, but line 229 of src/libcxxrt/guard.cc stores `initialised`
  in the lock word. Safety holds all the same (`GuardSafety`). A thread still in
  the spin loop can leave it exactly when the guard is not `Jammed`
  (`SpinnerCanLeave`), and three threads suffice to jam it (`SpinnerTrapped`).
- `BlockInputDeviceWrapper::check` probes the device as the running process. For
  `ProcessWait`, which answers each process differently, a waiter whose answer is
  there can therefore stay asleep: a run of three calls does it
  (`AnsweredButNotWoken`). `WakesReadyPrefix` says exactly who wakes.
- `ProcessWait` marks an answered request with process number 0, so an exit of
  process 0 overwrites the answers not yet read (`StatusOverwritten`), and waiting
  for process 0 is not waiting (`NobodyWaitsForZero`). A waiter reads the status it
  asked for if and only if the last exit of process 0 since, if there was one, gave
  the same (`WaiterLearnsStatus`).
- `strtol` takes `0x` for a prefix even when no hexadecimal digit follows, and then
  reads nothing where the C standard means the 0 (`PrefixAlone`). It reads the
  standard's numeral if and only if there is no such bare prefix
  (`StandardUnlessBarePrefix`).
- The commit of the line discipline drops what does not fit: of 256 newlines typed
  before a read, one is lost (`OverflowLosesByte`). A session is plain line editing,
  byte for byte, if and only if every byte taken in finds room
  (`SessionAgreesIffRoomy`).
- inc/objects/InputDevice.hpp says that a zero-size read has no side effect, but the
  terminals take bytes in on every read (`ProbeTakesBytesIn`). The outcome of the next
  read, the state it leaves included, is another than without the probe if and only if
  the probe stopped at an end of transmission that released a line and there is more
  input by the time of the read (`ProbeUnnoticed`). The reader itself, by its bytes and
  its return value, sees that at once if and only if it also asks for more than was
  released and the further input commits more (`ProbeShows`). In a session whose probes
  release nothing no reader ever sees the probes (`ProbesDoNotShow`). Otherwise a probe,
  and the scan of the waiting readers with it, can swallow an end of file
  (`ProbeLosesEndOfFile`, `ScanLosesEndOfFile`).
- A cluster file takes the capacity of its chain as its size when the directory
  entry says less (src/objects/File.cpp:168-169): an entry of five bytes, or any up to
  512, reads as 512 on a volume of one-sector clusters (`ReadTiny`). Reading to the end
  gives the entry's size if and only if it is the capacity (`ReadWhole`). When the entry
  says more, reading to the end leaves the cluster table (`ReadsStayInTable`, an if and
  only if; `LongEntryLeavesTable`).
- A digit behind a negative star gives a precision below "none"; the loop of %s then
  runs more often than its string is long, and in no other case (`StringOverrun`).
  `WellFormedExactly` says for which formats and arguments that does not happen; the
  digit 9 alone does no harm (`StarThenDigit`).
- The quotient of the most negative number by -1 wraps in `__divmoddi4`; every
  other pair is exact (`Divmoddi4`, an if and only if).

## Model

| member | source | states |
|---|---|---|
| Words.CompareMaskExact | compile-rt-builtins/udivmodti4.c:147-148 | the sign-propagating shift of `d - r - 1` is all ones exactly when `r >= d`, for every pair whose difference a signed word can hold |
| WideDivision.WrappedTest | compile-rt-builtins/udivmodti4.c:59 | with digit operands no compared product overflows, and the wrapped test holds exactly when the digit exceeds the true quotient digit |
| WideDivision.LargeRemainder | compile-rt-builtins/udivmodti4.c:62-63 | once the partial remainder reaches the base the digit is not too large, so the early exit is right |
| WideDivision.QuotientDigit | compile-rt-builtins/udivmodti4.c:54-64 | the loop yields the exact quotient digit after at most two corrections of the estimate |
| WideDivision.WrappedRemainder | compile-rt-builtins/udivmodti4.c:66-80 | the wrapped difference of a wrapped dividend and a wrapped product is the true remainder |
| WideDivision.NormalisedDividend | compile-rt-builtins/udivmodti4.c:34-44 | shifting the two words separately and or-ing the straddling bits gives the dividend times the same power of two |
| WideDivision.Udiv128By64 | compile-rt-builtins/udivmodti4.c:23-82 | for every `u1 < v`: exact 64-bit quotient and remainder of the two-word dividend |
| WideDivision.AlignDivisor | compile-rt-builtins/udivmodti4.c:133-136 | the shift is in 0..63, loses no divisor bit, and brings the dividend below twice the divisor |
| WideDivision.TakeStep | compile-rt-builtins/udivmodti4.c:139-152 | one round keeps "so many copies taken, this much left" with the divisor halved |
| WideDivision.PushBit | compile-rt-builtins/udivmodti4.c:140-149 | shifting the 64-bit quotient and or-ing the mask's low bit appends that bit and never overflows |
| WideDivision.ShiftSubtract | compile-rt-builtins/udivmodti4.c:133-156 | the normalised loop divides exactly for divisors above 64 bits |
| WideDivision.Udivmodti4 | compile-rt-builtins/udivmodti4.c:100-156 | for every dividend and nonzero divisor `q * b + rem == a` and `rem < b`, on all four paths |
| NarrowDivision.LoadShort | compile-rt-builtins/udivmoddi4.c:98-104 | the two-word shifts for 1..31 load exactly the low and high parts of the dividend |
| NarrowDivision.LoadWord | compile-rt-builtins/udivmoddi4.c:127-131 | the same for a shift of 32 |
| NarrowDivision.LoadLong | compile-rt-builtins/udivmoddi4.c:137-142 | the same for 33..63 |
| NarrowDivision.PowerShortcut | compile-rt-builtins/udivmoddi4.c:79-86 | a word passing the bit test is a power of two, and mask and shift are its remainder and quotient |
| NarrowDivision.LoadHigh | compile-rt-builtins/udivmoddi4.c:148-157 | with two nonzero top words the loop starts below the divisor, and the divisor's top bit is set only where the compare can bear it |
| NarrowDivision.LoadLow | compile-rt-builtins/udivmoddi4.c:123-126 | for a one-word divisor that is no power of two the shift is in 2..63 and the loop starts below the divisor |
| NarrowDivision.ProgressStep | compile-rt-builtins/udivmoddi4.c:176-191 | one turn brings down one dividend bit and keeps the quotient so far times the divisor plus the remainder equal to the dividend's prefix |
| NarrowDivision.RoundFits | compile-rt-builtins/udivmoddi4.c:188 | the shifted remainder fits a word and its difference from the divisor a signed word |
| NarrowDivision.Round | compile-rt-builtins/udivmoddi4.c:178-190 | the four word shifts are one shift of the register pair, followed by an exact compare and subtract |
| NarrowDivision.ShiftSubtract | compile-rt-builtins/udivmoddi4.c:175-195 | from loaded registers the loop and the last shift give the exact quotient and remainder |
| NarrowDivision.DivideByHighWord | compile-rt-builtins/udivmoddi4.c:55-104 | exact for divisors whose low word is zero, in all four cases |
| NarrowDivision.DivideByLowWord | compile-rt-builtins/udivmoddi4.c:106-143 | exact for one-word divisors, powers of two included |
| NarrowDivision.DivideByBoth | compile-rt-builtins/udivmoddi4.c:144-168 | exact for divisors with two nonzero words |
| NarrowDivision.Udivmoddi4 | compile-rt-builtins/udivmoddi4.c:27-196 | for every dividend and nonzero divisor `q * b + rem == a` and `rem < b` |
| NarrowDivision.CondNegateMeaning | compile-rt-builtins/divmoddi4.c:21-26 | exclusive-or with a sign mask and subtracting it negates, or does nothing |
| NarrowDivision.Divmoddi4 | compile-rt-builtins/divmoddi4.c:17-28 | truncating division, the remainder with the dividend's sign; `q * b + rem == a` if and only if it is not the most negative number over -1, and what happens then |
| FloatRounding.NearestEvenUnique | compile-rt-builtins/floatundisf.c:47-55 | at most one float is the nearest with ties to even |
| FloatRounding.NearestEvenMonotone | compile-rt-builtins/floatundisf.c:47-55 | correct rounding never inverts an order |
| FloatRounding.BetweenNeighbours | compile-rt-builtins/floatunsisf.c:40-43 | choosing between two adjacent patterns by distance and parity is nearest-even among all finite floats |
| FloatRounding.RoundedSignificand | compile-rt-builtins/floatundisf.c:47-63 | rounding the significand by half and parity is correct rounding of the float, the carry into the exponent included |
| FloatRounding.ExactSignificand | compile-rt-builtins/floatundisf.c:56-62 | integers of at most 24 bits are represented exactly |
| FloatRounding.StickyShift | compile-rt-builtins/floatundisf.c:43-44 | the shift with the sticky bit keeps which quarter the dropped bits fall in |
| FloatRounding.AddRound | compile-rt-builtins/floatundisf.c:47-49 | or-ing P into R and adding one rounds half to even |
| FloatRounding.ToTwentySix | compile-rt-builtins/floatundisf.c:36-45 | all three cases of the switch leave 24 kept bits and the quarter below them |
| FloatRounding.RoundTo24 | compile-rt-builtins/floatundisf.c:28-55 | the significand and exponent after rounding encode the nearest float, ties to even |
| FloatRounding.FloatUndisf | compile-rt-builtins/floatundisf.c:22-64 | every 64-bit integer becomes the nearest float among all finite ones, ties to even |
| FloatRounding.ShiftAndRound | compile-rt-builtins/floatunsisf.c:37-44 | comparing the dropped bits, moved to the top of a word, with the sign bit rounds correctly |
| FloatRounding.FloatUnsisf | compile-rt-builtins/floatunsisf.c:20-49 | every 32-bit integer becomes the nearest float, with the carry running into the exponent |
| FloatRounding.ConversionsAgree | compile-rt-builtins/floatunsisf.c:20-49 | both algorithms give the same bits on every 32-bit integer, and larger integers never smaller floats |
| HeapTiles.AllocateWellTiled | src/heap.c:57-84 | giving out a free tile, split or whole, keeps the region exactly tiled and coalesced |
| HeapTiles.ReleaseWellTiled | src/heap.c:104-138 | giving a tile back and merging with both neighbours keeps the region exactly tiled and coalesced |
| HeapTiles.FreesIncreasing | src/heap.c:104-138 | the free list is strictly sorted by address |
| HeapTiles.RunInOneTile | src/heap.c:116-134 | any run of free bytes lies inside one free tile: coalescing is complete |
| HeapTiles.FirstFitComplete | src/heap.c:52-91 | the search finds a tile if and only if some contiguous free run holds the rounded request |
| HeapTiles.LiveBlocksDisjoint | src/heap.c:50 | blocks do not overlap, lie inside the region, and have payloads aligned to eight |
| HeapTiles.AllocateLive | src/heap.c:57-84 | allocation adds one live block and disturbs no other |
| HeapTiles.AllocateSpares | src/heap.c:57-84 | a block starts where the free node did, is as large as asked and less than a least node larger, and every other free byte stays free |
| HeapTiles.FreeOrLive | src/heap.c:44-139 | every byte of the region is free or in a live block, never both |
| HeapTiles.ReleaseLive | src/heap.c:94-138 | freeing removes that live block and disturbs no other |
| HeapTiles.RunWellTiled | src/heap.c:44-139 | every run of allocations and valid frees keeps the region exactly tiled and coalesced |
| HeapTiles.RunRestores | src/heap.c:94-139 | a run after which nothing is live ends in the single initial free node |
| HeapTiles.FreeAllRestores | src/heap.c:94-139 | freeing all live blocks in any order is legal and restores the single initial free node |
| Heap.HeapFrame | src/heap.c:44-139 | writes inside one heap's region do not affect another heap |
| Heap.GiveOut | src/heap.c:57-84 | the writes of the split, the unlinking and the marking turn the node picture into that of the allocated row |
| Heap.InsertNode | src/heap.c:108-127 | the writes of the insertion link the node in at its place in address order |
| Heap.MergeNodes | src/heap.c:116-134 | the writes of a merge turn two adjacent free nodes into one |
| Heap.Memory.HeapInitialize | src/heap.c:26-42 | a new heap is one aligned free node up to the end of its memory, and other heaps stay as they are |
| Heap.Memory.TakeNode | src/heap.c:57-84 | a large enough node of the list is given out in memory as on the row of tiles |
| Heap.Memory.HeapAlloc | src/heap.c:44-92 | first fit on the list is first fit on the tiles; the outcome when nothing fits depends on the heap and changes nothing |
| Heap.Memory.PutBack | src/heap.c:108-137 | linking in and merging left and right in memory is releasing the tile on the row |
| Heap.Memory.HeapFree | src/heap.c:94-139 | a block goes back to the heap its header names, at its place; a node marked available, swallowed by a merge or not, is reported and nothing changes; no free takes a mark away |
| Heap.Memory.FreeTwice | src/heap.c:98-99 | freeing a block a second time, whatever was freed in between, is reported |
| Heap.PayloadWritesKeep | src/heap.c:12-18 | the allocator does not depend on what programs write into live blocks, the link word and stale headers included |
| Heap.Memory.UserWrites | src/heap.c:12-18 | such writes keep every heap in order |
| Heap.Memory.Run | src/heap.c:44-139 | over every legal run on any number of heaps memory follows the rows of tiles, up to an exhausted kernel heap |
| Heap.HeapsAreIndependent | src/heap.c:83-101 | in such a run each heap goes through its own requests as if it were alone |
| Exceptions.ThrowStep | src/libcxxrt/exception.cc:739-782 | a throw puts the exception in flight with one reference and no handler |
| Exceptions.BeginCatchStep | src/libcxxrt/exception.cc:1216-1260 | entering a handler moves the exception from flight to the innermost handler, rethrown or not |
| Exceptions.RethrowStep | src/libcxxrt/exception.cc:842-881 | a rethrow finds a positive handler count, makes it negative and puts the exception in flight again |
| Exceptions.EndCatchStep | src/libcxxrt/exception.cc:1308-1343 | leaving a handler removes it, unlinks the exception with its last handler, and frees it only without a pending rethrow |
| Exceptions.AddRefStep | src/libcxxrt/exception.cc:801-818 | taking a reference is counted and keeps the record |
| Exceptions.DropRefStep | src/libcxxrt/exception.cc:819-824 | dropping one frees the record exactly when nothing else holds it |
| Exceptions.BeginCatchViews | src/libcxxrt/exception.cc:1216-1260 | what entering a handler does to the open handlers and the exceptions in flight |
| Exceptions.EndCatchViews | src/libcxxrt/exception.cc:1308-1343 | the handler that ends is the innermost one, also when another exception is leaving it |
| Exceptions.CountsMeanStack | src/libcxxrt/exception.cc:833-883 | `handlerCount` is plus or minus the number of open handlers, negative exactly while rethrown from inside them; `uncaughtExceptions` counts those in flight; the list head is the innermost handler's exception |
| Exceptions.ExceptionRuntime.CxaThrow | src/libcxxrt/exception.cc:767-782 | refines the abstract throw; one new record with one reference and no handler, one more uncaught exception, nothing else |
| Exceptions.ExceptionRuntime.CxaBeginCatch | src/libcxxrt/exception.cc:1205-1277 | refines entering a handler; the exception heads the list, is linked in if it was not, and its count, made positive, is one higher |
| Exceptions.ExceptionRuntime.CxaRethrow | src/libcxxrt/exception.cc:833-883 | terminates exactly when nothing is being handled; otherwise one more uncaught exception, the head stays, its positive count is negated, and no other record changes |
| Exceptions.ExceptionRuntime.ReleaseException | src/libcxxrt/exception.cc:623-637 | one reference less, and the record freed exactly at zero |
| Exceptions.ExceptionRuntime.CxaEndCatch | src/libcxxrt/exception.cc:1285-1344 | refines leaving a handler; the head's count goes one towards zero, at zero it is unlinked, and only from above does it then lose a reference and, with its last, its record |
| Exceptions.ExceptionRuntime.CxaCurrentPrimaryException | src/libcxxrt/exception.cc:801-810 | a new reference to what is being handled, or null when nothing is |
| Exceptions.ExceptionRuntime.CxaIncrementExceptionRefcount | src/libcxxrt/exception.cc:812-818 | one more reference to that exception, and nothing else; null is ignored |
| Exceptions.ExceptionRuntime.CxaDecrementExceptionRefcount | src/libcxxrt/exception.cc:819-824 | one reference less, the record freed with the last; null is ignored |
| Exceptions.ExceptionRuntime.Run | src/libcxxrt/exception.cc:739-883 | over every legal trace memory follows the abstract stack, and every thrown exception has been freed exactly once or is still in use |
| Exceptions.ExceptionRuntime.FromStart | src/libcxxrt/exception.cc:739-883 | a whole program read off its operations alone: an exception is there exactly while it is thrown, handled, or taken more often than dropped; the counts and the list head in memory; everything else freed, each once |
| Exceptions.TraceMeans | src/libcxxrt/exception.cc:842-881 | the abstract stack after a trace has the open handlers and the flights that the operations say |
| Exceptions.TraceTakes | src/libcxxrt/exception.cc:801-824 | and the references taken less those dropped |
| Exceptions.RethrownUntilCaught | src/libcxxrt/exception.cc:842-881 | an exception that is rethrown is being thrown until it is caught again, whatever handlers end |
| Exceptions.NothingLeaks | src/libcxxrt/exception.cc:623-637 | with no handler open, nothing in flight and no reference held, memory is empty and everything thrown has been freed |
| Guard.StepKeepsInv | src/libcxxrt/guard.cc:213-257 | every atomic step of every thread keeps the lock invariant and is a move of the one-time contract |
| Guard.RunsRefineContract | src/libcxxrt/guard.cc:310-359 | every interleaving of any number of threads produces a log the contract accepts |
| Guard.OneAtATime | src/libcxxrt/guard.cc:310-359 | between two acquires returning 1 the first has aborted |
| Guard.NeverAgain | src/libcxxrt/guard.cc:356-359 | after a release no acquire returns 1 |
| Guard.SkipNeedsRelease | src/libcxxrt/guard.cc:314-317 | an acquire returns 0 only after a release |
| Guard.GuardSafety | src/libcxxrt/guard.cc:310-359 | all of these over every run from the zeroed guard, and at most one holder at any time |
| Guard.InitialisedReturns | src/libcxxrt/guard.cc:314-317 | an acquire of an initialised guard returns 0 after one load and changes neither word, whoever else is inside |
| Guard.LoneAcquire | src/libcxxrt/guard.cc:310-359 | after anything a single thread has done the guard is not jammed, and its next acquire comes back: with 0 at once if it has released, with 1 if not |
| Guard.JammedForever | src/libcxxrt/guard.cc:226-230 | a thread spinning on a jammed guard stays there in every continuation |
| Guard.SpinnerCanLeave | src/libcxxrt/guard.cc:322-340 | a spinning thread can still leave the loop if and only if the guard is not jammed |
| Guard.SpinnerTrapped | src/libcxxrt/guard.cc:229 | a run of three threads after which one of them can never leave |
| Blocking.DrainMeaning | src/objects/BlockInputDevice.cpp:68-90 | for any device, a scan splits the queue into a woken prefix (runnable, answered) and the rest (asleep, queued once), in order, touching nobody else |
| Blocking.DrainLocal | src/objects/BlockInputDevice.cpp:68-90 | a scan sees of the process table only who runs: device, woken and waiting come out the same for any other table, and what two tables agreed on they still agree on |
| Blocking.BlockInputDeviceWrapper.constructor | src/objects/BlockInputDevice.cpp:8-19 | nobody waits at a new device, whose array is its own |
| Blocking.QueueFits | src/objects/BlockInputDevice.cpp:28-40 | the queue never outgrows the process table, and has room for a process that is not in it |
| Blocking.BlockInputDeviceWrapper.DoRead | src/objects/BlockInputDevice.cpp:28-40 | a read that finds nothing queues the process at the end and puts it to sleep |
| Blocking.BlockInputDeviceWrapper.Read | src/objects/BlockInputDevice.cpp:42-45 | the same for the current process, keeping the queue in order and within its array |
| Blocking.BlockInputDeviceWrapper.OnRemovedByOwner | src/objects/BlockInputDevice.cpp:47-66 | a dying process leaves the queue, the others keep their order, and the wrapped device is told |
| Blocking.WithoutMeaning | src/objects/BlockInputDevice.cpp:51-63 | exactly that process is gone, the others are still queued once |
| Blocking.BlockInputDeviceWrapper.CloseGap | src/objects/BlockInputDevice.cpp:84-87 | the unserved tail moves to the front of the array |
| Blocking.BlockInputDeviceWrapper.Check | src/objects/BlockInputDevice.cpp:68-90 | for any device whose probe confirms a "try again", whatever else probing does to it, the scan terminates, stays within the array although it appends while draining, equals the scan on plain values, and restores the current process |
| Blocking.BlockInputDeviceWrapper.ServeAt | src/objects/BlockInputDevice.cpp:75-81 | one turn of the loop serves a reader as the running process and puts it behind the others if it must wait again |
| Blocking.CheckAll | src/objects/BlockInputDevice.cpp:92-97 | each device, its queue, and the state and return value of every process queued there come out as if it alone were scanned from the old table; each process still waits at one device at most, and no process that waits nowhere is touched |
| Blocking.ScanDetermined | src/objects/BlockInputDevice.cpp:68-90 | who runs fixes what becomes of a device and its queue; with the entries of the queued processes it fixes their new entries |
| Blocking.ScannedServes | src/objects/BlockInputDevice.cpp:79-81 | whoever has left the queue may run and has an answer other than "try again", whoever has not sleeps |
| Blocking.SumMeetsContract | inc/objects/BlockInputDevice.hpp:55-95 | devices of two kinds taken as one meet the probe contract if both do |
| Blocking.SumScans | src/objects/BlockInputDevice.cpp:92-97 | among devices of two kinds each is scanned as its own kind |
| DeviceRuns.PerformRead | src/objects/BlockInputDevice.cpp:42-45 | after a read among several devices the caller waits at that one at most, and if it does, a probe tells it to try again |
| DeviceRuns.Syscall | src/syscall/syscall_handler.cpp:34-46 | a system call does to each device, and to the processes queued there, what the call and one scan do; the caller has its return value (unless it is gone) and sleeps exactly if its read found nothing; whoever is woken may run and is answered; who waits nowhere is left alone |
| DeviceRuns.AnswerCommutes | src/syscall/syscall_handler.cpp:42-46 | setting the return value after the scan comes to the same as before it: the scan never serves the caller |
| DeviceRuns.Run | src/syscall/syscall_handler.cpp:25-54 | after every system call of any run each process is queued at one device at most, once, and sleeps while it is |
| DeviceRuns.KernelMeetsContract | inc/objects/InputDevice.hpp:12-14 | semaphores, terminals and process waits as one type of device meet the probe contract, so runs may mix them |
| Semaphore.SemaphoreMeetsContract | src/objects/Semaphore.cpp:5-16 | a semaphore meets the probe contract |
| Semaphore.SemDrain | src/objects/Semaphore.cpp:5-16 | a scan serves waiters in order until the count is used up or nobody waits, and the last one served took the last unit if none is left |
| Semaphore.SemAnswers | src/objects/BlockInputDevice.cpp:79-81 | whoever a scan of a semaphore wakes may run, and its wait has returned 0 |
| Semaphore.SettledNext | src/syscall/syscall_handler.cpp:38-54 | every system call keeps: units or waiters, units conserved, completions in arrival order |
| Semaphore.SemaphoreRuns | src/syscall/syscall_handler.cpp:38-54 | over every run: a positive count means an empty queue; initial count and signals equal count and completed sized waits; waits complete first come first served |
| Semaphore.BlockedCallerStays | src/syscall/syscall_handler.cpp:40-50 | a caller that must wait goes last, is not woken by its own call and is told to try again; otherwise nobody was waiting |
| Semaphore.SignalWakes | src/objects/Semaphore.cpp:18-22 | a signal serves the first waiter that takes the unit and the lookers ahead of it, nobody behind it |
| Semaphore.PerformCall | src/objects/Semaphore.cpp:5-22 | the call on the wrapper is the call on plain values |
| Semaphore.HandleSyscall | src/syscall/syscall_handler.cpp:34-46 | the call, the scan and the return value, left alone when the caller is gone, on the wrapper and the process table are that system call |
| DeviceRuns.SemaphoreCall | src/syscall/syscall_handler.cpp:34-46 | with any number of semaphores a call keeps each balanced; only the one it is about changes: a caller that must wait goes last there, sleeps, is told to try again and nobody is served, and a wait that passes returns 0; every waiter served may run and its wait has returned 0 |
| DeviceRuns.StepServes | src/objects/Semaphore.cpp:5-22 | what one call and scan do to one semaphore of several: a wait, a signal, or nothing |
| DeviceRuns.SemaphoreUses | src/syscall/syscall_handler.cpp:25-54 | over every run each of several semaphores has units or waiters, loses no unit, and serves first come first |
| DeviceRuns.SemaphoresFromStart | src/syscall/sem_create.cpp:7-19 | the same from the creation of the semaphores on |
| Dispatch.RealSyscallHandler | src/syscall/syscall_handler.cpp:25-81 | with that, the caller goes on if it is there, runnable and within its time slice, and otherwise the scheduler's choice runs with a new slice, or nobody |
| Dispatch.ChoiceMeans | src/resche.cpp:14-40 | whom the scheduler picks is in the process list and may run, of the idle class only if all that may run are, and nobody is picked only if nobody may run |
| Dispatch.ExitLeaves | src/objects/Process.cpp:60-64 | a process that exits cannot be picked any more; nobody else's slot changes |
| ProcessWait.ProcessWaitMeetsContract | src/objects/ProcessWait.cpp:38-51 | waiting for a process meets the probe contract |
| ProcessWait.Waits.Write | src/objects/ProcessWait.cpp:14-36 | a request names a live target, or is answered at once with the last exit code |
| ProcessWait.Waits.Read | src/objects/ProcessWait.cpp:38-51 | blocked while the request is open, then the status into the caller's memory |
| ProcessWait.Waits.ProcessExit | src/objects/ProcessWait.cpp:53-65 | every request for that process is answered with its status, no other changes |
| ProcessWait.WaiterLearnsStatus | src/objects/ProcessWait.cpp:14-65 | whatever others do, a waiter is blocked until its target exits and then reads the status heard last; that is its target's if and only if the last exit of process 0 since, if any, gave the same |
| ProcessWait.GoneTargetAnswers | src/objects/ProcessWait.cpp:24-36 | a wait for a process already gone answers at once with the status of its last exit, under the same condition |
| ProcessWait.HeardExactly | src/objects/ProcessWait.cpp:57-64 | the status heard is the one answered if and only if the last exit of process 0, if any, gave the same |
| ProcessWait.HeardUnlessZeroExits | src/objects/ProcessWait.cpp:57-64 | without an exit of process 0 the status heard last is the target's |
| ProcessWait.NobodyWaitsForZero | src/objects/ProcessWait.cpp:24-42 | a wait for process 0 is answered at once, with 0 or the last exit of process 0 since |
| ProcessWait.StatusOverwritten | src/objects/ProcessWait.cpp:57-64 | a run of three calls after which a waiter reads the status of process 0 instead of its target's |
| ProcessWait.WakesReadyPrefix | src/objects/BlockInputDevice.cpp:73-82 | exactly the answered waiters at the front wake, and none if the running process has an open request |
| ProcessWait.AnsweredButNotWoken | src/objects/BlockInputDevice.cpp:73 | a run from the initial state after which a blocked waiter has its answer and the scan leaves it asleep |
| Scheduler.Pass | src/resche.cpp:16-27 | a pass picks the first suitable process counting round from the current one, or none exists |
| Scheduler.Cpu.Resche | src/resche.cpp:14-40 | a normal process if any is runnable, else an idle one, else none; the tick counter is reset exactly on a pick |
| Scheduler.Cpu.Tick | src/resche.cpp:57-80 | a tick uses up the slice down to 0, and at 0 in user mode asks for a yield |
| Scheduler.Cpu.LeaveKernelModeHook | src/resche.cpp:82-86 | on the way out the scheduler decides exactly if the slice is used up |
| Scheduler.CloserOrPicked | src/resche.cpp:14-40 | while a normal process stays runnable each call picks it or strictly shortens its cyclic distance |
| Scheduler.PickedWithinOneRound | src/resche.cpp:14-40 | it is picked within 32 calls whatever the others do |
| Scheduler.IdleOnlyWhenNothingElse | src/resche.cpp:29-40 | an idle process is picked only when no normal one is runnable |
| LineDiscipline.RingPush | inc/objects/LineBufferedIOMixin.hpp:82-85 | the full test is exact at 255 bytes, and a push appends |
| LineDiscipline.RingPop | inc/objects/LineBufferedIOMixin.hpp:34-36 | advancing the start removes the first byte |
| LineDiscipline.RingUnpush | inc/objects/LineBufferedIOMixin.hpp:79 | stepping the end back removes the last byte |
| LineDiscipline.LineBufferedDevice.DoCommit | inc/objects/LineBufferedIOMixin.hpp:29-42 | the line is appended to the committed bytes as far as there is room, and is empty afterwards |
| LineDiscipline.LineBufferedDevice.TakeByte | inc/objects/LineBufferedIOMixin.hpp:58-91 | one typed byte on the rings is one typed byte on the plain sequences, echo included |
| LineDiscipline.LineBufferedDevice.FillBuffer | inc/objects/LineBufferedIOMixin.hpp:56-92 | so is the whole intake, with the reason it stopped |
| LineDiscipline.LineBufferedDevice.Deliver | inc/objects/LineBufferedIOMixin.hpp:99-106 | a reader gets the oldest committed bytes in order |
| LineDiscipline.LineBufferedDevice.Read | inc/objects/LineBufferedIOMixin.hpp:44-107 | a whole read refines the read on plain sequences of at most 255 bytes, with indices in range |
| LineDiscipline.LogGrows | inc/objects/LineBufferedIOMixin.hpp:74-81 | a step only adds to the end of what has been committed |
| LineDiscipline.CommitsAreFinal | inc/objects/LineBufferedIOMixin.hpp:29-107 | over every run readers have been given a prefix of the committed bytes, and no backspace or overflow reaches behind a commit |
| LineDiscipline.TakeInAgrees | inc/objects/LineBufferedIOMixin.hpp:56-92 | with room for every byte, one read edits as on unlimited paper |
| LineDiscipline.SessionIsLineEditing | inc/objects/LineBufferedIOMixin.hpp:44-107 | with room throughout, a whole session is plain line editing of the bytes that arrived |
| LineDiscipline.ReadGives | inc/objects/LineBufferedIOMixin.hpp:94-107 | with room, a read gets the text that line editing has released, as much as it asks for, or is told to try again if there is none |
| LineDiscipline.ReadToEnd | inc/objects/LineBufferedIOMixin.hpp:61-74 | an end of transmission releases the line as it stands, or gives end of file if there is nothing at all |
| LineDiscipline.FeedShows | inc/objects/LineBufferedIOMixin.hpp:75-91 | after a byte the screen still shows what readers get and the line being typed, if and only if its commit drops nothing |
| LineDiscipline.ScreenIsTrue | inc/objects/LineBufferedIOMixin.hpp:44-107 | throughout a session in which nothing overflows the screen shows exactly that |
| LineDiscipline.FeedAgrees | inc/objects/LineBufferedIOMixin.hpp:58-91 | one byte is edited as on unlimited paper if and only if there is room for it |
| LineDiscipline.ThroughoutIffRoomy | inc/objects/LineBufferedIOMixin.hpp:56-92 | every byte of one read is, if and only if none meets a full ring |
| LineDiscipline.SessionAgreesIffRoomy | inc/objects/LineBufferedIOMixin.hpp:44-107 | every byte of a whole session is, if and only if none meets a full ring |
| LineDiscipline.OverflowLosesByte | inc/objects/LineBufferedIOMixin.hpp:31-41 | a session from a fresh device in which 256 newlines arrive and only 255 are ever delivered |
| LineDiscipline.TakeInMore | inc/objects/LineBufferedIOMixin.hpp:56-92 | input that arrives later is taken in as if it had been there |
| LineDiscipline.ProbeUnnoticed | inc/objects/LineBufferedIOMixin.hpp:44-107 | whatever arrives after a zero-size read, the outcome of the next read, state included, differs from what it would have been if and only if the probe stopped at an end of transmission releasing a line and there is input by then |
| LineDiscipline.ProbeShows | inc/objects/LineBufferedIOMixin.hpp:44-107 | the reader's bytes or return value differ if and only if, besides, it asks for more than was released and the further input commits more |
| LineDiscipline.ProbesDoNotShow | inc/objects/LineBufferedIOMixin.hpp:44-107 | over a whole session whose probes release no line, all readers get what they would get without the probes |
| LineDiscipline.ProbeLosesEndOfFile | inc/objects/LineBufferedIOMixin.hpp:61-73 | three bytes for which reading directly reports end of file and reading after a probe does not |
| Terminal.TerminalMeetsContract | inc/objects/InputDevice.hpp:12-14 | behind the line discipline a reader told to try again is told so by a probe |
| Terminal.ProbeTakesBytesIn | inc/objects/InputDevice.hpp:13 | a terminal that a probe changes |
| Terminal.ScanKeepsLog | src/objects/BlockInputDevice.cpp:68-90 | through any scan committed bytes stay committed and readers get them in order |
| Terminal.ScanLosesEndOfFile | src/objects/BlockInputDevice.cpp:73-80 | a scan that wakes a reader and swallows the end of file behind its line |
| FatFile.FlattenAt | src/objects/File.cpp:32-50 | indexing a concatenation of equal blocks by quotient and remainder |
| FatFile.ExtentAt | src/objects/File.cpp:32-50 | byte `i` of consecutive sectors |
| FatFile.SequentialFile.EnsureCursorInBuffer | src/objects/File.cpp:32-41 | afterwards the cache holds the cursor's sector, whether it was read or not |
| FatFile.SequentialFile.Read | src/objects/File.cpp:43-69 | a read delivers exactly the bytes at the cursor, as many as there are |
| FatFile.ChainByteAt | src/objects/File.cpp:185-193 | byte `i` of the concatenated clusters is where the two-step split of its sector number finds it |
| FatFile.ChainUnique | src/objects/File.cpp:154-163 | the allocation table determines the chain |
| FatFile.ChainAcyclic | src/objects/File.cpp:154-163 | a chain that ends visits no cluster twice |
| FatFile.NextCluster | src/objects/File.cpp:159-160 | the two-byte read through the table's own file is the little-endian table entry |
| FatFile.EntryBytes | src/objects/File.cpp:159-160 | a table entry has its low byte first |
| FatFile.ClusterLayout | src/objects/File.cpp:184-200 | the data area starts with cluster 2 and the clusters follow one another |
| FatFile.CountClusters | src/objects/File.cpp:154-163 | the first walk counts the chain |
| FatFile.FillTable | src/objects/File.cpp:171-181 | the second walk records exactly the chain and never writes past the table |
| FatFile.ClusterFile.constructor | src/objects/File.cpp:135-182 | both walks together give a file with the cursor at zero, the chain as its table, and as its size the larger of capacity and entry, a directory's being the capacity |
| FatFile.ClusterFile.EnsureCursorInBuffer | src/objects/File.cpp:184-200 | every cluster index is in range, and the cached sector holds the chain's byte at the cursor |
| FatFile.ClusterFile.DoRead | src/objects/File.cpp:202-227 | a read delivers exactly the bytes of the concatenated chain at the cursor |
| FatFile.ClusterFile.Run | src/objects/File.cpp:202-250 | any sequence of seeks and reads delivers what plain bytes with a cursor would |
| FatFile.SeekThenRead | src/objects/File.cpp:71-92 | a read after seeking from the start or from the end delivers the bytes there |
| FatFile.SeekBack | src/objects/File.cpp:71-92 | seeking back by what a read delivered and reading again delivers the same |
| FatFile.IndexInRange | src/objects/File.cpp:187-191 | the index into the cluster table is in range exactly for the bytes of the chain |
| FatFile.ReadWhole | src/objects/File.cpp:168-169 | reading a regular file to the end gives its whole chain, and the entry's size if and only if that is the capacity |
| FatFile.ReadsStayInTable | src/objects/File.cpp:187-191 | reading up to some size stays within the cluster table if and only if the chain covers the size |
| FatFile.ReadTiny | src/objects/File.cpp:168-169 | on a volume of one-sector clusters a file of one cluster reads as 512 bytes whatever smaller size its entry gives |
| FatFile.ReadLinked | src/objects/File.cpp:135-227 | a file of two clusters, opened and read to its end, is the first cluster's sector and then the second's |
| FatFile.LongEntryLeavesTable | src/objects/File.cpp:187-191 | there, with an entry above 512, a byte below the size has no cluster in the table |
| Printf.Emit | src/printf.c:37 | a character is written only below the bound and counted always |
| Printf.NoLeadingTick | src/printf.c:99 | with the computed length the leftmost character is a digit, so a mark is never written in front of nothing |
| Printf.WriteNumber | src/printf.c:145-169 | the digits written right to left are the number's text, cut off at the bound |
| Printf.IntTextPieces | src/printf.c:111-176 | at most one of the three kinds of padding appears, in its place around sign, prefix and digits |
| Printf.FieldWidth | src/printf.c:111-176 | the width is a minimum, whichever way the field is filled up |
| Printf.FormatInt | src/printf.c:39-179 | the count is the length of the whole text whatever the capacity, and the buffer holds what fits of it |
| Printf.PutString | src/printf.c:434-466 | a string is cut to the precision and padded to the width on the proper side |
| Printf.PutConversion | src/printf.c:320-502 | a conversion prints what its flags, width, precision, rank and argument say and makes its one fetch |
| Printf.DirectiveSinks | src/printf.c:279-295 | a directive's precision falls below "none" if and only if the last star in it has a negative argument and a digit other than 9 behind it |
| Printf.WellFormedExactly | src/printf.c:423-452 | a format and its arguments are admitted if and only if no %s or %c that is reached has such a precision |
| Printf.StarThenDigit | src/printf.c:434-452 | %.*5s with a negative star is not admitted, %.*9s is |
| Printf.CountRuns | src/printf.c:452 | how often the character loop of %s runs, its 32-bit counter wrapping |
| Printf.StringOverrun | src/printf.c:439-456 | the loop reads past the string if and only if the precision is below "none", and otherwise exactly the characters shown |
| Printf.Vsnprintf | src/printf.c:181-514 | the state machine refines the format grammar; the result is the length of the full output whatever the capacity, the buffer holds the longest part of it that fits and a terminator, and nothing behind that is touched |
| Printf.Asprintf | src/printf.c:527-548 | the two passes agree: the block holds exactly the output and its terminator |
| Formats.TextPrints | src/printf.c:210-223 | text without a percent sign is printed as it stands, and the rest of the format behind it |
| Formats.RenderBehind | src/printf.c:206-505 | a format prints the same wherever it stands |
| Formats.SpecRead | src/printf.c:225-318 | a specification as it is written, with any flags, width, precision, stars and length, is understood as it is meant |
| Formats.NumericIs | src/printf.c:320-421 | the argument is taken in the size its length says, signed or not, and printed in the base, sign, prefix, digits and padding of its conversion |
| Formats.SpecPrints | src/printf.c:225-503 | every specification prints the text it means and uses the arguments it means, and the rest of the format follows |
| Formats.FormatPrints | src/printf.c:181-514 | every format put together from texts and specifications prints their texts one after the other, each with its own arguments |
| Formats.DecimalForms | src/printf.c:345-421 | for every 32-bit value and width what %d, %+d, % d, and %d with a width on either side print |
| Formats.UnsignedRoundTrip | src/printf.c:379-419 | %u prints the 32-bit number, and reading it back in base 10 gives the signed number nearest to it |
| Formats.TextForms | src/printf.c:423-502 | %% prints a percent sign, %c its character, %s its string |
| Numerals.SpelledText | src/printf.c:63-101 | the digits printed are the number spelled out in the base, behind zeros |
| Numerals.GroupedText | src/printf.c:88-169 | the ' flag puts a mark in front of every third or fourth digit from the right |
| Numerals.IntTextIs | src/printf.c:39-179 | an integer conversion is sign, prefix and spelled digits in a field of the width |
| RoundTrip.MarksOnlyGroup | src/printf.c:88-99 | without its marks a grouped number is the plain number |
| Strtol.CutoffExact | src/string.c:272-290 | comparing with quotient and remainder of the limit decides exactly whether one more digit fits |
| Strtol.ReadFront | src/string.c:238-255 | white space, sign and base prefix are consumed as the grammar says, never past the terminator |
| Strtol.ClampNearest | src/string.c:276-302 | the clamped value is the one 32-bit number nearest to the exact one |
| Strtol.StrToL | src/string.c:225-309 | the 32-bit number nearest to the value of the maximal digit prefix, and where it ends; 0 and the start without a digit |
| Strtol.SpaceInFront | src/string.c:238-241 | each of the six characters of white space in front changes nothing but the end, by one |
| Numerals.NumeralRead | src/string.c:225-309 | every number in every base from 2 to 36, in either case, behind any white space and sign and before no other digit, is read to its end as the 32-bit number nearest to it |
| Numerals.NoNumeralRead | src/string.c:225-309 | without a digit behind white space and sign nothing is read |
| Strtol.StandardUnlessBarePrefix | src/string.c:248-255 | the standard's numeral is read if and only if no `0x` without a hexadecimal digit stands there; there nothing is read instead of the 0 |
| Strtol.PrefixAlone | src/string.c:248-255 | the strings `0x` and `0xg`, where code and standard part |
| RoundTrip.NumeralValue | src/string.c:275-299 | reading the first digits of a printed number gives the number with the others shed |
| RoundTrip.LeadingZero | src/printf.c:73-86 | a number starts with 0 exactly when it shows more digits than it needs |
| RoundTrip.Scanned | src/string.c:225-309 | a numeral laid out with padding, sign and prefix is read as its digits' value up to its end |
| RoundTrip.PrintThenRead | src/printf.c:39-179 | for every 64-bit value, flags without marks, width and precision, printing and reading back gives the value clamped to 32 bits, ending at the number's end |
| RoundTrip.PlainDecimalRead | src/string.c:254-255 | a decimal without zeros in front is read in base 0 too |
| RoundTrip.DecimalRoundTrip | src/printf.c:345-375 | every signed 32-bit value printed by %d is read back in bases 10 and 0, up to the terminator |
| RoundTrip.PrefixedRoundTrip | src/printf.c:376-413 | every value in 0..2^31-1 printed by %#o, %#x or %#X is read back in base 0, up to the terminator |

## Left out

- Division by zero, which the builtins leave undefined; the optional remainder pointer is always taken as given.
- `malloc(0)` and request sizes near the end of the address space: sizes are at least 1 and unbounded.
- Heap.Memory.HeapInitialize: asks for room for one node, which the code has only as a note to itself, and for a region apart from the other heaps.
- Exceptions of other runtimes, dependent exceptions, the emergency pool and the personality routine: they depend on pointer layout and the unwinder. What the unwinder decides appears as the order of the operations.
- Exceptions.ExceptionRuntime.CxaRethrow: asks, as the assertion at line 860 does, that the innermost handled exception is not itself still in flight.
- Guard memory is sequentially consistent; the assertion after the unlock reads a word that another thread may have changed and is left out.
- ProcessWait.Waits.Write: asks for a target below 32. The code takes any 32-bit number and indexes the process list and the exit codes, both of 32 entries, with it.
- Heap.Memory.HeapFree: a pointer that is neither a block nor marked available is not represented, nor is a stale mark that a program has overwritten.
- Blocking.CheckAll: the devices have one state type (which can be a sum, as `DeviceRuns.KERNEL_DEVICE` is), and empty slots of the device list, as well as the limit on its length, are left out of it. The buffers of sleeping readers are not represented; input arrives between system calls.
- Semaphore.HandleSyscall: the device is one semaphore (`DeviceRuns.SemaphoreCall` has several), and its count is unbounded.
- Dispatch.RealSyscallHandler: a process that exits only leaves its slot; the exception handlers around the call are not represented.
- `SleepDevice` is no instance of the device contract: its tick can advance during a scan.
- Scheduler.Cpu.Resche: the return to the kernel when nothing can run is the answer "none found".
- FatFile.ClusterFile.constructor: asks for a chain that ends, lies in the volume and has a capacity of 32 bits. Reads are promised up to the capacity. The start cluster 0 of an empty file is not a chain here: the code takes the table entry 0 for its next cluster and subtracts 2 from 0. The disk does not change while files are read; directories and writing are not represented.
- Printf.Vsnprintf: widths and precisions are unbounded integers, the store through the pointer of %n is not represented, and the formats where %s runs off its string (`WellFormedExactly`) have no output.
- Formats.SpecPrints: a width or a precision is written as digits or as one star; what the code makes of mixtures of the two is said by `Printf.DirectiveSinks` only.
- Printf.PutString: asks for a precision of -1 or more; below that the code's loop overruns the string (`StringOverrun`) and has no output to state.
- Printf.Asprintf: whether memory is available is a parameter.
- The fork protocol, the ELF loader, the wide multiplication of compile-rt-builtins/fp_lib.h, the demangler, the character class functions and all hardware access are not part of this model.
