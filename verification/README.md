# SLASH: a Dafny model of the driver, its runtime and its tools

This project models the hard core of SLASH, a driver and runtime for an FPGA accelerator card, and
proves properties of it:

- the QDMA transfer engine of the kernel driver: the io_uring and the blocking transfer batch, the
  reference-counted device, queue-pair and buffer objects, the hardware queues behind a queue pair,
  scatter-gather slicing, and the bit fields of the host profile context;
- stable board numbers and character-device minors;
- the userspace transfer fallback and the mock queue-pair table behind it;
- the tar reader of the runtime, with a writer for the same format;
- kernel argument staging and the batched register write;
- buffer placement of the memory validation tool, and its test phases;
- the XOR check of the bandwidth example.

`dafny verify dfyconfig.toml` checks everything.

## Layout

| file | what it holds |
|---|---|
| `Common.dfy` | optional values, bytes and machine integers |
| `Outcomes.dfy`, `UringBatch.dfy`, `UringFirstError.dfy`, `UringCommand.dfy`, `BlockingBatch.dfy` | the two transfer batches, which error is posted, the whole io_uring command, and their agreement |
| `Krefs.dfy`, `Lifetimes.dfy`, `QpairFds.dfy` | reference counts over every run, the character device inside the device, and the loops that take and drop references |
| `QueuePairs.dfy` | the id table, direction bits, handles and hardware queues |
| `ScatterGather.dfy` | buffers, DMA mappings and the list of one sub-transfer |
| `HostProfile.dfy`, `ProfileWriter.dfy` | bit fields, and programming a profile |
| `Boards.dfy` | board numbers and minors |
| `Files.dfy`, `Fallback.dfy`, `MockQdma.dfy` | positioned file access, the bounce copy, the mock table |
| `Ustar.dfy`, `UstarReader.dfy`, `UstarWriter.dfy` | the tar format as a function, the loop that reads it, the writer and the round trip |
| `KernelArgs.dfy` | staged arguments and register writes |
| `Placement.dfy`, `Phases.dfy` | the placement checks and the buffers of each phase |
| `PerfXor.dfy` | the closed-form XOR |

## What is assumed of the environment

- libqdma: a submit that returns a negative code never calls back; any other fires its callback
  exactly once, at any later moment. A queue handle names one queue index and type. A failed call
  leaves the queue as it was; any call may fail. The sequence of failures is an arbitrary function.
- Allocation failures, DMA addresses, mapping errors, short reads and writes, register errors and
  the busy bit are parameters that take every value.
- Kernel threads interleave at every access to shared state (io_uring batch) or at every critical
  section of the device lock and every reference-count operation outside it (lifetimes).
- The VFS does not release a file while a call on it is in progress.
- A character device can be looked up while it is registered. Its removal does not wait for lookups in
  progress or for open files: each of them goes on using the `struct cdev` until the driver's open has
  been refused, or until after the driver's release of the file has returned. That structure is part
  of the device structure and has no reference to it.
- A completion entry of io_uring carries a signed 32-bit result.
- A positioned read or write returns at most what was asked for, and no file grows beyond 2^63 - 1
  bytes.
- The profile controller stores what it is told to and loads what it stored.
- Path clean-up and the file system of the tar reader are parameters.

## Where a property holds only under a condition

- Every holder of a device reference is counted, but the files of the character device use memory
  inside the device without holding one at their two ends. The freed device is touched exactly if a
  lookup or a file is there when the last reference is about to be dropped (`Lifetimes.BadTouchIff`).
  `Lifetimes.RefusedOpenTouchesFreed` and `Lifetimes.LastCloseTouchesFreed` are two such runs: an open
  refused across a removal, and a file closed last after one.
- A transfer is prepared under the device lock and submitted without it. The submit finds the libqdma
  handle open exactly if teardown has not finished since the preparation
  (`Lifetimes.SubmitFindsHandleIff`); `Lifetimes.SubmitMeetsClosedHandle` is a run in which it has.
- A mapping whose DMA address is zero is never unmapped, because zero also marks an unmapped entry;
  all mappings of a buffer are given back exactly when no page was mapped at zero
  (`ScatterGather.AllocThenRelease`); `ScatterGather.ZeroAddressStaysMapped` shows the other case.
- A deleted queue pair whose entry an fd still holds keeps its handles. A transfer prepared through
  such an fd resolves to a queue of its own pair exactly while the pair is in the table; afterwards it
  reaches another pair's queue exactly if the id has been given out again with that direction
  (`QueuePairs.Qdma.ResolveQueue`). `QueuePairs.StaleFdReachesNewPair` shows such a run.
- The outstanding counter of an io_uring batch covers the sub-transfers *not yet handed to libqdma*;
  a refused one that is the last to be accounted for is counted down before the submit loop moves on
  (`UringBatch.OutstandingCoversUnsubmitted`).
- The batched register write and the single writes reach the same BAR words exactly when adding the
  offset does not wrap the 64-bit address or the BAR length divides 2^64 (`KernelArgs.SameWord`);
  `KernelArgs.WrappedRegisterDiffers` shows a kernel where they do not.
- The words of an argument cover its declared width exactly when the width is at most 2^32 - 32 bits;
  beyond that the rounding wraps and one word is written (`KernelArgs.WordCountIsExact`,
  `KernelArgs.WideArgumentGetsOneWord`).
- The BAR range check is right exactly when its own sum does not wrap (`KernelArgs.ResolvesIsExactIff`).
- A result reaches the user of io_uring unchanged exactly when it is an error or a byte count below 2^31
  (`BlockingBatch.CompletionEntryIsExactIff`); `BlockingBatch.LargeBatchLooksFailed` is a successful
  batch whose completion entry reads as an error. The user library keeps the answer of the blocking
  ioctl in 32 bits as well, so its byte counts are exact under the same condition
  (`BlockingBatch.LibraryResultIsExactIff`).
- The tar reader sets the permissions of files only; the mode of a directory entry is not applied.
- The host profile reads back as written exactly when the host id fits the four-bit steering fields
  (`ProfileWriter.Controller.CompareFields`).
- An io_uring batch reports the error that was offered first in time (`UringFirstError.PostedIsEarliest`)
  and the blocking batch the one at the lowest index: they agree on whether there is an error, not on
  which one.

Code and comments disagree in one place: the comment above `slash_qdma_qpair_entry_release` says that
all hardware queues of an entry are gone by the time it is freed, but the rollback of an add and the
device teardown drop the entry even when removing a queue failed. The model follows the code: a
hardware queue without a pair is possible only after a failed removal (`QueuePairs.Qdma.TearDown`).

## Model

| member | source | states |
|---|---|---|
| `Outcomes.LowestErrorMeaning` | driver/slash_qdma.c:3131-3141 | the reported error is zero iff no sub-transfer failed, and otherwise belongs to the lowest failing index |
| `Outcomes.TotalBytesFits` | driver/slash_qdma.c:3209-3219 | byte totals of any batch of up to 2^31 sub-transfers fit a signed 64-bit counter |
| `UringBatch.StepKeepsInv` | driver/slash_qdma.c:3178-3339 | every single access of the submitter, a worker or the deferred completion keeps the batch invariant (counter = undropped requests, total = bytes added, one scheduler, error recorded) |
| `UringBatch.NoTouchAfterFree` | driver/slash_qdma.c:3209-3228 | in every interleaving, no thread has an access to the batch context left once it is freed |
| `UringBatch.OutstandingCoversUnsubmitted` | driver/slash_qdma.c:3320-3338 | in every interleaving, the outstanding count is at least the number of sub-transfers not yet handed to libqdma |
| `UringBatch.CompletionIsUnique` | driver/slash_qdma.c:3178-3228 | the completion is scheduled, started and posted at most once, only after all sub-transfers are accounted for, and answers for all of them; no reference is dropped twice |
| `UringBatch.NeverStuck` | driver/slash_qdma.c:3178-3339 | until the context is freed some thread can always take a step |
| `UringBatch.RunIsShort` | driver/slash_qdma.c:3178-3339 | every step lowers a measure, so interleavings are bounded |
| `UringBatch.EveryBatchCompletesOnce` | driver/slash_qdma.c:3320-3338 | for every batch size, every interleaving is finite and one that cannot go on has posted exactly one completion (byte sum or a recorded error), dropped each buffer reference exactly once, synced exactly the card-to-host slices that got data, and freed the context |
| `UringFirstError.PostedIsEarliest` | driver/slash_qdma.c:3209-3228 | over every interleaving, the result posted is the error of the earliest compare-and-exchange in the run that offers one, or the byte sum if none does; each outcome is the one its callback or refused submit brought |
| `UringFirstError.PostedStays` | driver/slash_qdma.c:3178-3228 | no later step of any thread changes what was posted |
| `UringCommand.EveryCommandEnds` | driver/slash_qdma.c:3246-3339 | for every batch size and interleaving a command ends rejected with the code of the preparation that failed in that run, each reference taken in preparation given back exactly once, the context freed and nothing posted, or run, with each reference dropped exactly once by its one completion |
| `UringCommand.RejectionIsTheFailure` | driver/slash_qdma.c:3307-3311 | a command being undone or rejected carries the code of a failed preparation of its own run |
| `UringCommand.CommandIsShort` | driver/slash_qdma.c:3246-3339 | no command goes on forever, preparation and rollback included |
| `UringCommand.EveryRunIsShort` | driver/slash_qdma.c:3246-3339 | every run of a command of n sub-transfers has at most 10 n + 5 steps |
| `BlockingBatch.RejectionMeans` | driver/slash_qdma.c:3073-3090 | no descriptor is rejected iff all name a bound queue pair and pass preparation; otherwise the lowest rejected one decides: -EINVAL for an index out of range, else its own code |
| `BlockingBatch.Transfer.PrepareAll` | driver/slash_qdma.c:3073-3090 | either every descriptor is prepared with one reference per use of a buffer, or the first rejection is returned and all counts are as before |
| `BlockingBatch.Transfer.SubmitAllButLast` | driver/slash_qdma.c:3102-3115 | with callbacks arriving at any moment, each request ends up queued or refused as libqdma chose, and the last is untouched |
| `BlockingBatch.Transfer.WaitAll` | driver/slash_qdma.c:3126-3129 | waits for exactly the queued requests, after which nothing is pending |
| `BlockingBatch.Transfer.Aggregate` | driver/slash_qdma.c:3131-3136 | yields the lowest-index error and the byte sum, restores every buffer count and hands back to the CPU exactly the card-to-host slices that received data |
| `BlockingBatch.Transfer.Run` | driver/slash_qdma.c:3035-3144 | on every path, including a rejection in mid-batch, nothing stays pending and buffer counts are restored; libqdma is reached iff every descriptor names a bound pair and passes preparation, and otherwise the lowest offending one gives the error; a batch that runs returns the lowest-index error or the byte sum, and the CPU sees exactly the slices that received data |
| `BlockingBatch.BatchesAgree` | driver/slash_qdma.c:3035-3228 | both batches return the same count on every all-success outcome and a negative result on exactly the same outcomes |
| `BlockingBatch.CompletionEntryIsExactIff` | driver/slash_qdma.c:3186-3193 | the posted result reaches the io_uring user unchanged iff it is an error or a byte sum below 2^31 |
| `BlockingBatch.LargeBatchLooksFailed` | driver/slash_qdma.c:3186-3193 | a batch of two successful sub-transfers whose completion entry is negative |
| `BlockingBatch.LibraryResultIsExactIff` | driver/libslash/src/qdma.c:541-561 | the library's result of a blocking batch is the outcome iff that is an error or a byte sum below 2^31 |
| `Krefs.RollBackRestores` | driver/slash_qdma.c:3497-3521 | dropping references just taken, last first, restores the pool exactly |
| `Krefs.GetAllExact` | driver/slash_qdma.c:3497-3521 | taking one reference per binding keeps counts equal to holders, also when an id is bound twice |
| `Krefs.PutAllExact` | driver/slash_qdma.c:3389-3408 | dropping one reference per binding keeps counts equal to holders and frees exactly at zero |
| `Lifetimes.StepKeepsInv` | driver/slash_qdma.c:1305-1382 | each critical section and each single count operation outside the lock keeps every count equal to its number of live holders, with half-released fds and dying buffers counted for what they have not dropped |
| `Lifetimes.CountsEqualHolders` | driver/slash_qdma.c:2488-2613 | over every run of open, refused open, close, add, delete, get-fd, buffer create, mmap, fork, munmap, transfer and removal with their error exits, each count equals its holders, no holder of a reference finds its object freed, and an object is freed exactly when its last holder is gone |
| `Lifetimes.BadTouchIff` | driver/slash_qdma.c:1541-1581 | over every run, the freed device is touched through its embedded character device iff a lookup or a file is using that when the last device reference is about to be dropped |
| `Lifetimes.NoBadTouchWhileAlive` | driver/slash_qdma.c:1541-1581 | while the device is bound, open or otherwise referenced nothing touches freed memory |
| `Lifetimes.RefusedOpenTouchesFreed` | driver/slash_qdma.c:1541-1549 | a run: lookup, removal, refused open |
| `Lifetimes.LastCloseTouchesFreed` | driver/slash_qdma.c:1569-1581 | a run: open, removal, close |
| `Lifetimes.SubmitFindsHandle` | driver/slash_qdma.c:3109-3119 | in every reachable state a submit finds the libqdma handle open iff teardown has not finished |
| `Lifetimes.SubmitFindsHandleIff` | driver/slash_qdma.c:2910-2924 | over every run, a submit finds the handle open iff teardown has not finished between its preparation and the submit |
| `Lifetimes.SubmitMeetsClosedHandle` | driver/slash_qdma.c:3109-3119 | a run: preparation, removal up to the end of teardown, submit |
| `Lifetimes.NothingLeaks` | driver/slash_qdma.c:2657-2753 | once the binding, all files, mappings and transfers are gone, every object ever created has been freed |
| `Lifetimes.NothingGrantedAfterShutdown` | driver/slash_qdma.c:1305-1382 | in every interleaving after shutdown, no open, add, get-fd, buffer allocation or transfer prep succeeds; after teardown the table stays empty and the libqdma handle is closed at most once |
| `Lifetimes.GetFdBinds` | driver/slash_qdma.c:3497-3521 | a new fd is bound to the very entries its ids have in the table, and every other fd is kept |
| `Lifetimes.TableSteps` | driver/slash_qdma.c:562-586 | an add puts the new entry at the lowest free id, a delete empties its id and drops that entry, and no other step or slot changes the table |
| `QpairFds.Device.BindAll` | driver/slash_qdma.c:3497-3521 | the lookup loop binds all ids or none, each to the entry the table has for it, and is the get-fd transition of the lifetime model |
| `QpairFds.Device.Release` | driver/slash_qdma.c:3389-3408 | puts each bound entry once, in order, and then the device |
| `QpairFds.ReleaseIsSteps` | driver/slash_qdma.c:3396-3402 | the release loop without interference is the release steps of the lifetime model, one put each |
| `QpairFds.Device.EmptyTable` | driver/slash_qdma.c:1348-1360 | the teardown loop drops exactly the references of the occupied slots and leaves none |
| `QueuePairs.Qdma.QueueRemoveSafe` | driver/slash_qdma.c:424-488 | from any queue state, success means the queue is gone and nothing else changed, and it fails iff libqdma reported an error |
| `QueuePairs.Qdma.AddQ` | driver/slash_qdma.c:1885-2013 | bit and handle are set together with the queue; a failed configuration leaves no trace unless its removal fails |
| `QueuePairs.Qdma.RmQ` | driver/slash_qdma.c:2029-2065 | bit and handle are cleared together, exactly when the queue is gone |
| `QueuePairs.Qdma.AddQueuesOrNone` | driver/slash_qdma.c:1810-1834 | all requested queues or none |
| `QueuePairs.Qdma.QpairAdd` | driver/slash_qdma.c:1779-1838 | success gives the lowest free id a pair with exactly the requested directions; failure, allocation included, restores the id table, and the hardware queues whenever removal of the added queues succeeded |
| `QueuePairs.Qdma.OpApply` | driver/slash_qdma.c:2218-2265 | every queue tried and not failed is in the operation's target state; fail-fast stops at the first failure and leaves later queues alone, best-effort tries all; it succeeds whenever every queue is in a state the operation allows and libqdma does not fail; other pairs are untouched |
| `QueuePairs.Qdma.QpairOp` | driver/slash_qdma.c:2158-2199 | a start that succeeds leaves all queues of the pair online, a stop leaves them enabled, and a delete leaves none and frees the id, whatever states they were in; an enabled pair starts and an online one stops unless libqdma fails; a failed delete has still removed every other queue and keeps the id |
| `QueuePairs.Qdma.TearDown` | driver/slash_qdma.c:1336-1381 | empties the table, closes the handle once, and leaves no hardware queue unless some removal failed |
| `QueuePairs.Qdma.ResolveQueue` | driver/slash_qdma.c:2910-2924 | while a pair is in the table its entry resolves to its own queue; afterwards it resolves to another pair's queue iff the id was given out again with that direction, and otherwise to no hardware queue unless a removal has failed |
| `QueuePairs.WhoseQueue` | driver/slash_qdma.c:2917-2923 | a handle belongs to the pair whose id it carries, if that pair has the direction, and to no other |
| `QueuePairs.StaleFdReachesNewPair` | driver/slash_qdma.c:2187-2195 | a run in which an entry kept by an fd after a delete resolves to a queue of the next pair with that id |
| `ScatterGather.Buffer.DmaMap` | driver/slash_qdma.c:2316-2338 | every entry carries the address its page was mapped at; or, at the first error, the number of mappings left is exactly the number made at address zero |
| `ScatterGather.Buffer.Alloc` | driver/slash_qdma.c:2376-2426 | succeeds iff the length is right and every allocation and mapping does, with the page list chained to its end and each page's own address in it; a bad length and nothing else is invalid; failure gives back all pages and all mappings but those at address zero |
| `ScatterGather.Buffer.Release` | driver/slash_qdma.c:2488-2499 | gives back every page and every mapping with a non-zero address |
| `ScatterGather.UnmapMissesZeros` | driver/slash_qdma.c:2294-2301 | an unmap pass over pages mapped at given addresses misses exactly those at zero |
| `ScatterGather.AllocThenRelease` | driver/slash_qdma.c:2376-2499 | over the life of a buffer, created successfully or not, all pages come back, and all mappings iff no page was mapped at address zero |
| `ScatterGather.ZeroAddressStaysMapped` | driver/slash_qdma.c:2297-2300 | one page mapped at address zero stays mapped |
| `ScatterGather.PageCountFits` | driver/slash_qdma.c:2897-2908 | after the range check no 64-bit sum wraps and the page-count check cannot reject |
| `ScatterGather.ConsecutivePages` | driver/slash_qdma.c:2926-2953 | whole pages with a clipped last one cover one unbroken byte range |
| `ScatterGather.SliceCovers` | driver/slash_qdma.c:2926-2933 | following the cached chain for exactly the page count covers a page-aligned slice although the chain runs on |
| `ScatterGather.CopyCovers` | driver/slash_qdma.c:2934-2953 | the clipped copy covers a slice that ends inside a page |
| `ScatterGather.XferPrep` | driver/slash_qdma.c:2835-2988 | accepts iff direction, length, buffer of this device, alignment, range, live queue and memory are all right, and gives each error code exactly for its own cause; an accepted request visits exactly the bytes [offset, offset + length) in order through their mappings, and the cached list is unchanged |
| `HostProfile.SetField` | driver/slash_qdma.c:847-863 | for every field of width 1 to 32, straddling or not, the field's bits become the value's and every other bit of the 256 is unchanged |
| `HostProfile.GetField` | driver/slash_qdma.c:915-928 | bit i of the result is bit lo + i of the context inside the field and zero above it |
| `HostProfile.SetThenField` | driver/slash_qdma.c:847-928 | after a set the field holds the value cut to its width |
| `HostProfile.FieldIsUnique` | driver/slash_qdma.c:915-928 | a field holds one value, so get after set returns the masked value |
| `HostProfile.SetKeepsField` | driver/slash_qdma.c:847-863 | a set leaves every disjoint field as it was |
| `HostProfile.DisjointSetsCommute` | driver/slash_qdma.c:847-863 | two sets of disjoint fields give the same context in either order |
| `ProfileWriter.BuildProfile` | driver/slash_qdma.c:996-1004 | the context holds the master id and both steering values, and every other bit is clear |
| `ProfileWriter.HostsAreDistinct` | driver/slash_qdma.c:996-1004 | hosts below 16 get distinct master ids, 0x100 above the host id, which survive the cut to the field width |
| `ProfileWriter.CommandDecodes` | driver/slash_qdma.c:947-948 | the command word carries its operation and, for write and read alike, the same context index |
| `ProfileWriter.CommandValues` | driver/slash_qdma.c:1024-1025 | the words documented for hosts 0 and 1 |
| `ProfileWriter.Controller.WaitReady` | driver/slash_qdma.c:878-900 | ends within 1000 polls; a timeout means the bit was read set each time, and it succeeds if the bit is clear and no access fails |
| `ProfileWriter.Controller.ReadHostProfile` | driver/slash_qdma.c:944-969 | success returns the stored profile and changes none |
| `ProfileWriter.Controller.CompareFields` | driver/slash_qdma.c:1055-1061 | a faithfully stored profile compares equal iff the host id is below 16 |
| `ProfileWriter.Controller.WriteHostProfile` | driver/slash_qdma.c:993-1078 | zero means the controller holds the profile whatever it held before and whether or not it can be read back, and it is zero whenever the controller is ready and no access fails; other profiles are unchanged |
| `Boards.RunKeepsTable` | driver/slash_chrdev.c:150-222 | over every run of gets and puts at most 16 numbers are issued, without gaps, to distinct boards |
| `Boards.NumbersAreStable` | driver/slash_chrdev.c:150-198 | for the module's life two successful gets return the same number iff they are for the same board |
| `Boards.OneGetAtATime` | driver/slash_chrdev.c:161-175 | between two successful gets of one function lies a put of it |
| `Boards.BusyIff` | driver/slash_chrdev.c:161-175 | a get is refused as busy iff its function was got before with no put since |
| `Boards.KnownBoardGets` | driver/slash_chrdev.c:161-175 | a function of a board got before gets that board's number unless it is held itself, so a second function succeeds beside the first and a put makes its function available again |
| `Boards.NewBoardGets` | driver/slash_chrdev.c:177-198 | a board without a number gets the next one iff one is left and memory is not short |
| `Boards.NoSpaceIff` | driver/slash_chrdev.c:177-180 | a get runs out of numbers iff sixteen other boards have one |
| `Boards.BoardList.BoardGet` | driver/slash_chrdev.c:150-198 | the list walk computes the table transition, with its error codes |
| `Boards.BoardList.BoardPut` | driver/slash_chrdev.c:200-222 | the list walk computes the table transition; an unknown board changes nothing |
| `Boards.MinorsCorrespond` | driver/slash_config.h:78-86 | the 33 minors and the hotplug, control and QDMA devices of 16 cards correspond one to one, in range, under encoding and decoding |
| `Boards.MinorsAreOrdered` | driver/slash_config.h:78-86 | hotplug comes first and each card's control and QDMA minors follow one another |
| `Fallback.CopyPiece` | driver/libslash/src/qdma.c:185-212 | one read and write moves a prefix of the chunk and goes on only if all that was read was written |
| `Fallback.GrowForRead` | driver/libslash/src/qdma.c:164-178 | a read of the card finds its whole range in the device file, which only ever grows, when the file calls are answered |
| `Fallback.FallbackSubxfer` | driver/libslash/src/qdma.c:151-217 | for any pattern of short reads and failures between distinct files, every exit leaves a prefix of the slice moved and nothing else changed, and success moves exactly `length` bytes; it succeeds when the file calls are answered in full and the ranges lie inside the files; files not named are kept in every case |
| `Fallback.NothingElseChanges` | driver/libslash/src/qdma.c:169-178 | no file shrinks and every existing byte outside the slice written is unchanged, on success and on failure |
| `Fallback.OtherFilesKept` | driver/libslash/src/qdma.c:151-217 | files other than the two of the transfer are untouched |
| `Fallback.SourceKept` | driver/libslash/src/qdma.c:192-198 | a host-to-card transfer leaves the host buffer alone, on success and on failure |
| `Fallback.SliceArrives` | driver/libslash/src/qdma.c:184-216 | the destination range holds the source slice |
| `Fallback.HostToCardAndBack` | driver/libslash/src/qdma.c:516-562 | a transfer to a device address and one back from it through the same descriptor return the original bytes, whatever queue pair indexes they name |
| `Fallback.TransferBatch` | driver/libslash/src/qdma.c:516-562 | bad counts, descriptors and directions are refused with nothing changed; success returns the sum of the lengths and has run every sub-transfer in order, and comes about when the file calls are answered in full and every range lies inside its file |
| `MockQdma.Mock.QpairAdd` | driver/libslash/src/qdma_mock.c:125-161 | takes the lowest free slot with an empty file of its own; refuses for want of slots iff all 64 are in use |
| `MockQdma.Mock.QpairOp` | driver/libslash/src/qdma_mock.c:163-197 | starts or stops exactly the named slot if it is in use |
| `MockQdma.Mock.QpairDel` | driver/libslash/src/qdma_mock.c:199-228 | frees exactly the named slot and its descriptor; no file loses contents |
| `MockQdma.Mock.GetFdMulti` | driver/libslash/src/qdma_mock.c:262-300 | a new descriptor of the first queue pair's file, only if all named pairs are started, and always then if the file calls are answered |
| `MockQdma.Mock.BounceThroughCard` | driver/libslash/src/qdma_mock.c:284-299 | writing to the card and reading back through a multi-pair descriptor returns the original bytes for any started pairs and any indexes |
| `Ustar.PassConsumesBlocks` | vrt/src/vrtbin.cpp:335-424 | whichever entry type it meets, a pass that does not throw consumes 512 bytes plus the payload rounded up to 512 |
| `Ustar.HeadersAreAligned` | vrt/src/vrtbin.cpp:335-424 | on every byte string extraction reads finitely many headers, each at a block boundary |
| `Ustar.ChangedHeaderIsRejected` | vrt/src/vrtbin.cpp:347-349 | any one byte of a valid header changed outside the checksum field makes extraction fail at that header |
| `Ustar.OtherTypesMakeNothing` | vrt/src/vrtbin.cpp:379-417 | an entry that is no file, directory or long name makes nothing |
| `UstarReader.ParseOctal` | vrt/src/vrtbin.cpp:83-101 | the loop computes the octal value, blanks before it skipped |
| `UstarReader.ReadField` | vrt/src/vrtbin.cpp:103-109 | the field up to its first NUL |
| `UstarReader.HasOnlyZeros` | vrt/src/vrtbin.cpp:68-70 | true iff every byte is zero |
| `UstarReader.HasValidChecksum` | vrt/src/vrtbin.cpp:182-196 | true iff the stored value is the byte sum with the checksum field counted as spaces |
| `UstarReader.Extractor.StreamSkip` | vrt/src/vrtbin.cpp:111-122 | the chunked skip moves the cursor by exactly the size, or reports that the archive is too short |
| `UstarReader.Extractor.StreamCopy` | vrt/src/vrtbin.cpp:124-139 | the chunked copy yields exactly the next bytes, or the first short read or failed write in chunk order |
| `UstarReader.Extractor.Turn` | vrt/src/vrtbin.cpp:336-424 | one turn of the loop does what the pass function says, with the cursor, the pending name, the entries made and every read, write and permission error |
| `UstarReader.Extractor.Run` | vrt/src/vrtbin.cpp:333-432 | on every byte string the loop ends, having made exactly the entries of the extraction function and with its error |
| `UstarWriter.OctalRoundTrip` | vrt/src/vrtbin.cpp:83-101 | any blank-led run of printed digits that ends at a non-digit or the field's end reads as the number printed |
| `UstarWriter.UpToNulReads` | vrt/src/vrtbin.cpp:103-109 | a NUL-padded or full-width name reads as itself |
| `UstarWriter.PrintedChecksum` | vrt/src/vrtbin.cpp:182-196 | the checksum printed over a block with spaces in its place is found valid |
| `UstarWriter.PrintedReads` | vrt/src/vrtbin.cpp:47-66 | name, prefix, mode, size and type of a printed header are read back, whatever the ignored fields hold |
| `UstarWriter.ItemRead` | vrt/src/vrtbin.cpp:352-424 | an item with a short, split or long name is read as one entry of that name, and reading goes on right behind it, unless the name is rejected or the file system fails |
| `UstarWriter.RoundTrip` | vrt/src/vrtbin.cpp:333-432 | for any list of files and directories, any payloads and any trailer, reading the archive back yields exactly the names in order, with the mode and payload of each file, up to the first rejected name or file system failure |
| `UstarWriter.CutEntryFails` | vrt/src/vrtbin.cpp:336-345 | an archive that ends inside the header, payload or padding of an entry is never read as complete |
| `UstarWriter.ExpectedPlain` | vrt/src/vrtbin.cpp:333-432 | where every name is kept as it is, the result is the list of items itself |
| `KernelArgs.WordCountIsExact` | vrt/include/vrt/kernel.hpp:141-144 | an argument's words cover its width, and no more than needed, iff rounding the width up does not wrap 32 bits |
| `KernelArgs.WideArgumentGetsOneWord` | vrt/include/vrt/kernel.hpp:141-144 | a width just past the bound gets one word |
| `KernelArgs.WordsRebuildValue` | vrt/include/vrt/kernel.hpp:146-150 | the first two words make up the 64-bit value and all others are zero |
| `KernelArgs.ArgumentArrives` | vrt/src/kernel.cpp:276-282 | once an argument is staged each of its words is in its own register, whatever was staged before |
| `KernelArgs.AllArgumentsArrive` | vrt/src/kernel.cpp:313-322 | when writable arguments have disjoint registers, every word of every argument is in its own register at launch |
| `KernelArgs.ResolvesIsExactIff` | vrt/src/kernel.cpp:53-66 | the range check accepts exactly the accesses inside the BAR iff its sum does not wrap 64 bits |
| `KernelArgs.SameWord` | vrt/src/kernel.cpp:53-66 | the base resolution reaches a register's own BAR word iff the address does not wrap or the BAR length divides 2^64 |
| `KernelArgs.WrappedRegisterDiffers` | vrt/src/kernel.cpp:53-66 | a kernel at the end of the address space for which the two resolutions differ |
| `KernelArgs.PokedIsStaged` | vrt/src/kernel.cpp:276-332 | writing registers one at a time leaves in each BAR word the value the register map holds for it |
| `KernelArgs.BatchAgrees` | vrt/src/kernel.cpp:452-499 | the batch and the single writes leave the same value in every argument register, the batch clears only gaps up to the highest offset, and whenever the batch resolves so does every single write |
| `KernelArgs.StagedIsAligned` | vrt/src/kernel.cpp:276-282 | aligned argument offsets give aligned registers for every word, also across 32-bit wrap-around |
| `KernelArgs.Kernel.SetArgResolved` | vrt/src/kernel.cpp:266-274 | stages a value iff the index is known, and changes nothing otherwise |
| `KernelArgs.Kernel.MissingArgs` | vrt/src/kernel.cpp:187-208 | reports exactly the writable arguments without a value; none iff the launch is complete |
| `KernelArgs.Kernel.ApplySetArgsToRegisterMap` | vrt/src/kernel.cpp:313-322 | the map holds what the writes of all arguments in order leave, later ones winning |
| `KernelArgs.Kernel.Write` | vrt/src/kernel.cpp:95-106 | changes exactly the resolved BAR word, or nothing if the access is out of range |
| `KernelArgs.Kernel.ApplySetArgsByWord` | vrt/src/kernel.cpp:324-332 | succeeds iff every register resolves, and then the BAR is that of the write sequence |
| `KernelArgs.Kernel.FillBuffer` | vrt/src/kernel.cpp:460-475 | one word per register slot up to the highest; where offsets share a word the highest wins, and gaps are zero |
| `KernelArgs.Kernel.WriteBatch` | vrt/src/kernel.cpp:452-499 | succeeds iff the whole range resolves; writes the map, aligned or not, with cleared gaps and nothing else |
| `KernelArgs.AlignedBatch` | vrt/src/kernel.cpp:467-475 | aligned registers never share a word, so each keeps its own value |
| `KernelArgs.Kernel.StagedLaunch` | vrt/src/kernel.cpp:187-499 | after the completeness check, every argument register holds what the single writes would have put there, and with disjoint arguments every word of every argument is at the BAR word its own register resolves to |
| `Placement.GuardIsExact` | smi/src/validate.cpp:227-233 | the overflow guard passes iff the last start fits 64 bits |
| `Placement.LinearIsExact` | smi/src/validate.cpp:219-243 | the linear check accepts iff every buffer lies in the memory, in unbounded arithmetic |
| `Placement.PairedIsExact` | smi/src/validate.cpp:256-305 | the paired check accepts iff the region stride is page-aligned and every buffer lies in its channel's region and in the memory |
| `Placement.BufferIsPlaced` | smi/src/validate.cpp:375-398 | every buffer of an accepted option set has an address that does not wrap, is page-aligned and inside its memory |
| `Placement.DefaultHalves` | smi/src/validate.cpp:245-250 | in the default paired layout even positions lie in the lower and odd ones in the upper half of the memory |
| `Placement.PlacesAreSpaced` | smi/src/validate.cpp:375-398 | the first buffer is at the starting offset and neighbours of one channel are one offset apart |
| `Placement.AcceptedIff` | smi/src/validate.cpp:307-373 | exactly which option sets are accepted, every range condition in unbounded arithmetic |
| `Placement.PlacesAreApart` | smi/src/validate.cpp:307-373 | buffers at distinct positions never overlap, in either layout |
| `Placement.BuffersAreApart` | smi/src/validate.cpp:307-398 | any two buffers of an accepted run are disjoint, HBM and DDR included |
| `Placement.ThreadsAreFew` | smi/src/validate.cpp:307-373 | acceptance bounds the thread count by the memory size, so 32-bit indexes cannot wrap |
| `Phases.TwoPerThread` | smi/src/validate.cpp:1346-1355 | read and write buffers get the even and the odd positions, with in-range channel lookups and consecutive queue ids |
| `Phases.GroupIsSound` | smi/src/validate.cpp:1328-1333 | buffers with consecutive ids at evenly spaced positions never clash |
| `Phases.FourGroups` | smi/src/validate.cpp:1416-1441 | the four buffer groups of the parallel bidirectional phase share no queue id and no byte |
| `Phases.RunPhases` | smi/src/validate.cpp:1295-1444 | exactly the accepted option sets run, and in each phase all queue ids are distinct and below the provisioned count, each buffer uses the channel listed for its position, and all buffers are disjoint, aligned and inside the memory the phase is for |
| `PerfXor.ClosedFormIsXor` | examples/05_perf/05_perf.cpp:57-68 | the closed form is the XOR of 0 through n, for every n |
| `PerfXor.WritePass` | examples/05_perf/hls/perf.cpp:40-44 | word i holds i |
| `PerfXor.ReadPass` | examples/05_perf/hls/perf.cpp:46-51 | the accumulator is the XOR of all low lanes |
| `PerfXor.WriteThenRead` | examples/05_perf/05_perf.cpp:198-201 | after a write pass the read pass accumulates the host's expected value, for every length including zero |

## Left out

- libqdma, DMA mapping, cache maintenance, io_uring, anonymous inodes and the PCI core: only their contracts appear.
- Hotplug, PCI probe and module initialisation: thin sequences of kernel calls.
- Control-device ioctls, the BAR dma-buf export and the size-versioned copies of user structures: marshalling.
- Validation of a queue-pair add request before the table is touched: a list of range checks.
- `Fallback.TransferBatch`: models the path on which the transfer ioctl is not supported; a total of 2^63 bytes or more comes back negative, as in the code.
- `Fallback.FallbackSubxfer`: what a transfer within one file leaves in that file, which depends on where reads fall short, is not described.
- `MockQdma.Mock.QpairAdd`: any failure to create the file is reported as one error code.
- The mock's single-pair descriptor call, which is the multi-pair one with one id.
- gzip inflation and path normalisation in the tar reader: library behaviour, the latter behind a parameter.
- `UstarReader.Extractor.Run`: the partial file that a failed copy leaves behind is not among the entries made.
- `KernelArgs.Kernel.StagedLaunch`: says nothing where the range check's own sum wraps, which needs a BAR within four gigabytes of 2^64 bytes.
- Positional kernel calls, the emulation and simulation transports, and memory-bank checks of buffers.
- `Phases.RunPhases`: models the stock-driver test; the raw test through the card's own driver uses the same addresses with no queue ids.
- Pattern fill and verify, bandwidth timing and floating-point output of the validation tool.
- Netlink client, JTAG and flash programming, listings, command-line parsing, the linker and the graph examples.
