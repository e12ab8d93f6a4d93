# simeng core, modelled in Dafny

This project models, as sequential pure functions, the core of the simeng / yage engine crates:

- **The unbounded segment queue** (`concurrent_queue`). Indices are encoded as a sequence number shifted by one, with a mark bit. Blocks hold 31 slots, and each lap has 32 positions. The model covers `push`, `pop`, `len`, `is_empty`, `close`, `is_closed`, `Block::destroy` and the `Drop` teardown. Each operation runs over an abstract heap of blocks and is refined to a FIFO `seq<T>`.
- **The task runtime of `simeng_task`**, in three parts:
  - the packed `State` word, its flags and its atomic cell;
  - the raw-task operations `allocate`, `has_completed`, `schedule`, `wake`, `wake_by_ref`, `poll`, `clone_waker`, `drop_waker`, `drop_reference`, `drop_task` and `drop_future`;
  - the `Handle` and `Task` operations of `runnable.rs`, and the `Builder`.

  Every compare-and-swap is one atomic step. The user's future is an oracle that answers ready or pending. Calls to the scheduler are counted as an output.
- **The task layout arithmetic of `yage_task`**: `ConstLayout::{unionize, extend, padding_needed_for}`, `max`, `eval_task_layout` and `from_ptr`. Arithmetic is on unbounded integers, with `usize` wrap-around written out.
- **Other yage_task and yage_core pieces**:
  - the 16-bit `Tag` encoding and `Header::new_in_place` (`yage_task/src/header.rs`);
  - the `SmallVec` growth discipline (`small_vec`);
  - the component `Lifecycle` and `run_cycle` (`yage_core`).

Faults are explicit values of `Outcome.Res`:
- a panic is `AssertionFailed`, `CountOverflow`, `CountUnderflow`, `ArithmeticOverflow` or `InvalidOrdering`;
- touching freed or missing memory, or allocating zero bytes, is `Undefined`;
- a spin wait that nothing in a single thread can end is `Diverges`;
- a loop that is given a fuel bound reports `Diverges` when the bound runs out.

The crate text leaves several things open. The model reads them as follows:
- `State` holds two `u16` counts (`waker_reference_count`, `task_reference_count`) and a `u32` flag word. `lib.rs` and `runnable.rs` use these fields, and they fit the `AtomicU64`. Packing follows the `repr(C)` layout on a little-endian target.
- `TASK_ALIVE` is `HANDLE_HERE` (`1 << 6`) and `CANCELLED` is `1 << 4`.
- `increment_reference_count` and `decrement_reference_count` act on the task count. `decrement_waker_count` acts on the waker count. So `clone_waker` adds a task reference while `drop_waker` takes a waker reference away: a waker made by `clone_waker` and later dropped is paid for from the waker count. The builder's own test ends with such a drop, which underflows (`TaskBuilder.EndToEnd`).
- `AtomicU64::store` panics when given `Acquire` or `AcqRel`. The code stores with `AcqRel` in two places, and those panics are modelled.
- Flag masks are sets of bit positions.

Where the code and its evident intent differ, the rest of the model uses the corrected definition. The code as written is kept beside it, under "Findings".

## Model

| member | source | states |
|---|---|---|
| TaskState.FromU64 | simeng_task/src/state.rs:33-36 | every 64-bit word unpacks to some state that packs back to it |
| TaskState.PackRoundTrip | simeng_task/src/state.rs:5-36 | unpacking a packed state gives it back, so packing is injective |
| TaskState.IncrementReferenceCount | simeng_task/src/state.rs:39-43 | the task count rises by exactly one and nothing else changes; at 65535 it panics instead of wrapping |
| TaskState.DecrementReferenceCount | simeng_task/src/state.rs:46-50 | the task count falls by exactly one and nothing else changes; at zero it reports an underflow |
| TaskState.IncrementDecrementInverse | simeng_task/src/state.rs:39-50 | incrementing and then decrementing the task count gives the state back |
| TaskState.DecrementAssertionInverted | simeng_task/src/state.rs:46-50 | the as-written decrement panics in debug builds exactly where the intended one succeeds, and wraps where it reports an underflow |
| TaskState.DecrementWakerCount | simeng_task/src/lib.rs:584-586 | the waker count falls by one, and nothing else changes |
| TaskState.SetFlag | simeng_task/src/state.rs:53-56 | every bit of the mask ends up set, and the counts and the other bits are unchanged |
| TaskState.ClearFlag | simeng_task/src/state.rs:64-67 | every bit of the mask ends up clear, and the counts and the other bits are unchanged |
| TaskState.SetClearQuery | simeng_task/src/state.rs:53-67 | after a set the mask is reported set, and after a clear it is reported clear; queries on disjoint masks answer as before |
| TaskState.HasFlagSetMeansAny | simeng_task/src/state.rs:59-61 | a query on a union of masks is the disjunction of the queries, so a state with one flag of two already answers yes |
| TaskState.HasSingleFlag | simeng_task/src/state.rs:59-61 | a query on a single flag is a membership test |
| TaskState.NewAtomicState | simeng_task/src/state.rs:80-85 | a load from a new cell returns exactly the initial state |
| TaskState.Store | simeng_task/src/state.rs:121-123 | a later load returns exactly the stored state |
| TaskState.StoreOrdered | simeng_task/src/state.rs:121-123 | a store with `Relaxed`, `Release` or `SeqCst` is loaded back exactly; with `Acquire` or `AcqRel` it panics, as `AtomicU64::store` does |
| TaskState.CompareExchangeWeak | simeng_task/src/state.rs:104-115 | on success, the current value equals the expected one and the new value is stored; on failure, the cell is unchanged and the current value is returned; a spurious failure is possible only on a match |
| TaskState.With | simeng_task/src/state.rs:87-101 | run alone, stores exactly `f` of the loaded state and returns `f`'s result |
| TaskState.WithLosesInterleavedStore | simeng_task/src/state.rs:87-95 | whatever another thread stores between its load and its store, `with` leaves `f` of the old state, as if the other store never happened |
| TaskFlags.FlagValues | simeng_task/src/flags.rs:1-10 | the constants are `1 << 0` to `1 << 9`, with `CANCELLED` at bit 4 and `TASK_ALIVE` equal to `HANDLE_HERE` |
| TaskFlags.FlagsAreDistinctBits | simeng_task/src/flags.rs:1-10 | the constants are pairwise distinct single bits, all below 2^16 |
| TaskFlags.QueryFlag | simeng_task/src/flags.rs:12-36 | each of `is_completed`, `is_closed`, `is_scheduled`, `is_running`, `has_been_taken` and `has_valid_handle` tests one single-bit flag constant, and is true of a state exactly when that bit is set |
| TaskFlags.OtherQueriesUnchanged | simeng_task/src/flags.rs:1-36 | setting or clearing one flag leaves every other predicate's answer unchanged |
| TaskRuntime.Allocate | simeng_task/src/lib.rs:153-200 | a fresh task has waker count 1, task count 1, flags `SCHEDULED` and `TASK_ALIVE`, and holds the future |
| TaskRuntime.HasCompletedMeansAny | simeng_task/src/lib.rs:231-237 | `has_completed` holds iff one of `COMPLETED`, `CLOSED` or `CANCELLED` is set |
| TaskRuntime.DropFuture | simeng_task/src/lib.rs:648-656 | succeeds iff the task is live and holds its future, which is then gone with nothing else changed |
| TaskRuntime.DropOutput | simeng_task/src/lib.rs:464-467 | succeeds iff the task is live and holds an output, which is then gone |
| TaskRuntime.DropTask | simeng_task/src/lib.rs:630-646 | succeeds iff the allocation is live, and then only frees it |
| TaskRuntime.CloneWaker | simeng_task/src/lib.rs:602-612 | the task count rises by one and the flags are unchanged; at 65535 it overflows |
| TaskRuntime.DropReference | simeng_task/src/lib.rs:614-628 | the task count falls by one; the allocation is freed iff no task reference is left and no handle is alive |
| TaskRuntime.CloneThenDropReference | simeng_task/src/lib.rs:602-628 | dropping a reference undoes a clone while other references remain |
| TaskRuntime.Schedule | simeng_task/src/lib.rs:239-254 | the scheduler receives the task and the payload is kept; no flag is cleared, and at most `SCHEDULED` and `CLOSED` are added; with a zero-sized scheduler nothing else changes; with one that occupies memory, the temporary waker moves one unit from the waker count to the task count, this fails iff the waker count is zero, and a full task count overflows |
| TaskRuntime.DropWaker | simeng_task/src/lib.rs:580-600 | the waker count falls by one, and zero underflows; the task count is unchanged; the task is freed iff it is the last task reference with no handle and completed or closed; iff it is the last reference with no handle and neither completed nor closed, it is left `SCHEDULED \| CLOSED` and scheduled once more |
| TaskRuntime.DropWakerWithStore | simeng_task/src/lib.rs:580-600 | `drop_waker` as written, with the first store's ordering as a parameter: it needs a live task with a waker, keeps the handoff count unless the task count is 1, and panics at the first store whenever that ordering is `Acquire` or `AcqRel` |
| TaskRuntime.ScheduleWithStore | simeng_task/src/lib.rs:239-254 | `schedule` as written, over `drop_waker` as written: a success needs a live task, and a waker when the scheduler occupies memory, and hands the task over once when its count is positive; with such a scheduler, dropping the temporary waker panics at an `Acquire` or `AcqRel` first store |
| TaskRuntime.DropWakerStorePanics | simeng_task/src/lib.rs:580-586 | as written, every `drop_waker` of a live task with a waker panics at its `AcqRel` store, and so do every `schedule` and every `wake` with a scheduler that occupies memory, and the zero-sized `wake` of a task that is not running; the corrected `drop_waker` completes unless it must reschedule, and the corrected `schedule` completes for a positive count below 65535 |
| TaskRuntime.DropWakerFreesThenWrites | simeng_task/src/lib.rs:580-600 | as written, the first store panics (line 586); with that store given an ordering it accepts, the last waker of a task that must be freed leaves the version undefined, writing into the freed allocation, while the corrected one frees it; where the waker neither frees nor reschedules, the two agree |
| TaskRuntime.DropWakerLosesCloseFlag | simeng_task/src/lib.rs:584-598 | as written, the first store panics (line 586); with that store repaired, the nested `SCHEDULED \| CLOSED` store is overwritten by the outer `with`, so the rescheduled task keeps its old flags and is not closed; the corrected version hands it over once just the same and leaves it closed and scheduled |
| TaskRuntime.WakeByRef | simeng_task/src/lib.rs:309-365 | a completed, closed, cancelled or scheduled task is unchanged and not scheduled; otherwise `SCHEDULED` is set, and a task that is not running gains a reference and is scheduled exactly once; a count above `0x7FFF` aborts |
| TaskRuntime.WakeByRefCoalesces | simeng_task/src/lib.rs:315-330 | a second `wake_by_ref` straight after a successful one changes nothing and schedules nothing |
| TaskRuntime.Wake | simeng_task/src/lib.rs:256-263 | a successful `wake` had a successful `wake_by_ref` and consumed one waker; a task that had not completed and was not scheduled ends `SCHEDULED`, with one more task reference unless it was running; an idle task is handed to the scheduler at least once |
| TaskRuntime.ZeroSizedWakeLosesWakeUp | simeng_task/src/lib.rs:265-306 | as written, the zero-sized `wake` of an idle task panics in `drop_waker`'s first store; with that store repaired, it marks the task scheduled but never schedules it, and a later `wake_by_ref` does nothing; the corrected `wake` schedules it once |
| TaskRuntime.ZeroSizedWakeSchedulesRunningTask | simeng_task/src/lib.rs:294-299 | the as-written zero-sized `wake` of a running task hands a second runnable to the scheduler, which `wake_by_ref` does not |
| TaskRuntime.ReadyState | simeng_task/src/lib.rs:436-476 | the ready state is completed and neither running nor scheduled, and it is closed iff no handle is alive |
| TaskRuntime.PendingState | simeng_task/src/lib.rs:478-523 | the pending state is not running, and a closed task is also not scheduled |
| TaskRuntime.PollBegin | simeng_task/src/lib.rs:375-413 | a closed task has its future dropped; then a store with the `AcqRel` of the code as written panics, and one with an ordering it accepts clears `SCHEDULED`, drops a reference and completes without a poll; an open task has `SCHEDULED` exchanged for `RUNNING` |
| TaskRuntime.PollFinish | simeng_task/src/lib.rs:434-523 | on ready: `Complete`, the ready state with a reference fewer, and the output kept iff a handle is alive and the task is not closed; on pending: a closed task is completed with its future dropped, a woken one is rescheduled, and otherwise the pending state has a reference fewer |
| TaskRuntime.Poll | simeng_task/src/lib.rs:375-523 | a successful poll found the task live; a closed task completes with its future dropped, without a poll |
| TaskRuntime.ClosedPollStorePanics | simeng_task/src/lib.rs:383-396 | as written, polling a closed task that still holds its future panics at the `AcqRel` store after dropping the future; the corrected `poll` completes with the future dropped |
| TaskRuntime.PollDiscardsExchangedState | simeng_task/src/lib.rs:399-413 | the first exchange always succeeds, yet the local copy is not the stored state |
| TaskRuntime.ReadyLoopSpins | simeng_task/src/lib.rs:436-476 | while the handle lives and the task is not closed, the ready loop never leaves |
| TaskRuntime.ReadyPollNeverReturns | simeng_task/src/lib.rs:436-476 | a ready future with a live handle makes the as-written `poll` diverge for every fuel, while the intended one completes and keeps the output |
| TaskRuntime.PendingLoopNeverReturns | simeng_task/src/lib.rs:505-509 | once the task is closed, the as-written pending loop never returns a result |
| TaskRuntime.QuietPoll | simeng_task/src/lib.rs:375-523 | a quiet poll drops one reference and schedules nothing; ready completes the task, closed iff no handle is alive, with the output kept iff a handle is alive; pending leaves it neither scheduled nor running |
| TaskRuntime.SelfWakeReschedules | simeng_task/src/lib.rs:478-503 | a future that wakes itself and returns pending is left scheduled and handed to the scheduler again |
| TaskHandle.TakeOutput | simeng_task/src/lib.rs:367-373 | reading the output needs it to be present, and moves it out |
| TaskHandle.PollTask | simeng_task/src/runnable.rs:181-238 | taken gives `Ready(None)`; closed gives `Pending` while scheduled or running and `Ready(None)` after; unfinished gives `Pending` with the state unchanged; completed gives the output and sets `CLOSED` |
| TaskHandle.HandlePollFuture | simeng_task/src/runnable.rs:240-250 | pending passes through, the output is returned, and a missing output panics |
| TaskHandle.OutputDeliveredOnce | simeng_task/src/runnable.rs:209-249 | after the handle has taken the output, the next poll panics |
| TaskHandle.SetCanceled | simeng_task/src/runnable.rs:136-173 | does nothing on a completed or closed task; a running or scheduled one only gains `CLOSED`; an idle one gains `CLOSED \| SCHEDULED` and a reference and is handed to the scheduler once, and with a scheduler that occupies memory the schedule's temporary waker also moves one unit from the waker count to the task count; the idle case fails iff a count would overflow or, with such a scheduler, no waker is left |
| TaskHandle.CancelIdleSchedulesOnce | simeng_task/src/runnable.rs:148-168 | whatever the scheduler, cancelling an idle task schedules it exactly once and leaves it closed and scheduled, neither running nor completed |
| TaskHandle.SetDetached | simeng_task/src/runnable.rs:58-134 | with a fast path that cannot fail spuriously, exactly the untouched initial state goes to `SCHEDULED` alone with the same counts, open and without a handle; it agrees with the as-written version whenever the weak exchange does not fail spuriously |
| TaskHandle.DetachLoopArms | simeng_task/src/runnable.rs:82-130 | from any state: a completed, unclosed task is closed, its output taken and the task marked as in the next arm; the last reference or a closed task gains `SCHEDULED \| CLOSED` and a reference, and is freed if its count was zero; otherwise `TASK_ALIVE` is cleared with nothing else changed, and a task whose count was zero is handed to the scheduler; each arm fails exactly on a missing output or a full count |
| TaskHandle.DetachLoopTerminates | simeng_task/src/runnable.rs:82-130 | run by one thread, the retry loop ends within three turns whatever the state, and any larger fuel gives the same outcome |
| TaskHandle.SpuriousDetachCloses | simeng_task/src/runnable.rs:76-107 | a spurious failure of the fast path on a fresh task closes it and adds a reference through the last-reference arm, where the fast path leaves it open |
| TaskHandle.Detach | simeng_task/src/runnable.rs:175-179 | a fresh task loses its handle and stays open; afterwards any task that is not freed is closed or records no live handle |
| TaskHandle.DropHandle | simeng_task/src/runnable.rs:252-257 | dropping a handle cancels and then detaches |
| TaskHandle.DropCancelsDetachDoesNot | simeng_task/src/runnable.rs:175-179 | for an idle, open task with a live handle and either scheduler, dropping the handle leaves it closed and hands it over once more; detaching hands nothing over and closes it iff it held the last task reference |
| TaskHandle.Run | simeng_task/src/runnable.rs:15-21 | a closed task only has its future dropped and completes; otherwise the run completes iff the future is ready, a ready task is left completed with its output kept iff a handle is alive, a pending one neither running nor scheduled, and in both cases one task reference is dropped and the scheduler is not called |
| TaskHandle.ScheduleTask | simeng_task/src/runnable.rs:32-38 | the scheduler receives the task and the payload is kept; a zero-sized scheduler changes nothing else; one that occupies memory moves one unit from the waker count to the task count, and fails iff no waker is left |
| TaskHandle.NewWaker | simeng_task/src/runnable.rs:23-30 | succeeds iff the task is live and its count is below 65535, and then adds exactly one task reference |
| TaskHandle.CancelDuringPendingPoll | simeng_task/src/lib.rs:478-523 | a cancel during a pending poll makes the as-written `poll` drop references until it faults or runs out of fuel; the intended one drops the future and completes |
| TaskBuilder.WithMetadata | simeng_task/src/builder.rs:17-20 | the resulting builder carries exactly the given metadata |
| TaskBuilder.Spawn | simeng_task/src/builder.rs:23-52 | a future of 2048 bytes or more is boxed and a smaller one is inline; the task starts in the initial state, and the `Task` and the `Handle` refer to the same allocation |
| TaskBuilder.EndToEnd | simeng_task/src/builder.rs:69-87 | the test's `schedule` as written panics in `drop_waker`'s first store; with the corrected runtime, scheduling the spawned `1 + 2` once hands it over exactly once, the as-written `poll` of the ready future diverges for every fuel, the corrected `run` returns `Complete`, polling the handle gives 3, and the final waker drop underflows the waker count |
| QueueIndex.IndexRoundTrip | concurrent_queue/src/unbounded.rs:12-15 | an index is determined by its sequence number and mark, and the sequence number is `lap * 32 + offset` with an offset below 32 |
| QueueIndex.Advance | concurrent_queue/src/unbounded.rs:172-188 | adding `1 << SHIFT` raises the sequence number by one and keeps the mark |
| QueueIndex.Mark | concurrent_queue/src/unbounded.rs:336-339 | marking sets the mark and keeps the sequence number |
| QueueIndex.Unmark | concurrent_queue/src/unbounded.rs:304-305 | erasing the low bits clears the mark and keeps the sequence number |
| QueueIndex.MarkUnmark | concurrent_queue/src/unbounded.rs:14-15 | marking and unmarking change only the mark, and each undoes the other |
| QueueIndex.CountByLaps | concurrent_queue/src/unbounded.rs:12-13 | the number of value positions in a range is its width less one per lap boundary crossed |
| QueueIndex.LenCountsValues | concurrent_queue/src/unbounded.rs:295-328 | however the marks are set, `len` equals the number of value positions from the head to the tail |
| QueueIndex.EmptyIffLenZero | concurrent_queue/src/unbounded.rs:295-334 | with the head not at a lap's last position, `is_empty` holds iff `len` is zero |
| SegmentQueue.Push | concurrent_queue/src/unbounded.rs:115-204 | a closed tail returns the value and changes nothing; a push advances the tail by 1, or by 2 from offset 30, and leaves the head alone |
| SegmentQueue.DestroyFrom | concurrent_queue/src/unbounded.rs:62-75 | indices and values are unchanged; if every scanned slot was read the block is freed, and otherwise nothing is freed |
| SegmentQueue.PopWith | concurrent_queue/src/unbounded.rs:206-293 | equal sequence numbers give `Empty`, or `Closed` when the tail is marked, and change nothing; a successful pop keeps the tail |
| SegmentQueue.Close | concurrent_queue/src/unbounded.rs:336-339 | the tail becomes marked with the same sequence number; the result is true iff it was not marked; nothing else changes |
| SegmentQueue.NextBlock | concurrent_queue/src/unbounded.rs:52-60 | moving to the next block needs a successor, else it waits forever; the head advances one past the old block's last position and is marked iff that block already has a successor |
| SegmentQueue.SlotAtSetSlot | concurrent_queue/src/unbounded.rs:186-196 | a slot write changes only the slot written |
| QueueRefinement.NewIsEmpty | concurrent_queue/src/unbounded.rs:102-113 | a new queue is valid, open, holds no values and has length zero |
| QueueRefinement.PushAppends | concurrent_queue/src/unbounded.rs:115-204 | on a valid open queue, `push` appends the value and keeps the queue valid and open; a closed queue returns the value unchanged |
| QueueRefinement.PopRemovesFront | concurrent_queue/src/unbounded.rs:206-293 | on a valid queue, `pop` answers `Empty` or `Closed` when there are no values, and otherwise returns the front value and keeps the rest in order |
| QueueRefinement.EmptyIffSameSeq | concurrent_queue/src/unbounded.rs:229-236 | a valid queue holds no values iff its head and tail sequence numbers agree |
| QueueRefinement.LengthIsSize | concurrent_queue/src/unbounded.rs:295-334 | on a valid queue, `len` is the number of values held, and `is_empty` holds iff there are none |
| QueueRefinement.CloseKeepsContents | concurrent_queue/src/unbounded.rs:336-343 | `close` keeps the contents and length, makes `is_closed` true, and a second `close` reports false |
| QueueRefinement.DestroyFromMarksFirstUnread | concurrent_queue/src/unbounded.rs:62-75 | the scan stops at the first unread slot and marks it for its reader |
| QueueRefinement.PopAsWrittenLeaksBlock | concurrent_queue/src/unbounded.rs:62-75 | as written, popping a block's last value leaves the block allocated with no index reaching it, and is otherwise the corrected pop |
| QueueRefinement.LastSlotQueueIsValid | concurrent_queue/src/unbounded.rs:115-293 | the queue after 31 pushes and 30 pops is valid and holds one value |
| QueueRefinement.LeakExample | concurrent_queue/src/unbounded.rs:277-283 | on that queue, the as-written pop returns the value but keeps block 0 allocated, while the corrected pop frees it |
| QueueRefinement.LeakOnLastSlot | concurrent_queue/src/unbounded.rs:62-75 | on any valid two-block queue whose head is at block 0's last slot, the as-written pop leaks block 0 |
| QueueDrop.Teardown | concurrent_queue/src/unbounded.rs:346-392 | dropping a valid queue drops exactly its values, in order, and frees every block |
| QueueDrop.ValidIsWalkable | concurrent_queue/src/unbounded.rs:346-392 | a valid queue satisfies the walk's invariant, and nothing is allocated outside its chain |
| Layout.Max | yage_task/src/lib.rs:22-24 | the result is one of the arguments and at least both of them |
| Layout.Log2 | yage_task/src/layout.rs:52-53 | a power of two is 2 to the power of its `Log2` |
| Layout.PaddingAligns | yage_task/src/layout.rs:64-68 | for a power-of-two alignment, the padding is below the alignment and makes the size a multiple of it |
| Layout.PaddingRoundsUp | yage_task/src/layout.rs:64-68 | the padded size is the least multiple of the alignment at or above the size |
| Layout.Unionize | yage_task/src/layout.rs:28-35 | the result's size and alignment are the maxima of the inputs', so both inputs fit |
| Layout.Extend | yage_task/src/layout.rs:49-62 | on success, the alignment is the larger one, and the size is the offset plus the other size and within `isize::MAX` |
| Layout.ExtendPlacesAfter | yage_task/src/layout.rs:49-62 | `extend` succeeds iff the larger alignment is a power of two and the rounded size fits; the offset is the rounded-up size, at or after the first field and aligned |
| Layout.RoundUpIsLeast | yage_task/src/layout.rs:49-53 | the round-up is a multiple of the alignment, at or above the size, and less than one alignment above it |
| Layout.MaskRoundsDown | yage_task/src/layout.rs:64-68 | masking with `!(align - 1)` rounds a `usize` down to a multiple of a power-of-two alignment |
| Layout.PowerOfTwoDivides | yage_task/src/layout.rs:49-62 | a smaller power of two divides a larger one and its multiples |
| TaskLayout.EvalTaskLayout | yage_task/src/lib.rs:106-126 | the future and the result share one offset |
| TaskLayout.EvalTaskLayoutPlaces | yage_task/src/lib.rs:106-126 | whenever a layout is computed, the scheduler starts after the header, and the union after the scheduler and ending with the allocation; each part is aligned, and the allocation has the largest alignment |
| TaskLayout.EvalTaskLayoutSucceeds | yage_task/src/lib.rs:106-126 | with power-of-two alignments and sizes well inside `isize::MAX`, the layout is computed |
| TaskLayout.FromPtrPlaces | yage_task/src/lib.rs:180-191 | over any computed layout, the header is at the base, the scheduler after it, and the future and the result at one address after the scheduler, ending at the allocation's end |
| HeaderTag.IntoU16 | yage_task/src/header.rs:58-84 | the encoding agrees with the value modulo 2^16, and modulo 2^8 for the byte types; `u8` stays below 256, and the unit tag is 0 |
| HeaderTag.FromU16 | yage_task/src/header.rs:58-84 | the decoded tag has the requested type and agrees with the word modulo that type's width |
| HeaderTag.TagRoundTrip | yage_task/src/header.rs:58-84 | decoding an encoded tag as its own type gives it back, for all five types |
| HeaderTag.WordRoundTrip | yage_task/src/header.rs:58-84 | re-encoding a decoded word gives it back iff the type can hold it |
| HeaderTag.NewInPlace | yage_task/src/header.rs:25-45 | a new header has count 1, flags `SCHEDULED` and `HANDLE_HERE`, no awaiter, the given vtable and metadata, and a tag that decodes back |
| SmallVec.New | small_vec/src/lib.rs:35-41 | a new vector is valid, with length 0, capacity 0 and an empty slice |
| SmallVec.WithCapacityAsWritten | small_vec/src/lib.rs:43-62 | a capacity above `u32::MAX - 1` panics; a success is an empty valid vector with the capacity asked for and a non-zero byte size |
| SmallVec.WithCapacity | small_vec/src/lib.rs:43-62 | capacity 0 gives `new()`; otherwise it agrees with the code as written |
| SmallVec.WithCapacityZero | small_vec/src/lib.rs:43-55 | as written, capacity 0 is undefined for every element type; corrected, it is `new()` |
| SmallVec.Reallocate | small_vec/src/lib.rs:64-91 | succeeds iff the byte size is positive, at most `u32::MAX` and a valid array layout, keeping the elements; it is undefined exactly for a valid zero-byte layout |
| SmallVec.Grow | small_vec/src/lib.rs:64-91 | the capacity goes from 0 to 1 and otherwise doubles, the elements stay, and the byte size fits in a `u32`; too large a size panics |
| SmallVec.GrowAsWritten | small_vec/src/lib.rs:64-91 | a successful grow keeps the elements; `PushOverflow` shows the `u32` doubling panicking or wrapping |
| SmallVec.Write | small_vec/src/lib.rs:98-102 | writing succeeds iff there is room, and appends the element to a valid vector |
| SmallVec.Push | small_vec/src/lib.rs:93-103 | grows iff full, appends the element after the unchanged earlier ones, and keeps `len <= cap`; only the growth can fail |
| SmallVec.PushAgrees | small_vec/src/lib.rs:64-103 | while the doubled capacity fits in a `u32`, the as-written and corrected `push` agree |
| SmallVec.PushOverflow | small_vec/src/lib.rs:64-91 | for a full vector of 2^31 or more one-byte elements, the corrected push fails the size assertion, and the as-written push overflows with overflow checks and is undefined without them |
| SmallVec.PushAllKeepsDoubling | small_vec/src/lib.rs:93-103 | pushes onto a vector that keeps the doubling discipline append exactly the pushed elements and keep the discipline |
| SmallVec.PushAllFromNew | small_vec/src/lib.rs:35-103 | pushes onto a new vector allocate the least power of two that holds them all |
| SmallVec.PushOneTwo | small_vec/src/lib.rs:164-172 | pushing 1 and then 2 onto a new vector gives the slice `[1, 2]` in two slots |
| SmallVec.Drop | small_vec/src/lib.rs:142-157 | a valid vector drops exactly its elements, in order, and frees iff its capacity is non-zero |
| ComponentLifecycle.InitHandle | yage_core/src/component/component_handle.rs:39-51 | a new handle holds the component, in the first phase |
| ComponentLifecycle.RunCycle | yage_core/src/component/component_handle.rs:53-115 | it panics iff derendering fails; the phase never moves back and moves forward at most one step, waking once iff it moves and returning pending; an operation is called iff the phase is its own |
| ComponentLifecycle.StayingPassesThrough | yage_core/src/component/component_handle.rs:86-114 | a cycle that stays in its phase returns what that phase's operation returned, and `Dropping` returns success |
| ComponentLifecycle.CyclesMoveForward | yage_core/src/component/component_handle.rs:16-24 | no run of cycles returns to an earlier phase |
| ComponentLifecycle.DrawingIsFinal | yage_core/src/component/component_handle.rs:80-90 | from `Init` or `Drawing`, cycles never panic and end in `Drawing` |
| ComponentLifecycle.InitReaches | yage_core/src/component/component_handle.rs:39-115 | a handle made by `init` only ever reaches `Init` or `Drawing` |

## Left out

- Concurrency is not modelled. This covers:
  - memory orderings and fences;
  - interleavings other than the ones named in lemmas;
  - the spin waits `wait_write` and `wait_next`, which become `Diverges` or assume the wait has ended;
  - cache padding;
  - the retry arms of compare-and-swap loops that only another thread can trigger. A weak exchange that fails spuriously is modelled where it changes the outcome, on the fast path of `__set_detached`; elsewhere a spurious failure only repeats the loop with the same state.
- Raw pointers, `alloc` and `dealloc` are left out. Allocation always succeeds, so `handle_alloc_error` is not modelled. Block identities are their lap numbers.
- Queue indices and pointer additions are unbounded naturals, so `usize` wrap-around of the queue indices is not modelled.
- The `catch_unwind` capture of a panicking future, `abort`, `abort_on_panic` and `RunOnDrop` are process-level behaviour and are left out. An abort is the fault `Aborted`.
- The user's future, scheduler closure and component operations are oracles. The effects of `draw`, `update` and `derender` on the component are not modelled.
- Metadata values pass through unchanged and are never inspected.
- Layout computations take sizes and alignments as numbers, not Rust types. `from_size_align_unchecked`, `new_for`, `size()` and `align()` are therefore the `ConstLayout` constructor and its fields, and `Layout::array` is modelled by its size rule over `isize::MAX`.
- TaskBuilder.NewBuilder: `Builder::new` carries unit metadata, which holds no information, so it has no property of its own; `WithMetadata` states the replacement.
- `SmallVec.Len`, `SmallVec.Capacity` and `SmallVec.AsSlice` are field reads and carry no property of their own; `PushOneTwo` and `Push` state what they return.
- `TaskRuntime.ReadyLoop` and `TaskRuntime.PendingLoop` are step functions for the as-written loops; their behaviour is stated by `ReadyLoopSpins`, `ReadyPollNeverReturns` and `PendingLoopNeverReturns`.
- `SegmentQueue.Pop`, `SegmentQueue.PopAsWritten`, `SegmentQueue.Length` and `SegmentQueue.QueueIsEmpty` are stated through `PopRemovesFront`, `PopAsWrittenLeaksBlock` and `LengthIsSize`.
- yage_task's `flags.rs` and `state.rs` are not part of this model. Its header state is a count, a flag set and the tag.
- The yage_task raw-task stubs are left out: `wake_by_ref`, `drop_waker`, `drop_reference`, `destroy` and `run` are empty, `clone_waker` is `todo!()`, and the `wake` loop never exits.
- `SmallVec::into_boxed_slice`, `append_elements`, `as_mut_slice` and the `Deref` impls are not modelled.
- `borrow_mut` in `yage_util/src/atomic.rs` is `todo!()`. `run_cycle` is modelled as if it granted access to the component.
- The `ConcurrentQueue` and `ArcConcurrentQueue` wrappers delegate to the unbounded queue and are not modelled.
- TaskHandle.DetachLoop: the retry loop of `__set_detached` carries a fuel bound. For one thread, three turns always suffice and more fuel gives the same outcome (`DetachLoopTerminates`).
- TaskRuntime.PollAsWritten: the as-written final loop runs under a fuel bound, so "never returns" is stated as "for every fuel it does not return a result".
- Orderings are modelled only where a store is given one it cannot honour. The loads and the `with` exchanges carry theirs without effect on a single thread.
- The poll guard's `with(AcqRel, AcqRel)` (simeng_task/src/lib.rs:548) runs only while a panicking future unwinds, and unwinding is left out with `catch_unwind`.
- TaskHandle.SetCanceled, TaskHandle.DetachLoop and TaskHandle.ScheduleTask call the corrected `schedule`, so that their own behaviour can be stated. As written, each of those calls with a scheduler that occupies memory panics first at simeng_task/src/lib.rs:586 (`TaskRuntime.DropWakerStorePanics`). The as-written `schedule`, `drop_waker` and `wake` are `ScheduleWithStore`, `DropWakerWithStore` and `WakeWithStore`, and the as-written pending loop reschedules through them.
- QueueDrop.Teardown: a head past its tail would walk until the index wrapped around; this is reported as `Diverges` instead of modelling the wrap.

## Findings

| source | as written | input that shows it | evidently intended | confidence | as-written member | corrected member |
|---|---|---|---|---|---|---|
| concurrent_queue/src/unbounded.rs:62-75 | the `destroy` scan runs up to `BLOCK_CAP`, so it includes slot 30, whose reader is the one destroying and never marks it `READ` | a queue after 31 pushes and 30 pops, then one pop: block 0 stays allocated with no index reaching it | the scan stops before the last slot, so the reader of the last slot frees the block | not executed | QueueRefinement.LeakExample | QueueRefinement.PopRemovesFront |
| simeng_task/src/state.rs:46-50 | `debug_assert!(self.reference_count == 0)` before `-= 1` | any decrement of a positive count in a debug build | assert that the count is positive | not executed | TaskState.DecrementAssertionInverted | TaskState.DecrementReferenceCount |
| simeng_task/src/lib.rs:436-476 | the `Ready` loop leaves only if the handle is gone or the task is closed | a task whose future is ready while its `Handle` lives | leave after the successful exchange | not executed | TaskRuntime.ReadyPollNeverReturns | TaskRuntime.QuietPoll |
| simeng_task/src/lib.rs:505-509 | after a successful exchange of a closed state, the `Pending` loop drops a reference and continues | a handle cancelled while the future runs and then returns pending | drop the future and the reference, then return | not executed | TaskRuntime.PendingLoopNeverReturns | TaskHandle.CancelDuringPendingPoll |
| simeng_task/src/lib.rs:294-299 | the zero-sized `wake` schedules when `RUNNING` was set; as written the idle case first panics at line 586, and the lost wake-up shows once that store is repaired | `wake` of an idle live task with a zero-sized scheduler | schedule when the task was not running, as `wake_by_ref` does | not executed | TaskRuntime.ZeroSizedWakeLosesWakeUp | TaskRuntime.WakeByRef |
| simeng_task/src/lib.rs:580-600 | `drop_waker` frees the allocation inside the `with` closure, after which `with` stores into it; reachable only once the ordering at line 586 is repaired | dropping the last waker of a completed task whose handle is gone and whose task count is 1 | free after the state has been stored | not executed | TaskRuntime.DropWakerFreesThenWrites | TaskRuntime.DropWaker |
| simeng_task/src/lib.rs:587-597 | the `SCHEDULED \| CLOSED` marking is a nested store inside the `with` closure, which `with` then overwrites with the decremented state; reachable only once the ordering at line 586 is repaired | dropping the last waker of an unfinished task whose handle is gone and whose task count is 1 | keep the marking in the closure's state, so the final run drops the future | not executed | TaskRuntime.DropWakerLosesCloseFlag | TaskRuntime.DropWaker |
| simeng_task/src/lib.rs:586 | `drop_waker` stores the decremented state with `Ordering::AcqRel`, which `AtomicU64::store` rejects with a panic | any `drop_waker` of a live task, including the temporary waker of `schedule` with a scheduler that occupies memory, as in the builder's own test | store with `Release`, or drop the store, since `with` stores the state anyway | not executed | TaskRuntime.DropWakerStorePanics | TaskRuntime.DropWaker |
| simeng_task/src/lib.rs:389 | `poll` of a closed task stores the state with `Ordering::AcqRel`, which `AtomicU64::store` rejects with a panic | polling a task whose handle cancelled it while it was scheduled | store with `Release` | not executed | TaskRuntime.ClosedPollStorePanics | TaskRuntime.Poll |
| simeng_task/src/runnable.rs:76-81 | the fast path of `__set_detached` is a weak exchange, and on any failure the loop runs with the current state | `detach` of a fresh task whose fast-path exchange fails spuriously | a fresh task is detached without being cancelled, for example with a strong exchange | not executed | TaskHandle.SpuriousDetachCloses | TaskHandle.SetDetached |
| small_vec/src/lib.rs:68 | `2 * self.cap` is computed in `u32` | a full vector with `cap = 2^31` of one-byte elements | double in `usize` and let the `u32::MAX` size assertion reject it | not executed | SmallVec.PushOverflow | SmallVec.Push |
| small_vec/src/lib.rs:43-55 | `with_capacity(0)` passes a zero-size layout to `alloc` | `SmallVec::<u8>::with_capacity(0)` | answer as `new()` does, without allocating | not executed | SmallVec.WithCapacityZero | SmallVec.WithCapacity |
