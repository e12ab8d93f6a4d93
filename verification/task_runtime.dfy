/**
  The task runtime of `simeng_task` (simeng_task/src/lib.rs), run single-threaded.

  A `RawTask` is the one allocation a spawned task lives in: its packed state, the slot that holds
  first the future and then its output, how many runnable `Task` values have been handed to the
  scheduler so far, and whether the allocation has been freed. Every compare-and-swap is one
  atomic step; with no other thread, a compare-and-swap against a freshly loaded value succeeds.
  Touching a freed allocation, dropping a value that is not there, or reading an output that was
  never written is `Undefined`.

  Where the source is evidently wrong the module keeps two versions: the corrected one, which the
  rest of the model uses, and one named `...AsWritten` that follows the text.
*/
module TaskRuntime {
  import opened Outcome
  import opened Bits
  import opened TaskState
  import opened TaskFlags

  /** What the future/result union of the allocation holds. */
  datatype Payload<T> = Future | Output(value: T) | Vacant

  /** One task allocation, with the count of runnables handed to the scheduler for it. */
  datatype RawTask<T> = RawTask(state: State, payload: Payload<T>, handedOff: nat, freed: bool)

  /** Whether the scheduler closure occupies memory (`size_of::<Sched>() > 0`). */
  datatype Scheduler = ZeroSized | Sized

  /** `RawPoll`. */
  datatype RawPoll = Pending | Complete

  /** What one call of the user future's `poll` gives: the future itself is an oracle. */
  datatype FutureStep<T> = Ready(value: T) | NotReady

  /** The task after a `poll` and what `poll` returned. */
  datatype Polled<T> = Polled(task: RawTask<T>, result: RawPoll)

  /** The initial state `allocate` writes. */
  const INITIAL_STATE: State := State(1, 1, SCHEDULED + TASK_ALIVE)

  /** `allocate`: one waker, one task reference, scheduled, with a live handle, holding the future. */
  function Allocate<T>(): (t: RawTask<T>)
    ensures t.state.wakerCount == 1 && t.state.taskCount == 1
    ensures IsScheduled(t.state) && HasValidHandle(t.state)
    ensures !IsRunning(t.state) && !IsCompleted(t.state) && !IsClosed(t.state) && !HasBeenTaken(t.state)
    ensures t.payload == Future && t.handedOff == 0 && !t.freed
  {
    var t := RawTask(INITIAL_STATE, Future, 0, false);
    HasSingleFlag(t.state, 0);
    HasSingleFlag(t.state, 6);
    HasSingleFlag(t.state, 1);
    HasSingleFlag(t.state, 2);
    HasSingleFlag(t.state, 3);
    HasSingleFlag(t.state, 5);
    t
  }

  /** Writing the atomic word of a task; writing into a freed allocation is undefined. */
  function StoreState<T>(t: RawTask<T>, s: State): (r: Res<RawTask<T>>)
    ensures r.Ok? <==> !t.freed
    ensures r.Ok? ==> r.value == t.(state := s)
  {
    if t.freed then Fail(Undefined) else Ok(t.(state := s))
  }

  /**
    Writing the atomic word with an explicit ordering (`AtomicState::store`): on a live task, an
    ordering a store cannot honour panics, and any other writes the state.
  */
  function StoreStateOrdered<T>(t: RawTask<T>, s: State, ordering: Ordering): (r: Res<RawTask<T>>)
    ensures r.Ok? <==> !t.freed && StoreAccepts(ordering)
    ensures !t.freed && !StoreAccepts(ordering) ==> r == Fail(InvalidOrdering)
    ensures r.Ok? ==> r.value == t.(state := s)
  {
    if t.freed then Fail(Undefined)
    else
      var stored :- StoreOrdered(NewAtomicState(t.state), s, ordering);
      Ok(t.(state := Load(stored)))
  }

  /** `has_completed`: any of `COMPLETED`, `CLOSED`, `CANCELLED`. */
  predicate HasCompleted(s: State) {
    HasFlagSet(s, COMPLETED + CLOSED + CANCELLED)
  }

  lemma HasCompletedMeansAny(s: State)
    ensures HasCompleted(s) <==> IsCompleted(s) || IsClosed(s) || 4 in s.flags
  {
    HasFlagSetMeansAny(s, COMPLETED + CLOSED, CANCELLED);
    HasFlagSetMeansAny(s, COMPLETED, CLOSED);
    HasSingleFlag(s, 2);
    HasSingleFlag(s, 3);
    HasSingleFlag(s, 4);
  }

  /** `drop_future`: the future must be there, and afterwards it is gone. */
  function DropFuture<T>(t: RawTask<T>): (r: Res<RawTask<T>>)
    ensures r.Ok? <==> !t.freed && t.payload == Future
    ensures r.Ok? ==> r.value == t.(payload := Vacant)
  {
    if t.freed || t.payload != Future then Fail(Undefined) else Ok(t.(payload := Vacant))
  }

  /** Dropping the stored output in place. */
  function DropOutput<T>(t: RawTask<T>): (r: Res<RawTask<T>>)
    ensures r.Ok? <==> !t.freed && t.payload.Output?
    ensures r.Ok? ==> r.value == t.(payload := Vacant)
  {
    if t.freed || !t.payload.Output? then Fail(Undefined) else Ok(t.(payload := Vacant))
  }

  /** `drop_task`: drop the header and the scheduler and free the allocation. */
  function DropTask<T>(t: RawTask<T>): (r: Res<RawTask<T>>)
    ensures r.Ok? <==> !t.freed
    ensures r.Ok? ==> r.value == t.(freed := true)
  {
    if t.freed then Fail(Undefined) else Ok(t.(freed := true))
  }

  /** `clone_waker`: one more task reference. */
  function CloneWaker<T>(t: RawTask<T>): (r: Res<RawTask<T>>)
    ensures r.Ok? <==> !t.freed && t.state.taskCount < 0xFFFF
    ensures !t.freed && !r.Ok? ==> r.fault == CountOverflow
    ensures r.Ok? ==> r.value == t.(state := t.state.(taskCount := t.state.taskCount + 1))
  {
    if t.freed then Fail(Undefined) else
    var s :- IncrementReferenceCount(t.state);
    Ok(t.(state := s))
  }

  /**
    `drop_reference`: one task reference fewer; the allocation is freed exactly when no task
    reference is left and no handle is alive.
  */
  function DropReference<T>(t: RawTask<T>): (r: Res<RawTask<T>>)
    ensures r.Ok? <==> !t.freed && t.state.taskCount > 0
    ensures !t.freed && !r.Ok? ==> r.fault == CountUnderflow
    ensures r.Ok? ==> r.value.state == t.state.(taskCount := t.state.taskCount - 1)
    ensures r.Ok? ==> (r.value.freed <==> t.state.taskCount == 1 && !HasValidHandle(t.state))
    ensures r.Ok? ==> r.value.payload == t.payload && r.value.handedOff == t.handedOff
  {
    if t.freed then Fail(Undefined) else
    var s :- DecrementReferenceCount(t.state);
    var t1 := t.(state := s);
    if s.taskCount == 0 && !HasValidHandle(s) then DropTask(t1) else Ok(t1)
  }

  /** `clone_waker` and `drop_reference` are inverse while the clone does not release the last reference. */
  lemma CloneThenDropReference<T>(t: RawTask<T>)
    requires CloneWaker(t).Ok?
    requires t.state.taskCount > 0 || HasValidHandle(t.state)
    ensures DropReference(CloneWaker(t).value) == Ok(t)
  {
  }

  /** The "reschedule" rank of a task: how many more nested schedules a call can still make. */
  function ScheduleRank<T>(t: RawTask<T>): nat {
    if t.state.taskCount == 0 then 4 else 2
  }

  function DropWakerRank<T>(t: RawTask<T>): nat {
    if t.state.taskCount == 1 then 3 else 1
  }

  /**
    `schedule`: hand one runnable `Task` to the scheduler. A scheduler that occupies memory is
    guarded by a temporary waker: `clone_waker` before the hand-off, that waker's drop after it.
    Because `clone_waker` raises the task count and `drop_waker` lowers the waker count, a guarded
    schedule moves one unit from the waker count to the task count.
  */
  function Schedule<T>(t: RawTask<T>, sched: Scheduler): (r: Res<RawTask<T>>)
    ensures r.Ok? ==> r.value.payload == t.payload
    ensures r.Ok? ==> t.state.flags <= r.value.state.flags && r.value.state.flags <= t.state.flags + SCHEDULED + CLOSED
    ensures r.Ok? ==> r.value.handedOff > t.handedOff
    ensures sched == Sized && !t.freed && t.state.taskCount == 0xFFFF ==> r == Fail(CountOverflow)
    ensures r.Fail? ==> r.fault in {Undefined, CountOverflow, CountUnderflow}
    ensures sched == ZeroSized ==> r == (if t.freed then Fail(Undefined) else Ok(t.(handedOff := t.handedOff + 1)))
    ensures sched == Sized && t.state.taskCount >= 1 && r.Ok? ==>
      && r.value.state.taskCount == t.state.taskCount + 1
      && r.value.state.wakerCount == t.state.wakerCount - 1
      && r.value.state.flags == t.state.flags
      && r.value.handedOff == t.handedOff + 1
      && !r.value.freed
    ensures sched == Sized && !t.freed && 1 <= t.state.taskCount < 0xFFFF ==> (r.Ok? <==> t.state.wakerCount > 0)
    decreases ScheduleRank(t)
  {
    if t.freed then Fail(Undefined)
    else if sched == ZeroSized then Ok(t.(handedOff := t.handedOff + 1))
    else
      var guarded :- CloneWaker(t);
      var handedOff := guarded.(handedOff := guarded.handedOff + 1);
      DropWaker(handedOff, sched)
  }

  /** The state `drop_waker` sees after its decrement asks it to close and reschedule the task. */
  predicate NeedsFinalSchedule(s1: State) {
    s1.taskCount == 1 && !HasValidHandle(s1) && !HasFlagSet(s1, COMPLETED + CLOSED)
  }

  /** The state `drop_waker` sees after its decrement asks it to free the task. */
  predicate NeedsFree(s1: State) {
    s1.taskCount == 1 && !HasValidHandle(s1) && HasFlagSet(s1, COMPLETED + CLOSED)
  }

  /**
    `drop_waker`, with the allocation freed after the `with` has stored its state, and with the
    closure's state carrying the flags it marks. The decremented state is stored; for the last
    task reference without a handle, either the task is marked `SCHEDULED | CLOSED` and scheduled,
    so that its next run drops the future, or it is freed.
  */
  function DropWaker<T>(t: RawTask<T>, sched: Scheduler): (r: Res<RawTask<T>>)
    ensures r.Ok? ==> !t.freed && t.state.wakerCount > 0
    ensures r.Fail? ==> r.fault in {Undefined, CountOverflow, CountUnderflow}
    ensures !t.freed && t.state.wakerCount == 0 ==> r == Fail(CountUnderflow)
    ensures r.Ok? ==> r.value.state.wakerCount == t.state.wakerCount - 1 && r.value.state.taskCount == t.state.taskCount
    ensures r.Ok? ==> r.value.payload == t.payload
    ensures r.Ok? ==> var s1 := t.state.(wakerCount := t.state.wakerCount - 1);
      && (r.value.freed <==> NeedsFree(s1))
      && r.value.state.flags == t.state.flags + (if NeedsFinalSchedule(s1) then SCHEDULED + CLOSED else {})
      && r.value.handedOff == t.handedOff + (if NeedsFinalSchedule(s1) then 1 else 0)
    ensures !t.freed && t.state.wakerCount > 0 && !NeedsFinalSchedule(t.state.(wakerCount := t.state.wakerCount - 1)) ==> r.Ok?
    decreases DropWakerRank(t)
  {
    if t.freed then Fail(Undefined) else
    var s1 :- DecrementWakerCount(t.state);
    if NeedsFinalSchedule(s1) then
      var marked := SetFlag(s1, SCHEDULED + CLOSED);
      var scheduled :- Schedule(t.(state := marked), sched);
      StoreState(scheduled, marked)
    else if NeedsFree(s1) then
      DropTask(t.(state := s1))
    else
      Ok(t.(state := s1))
  }

  /**
    `schedule` as written, with the ordering of the first store of `drop_waker` as a parameter:
    the temporary waker of a scheduler that occupies memory is dropped through `drop_waker` as
    written, so when that store panics, so does the schedule.
  */
  function ScheduleWithStore<T>(t: RawTask<T>, sched: Scheduler, firstStore: Ordering): (r: Res<RawTask<T>>)
    ensures r.Ok? && t.state.taskCount >= 1 ==> r.value.handedOff == t.handedOff + 1
    ensures r.Ok? ==> !t.freed && (sched == Sized ==> t.state.wakerCount > 0)
    ensures sched == Sized && !t.freed && t.state.taskCount < 0xFFFF && t.state.wakerCount > 0 && !StoreAccepts(firstStore) ==>
      r == Fail(InvalidOrdering)
    decreases ScheduleRank(t)
  {
    if t.freed then Fail(Undefined)
    else if sched == ZeroSized then Ok(t.(handedOff := t.handedOff + 1))
    else
      var guarded :- CloneWaker(t);
      DropWakerWithStore(guarded.(handedOff := guarded.handedOff + 1), sched, firstStore)
  }

  /**
    `drop_waker` as written, with the ordering of its first store as a parameter (the text asks
    for `AcqRel`). The decremented state is stored with that ordering. For the last reference
    without a handle, the allocation is then freed inside the `with` closure, after which the
    `with` stores the state into the freed header; or the `SCHEDULED | CLOSED` marking is a nested
    store inside the closure, while the closure's own state stays the decremented one, which the
    `with` stores last.
  */
  function DropWakerWithStore<T>(t: RawTask<T>, sched: Scheduler, firstStore: Ordering): (r: Res<RawTask<T>>)
    ensures r.Ok? ==> !t.freed && t.state.wakerCount > 0
    ensures r.Ok? && t.state.taskCount != 1 ==> r.value.handedOff == t.handedOff
    ensures !t.freed && t.state.wakerCount > 0 && !StoreAccepts(firstStore) ==> r == Fail(InvalidOrdering)
    decreases DropWakerRank(t)
  {
    if t.freed then Fail(Undefined) else
    var s1 :- DecrementWakerCount(t.state);
    var stored :- StoreStateOrdered(t, s1, firstStore);
    if NeedsFinalSchedule(s1) then
      var marked :- StoreStateOrdered(stored, SetFlag(s1, SCHEDULED + CLOSED), Release);
      var scheduled :- ScheduleWithStore(marked, sched, firstStore);
      StoreStateOrdered(scheduled, s1, Release)
    else if NeedsFree(s1) then
      var freed :- DropTask(stored);
      StoreStateOrdered(freed, s1, Release)
    else
      StoreStateOrdered(stored, s1, Release)
  }

  /** `drop_waker` as written: its first store asks for `AcqRel`. */
  function DropWakerAsWritten<T>(t: RawTask<T>, sched: Scheduler): Res<RawTask<T>> {
    DropWakerWithStore(t, sched, AcqRel)
  }

  /** `schedule` as written, dropping its temporary waker through `drop_waker` as written. */
  function ScheduleAsWritten<T>(t: RawTask<T>, sched: Scheduler): Res<RawTask<T>> {
    ScheduleWithStore(t, sched, AcqRel)
  }

  /**
    As written, the first store of `drop_waker` asks for `AcqRel`, an ordering a store cannot
    honour: every `drop_waker` of a live task that has a waker panics there, before it can free
    or reschedule anything, and so does every `schedule` with a scheduler that occupies memory,
    when it drops its temporary waker. So does `wake`, except in the zero-sized arm that finds the
    task running. The corrected versions complete.
  */
  lemma DropWakerStorePanics<T>(t: RawTask<T>, sched: Scheduler)
    requires !t.freed && t.state.wakerCount > 0
    ensures DropWakerAsWritten(t, sched) == Fail(InvalidOrdering)
    ensures t.state.taskCount < 0xFFFF ==> ScheduleAsWritten(t, Sized) == Fail(InvalidOrdering)
    ensures WakeByRef(t).Ok? ==> WakeAsWritten(t, Sized) == Fail(InvalidOrdering)
    ensures !IsRunning(t.state) ==> WakeAsWritten(t, ZeroSized) == Fail(InvalidOrdering)
    ensures !NeedsFinalSchedule(t.state.(wakerCount := t.state.wakerCount - 1)) ==> DropWaker(t, sched).Ok?
    ensures 1 <= t.state.taskCount < 0xFFFF ==> Schedule(t, Sized).Ok?
  {
  }

  /**
    Past its first store, `drop_waker` as written has two more defects, which only show once that
    store is given an ordering a store accepts. Where the last waker frees the task, the `with`
    writes into freed memory, while the corrected version ends with the task freed; where it
    neither frees nor reschedules, the two agree.
  */
  lemma DropWakerFreesThenWrites<T>(t: RawTask<T>, sched: Scheduler, firstStore: Ordering)
    requires !t.freed && t.state.wakerCount > 0
    requires StoreAccepts(firstStore)
    ensures DropWakerAsWritten(t, sched) == Fail(InvalidOrdering)
    ensures NeedsFree(t.state.(wakerCount := t.state.wakerCount - 1)) ==>
      DropWakerWithStore(t, sched, firstStore) == Fail(Undefined) && DropWaker(t, sched).Ok? && DropWaker(t, sched).value.freed
    ensures !NeedsFree(t.state.(wakerCount := t.state.wakerCount - 1)) && !NeedsFinalSchedule(t.state.(wakerCount := t.state.wakerCount - 1)) ==>
      DropWakerWithStore(t, sched, firstStore) == DropWaker(t, sched)
  {
  }

  /**
    Once its first store is given an ordering a store accepts, the nested `SCHEDULED | CLOSED`
    store of `drop_waker` as written does not survive: the task is handed to the scheduler, but
    the state left behind is neither scheduled (unless it was) nor closed, so its final run polls
    the future instead of dropping it. The corrected version hands it over just the same and
    leaves it closed and scheduled.
  */
  lemma DropWakerLosesCloseFlag<T>(t: RawTask<T>, sched: Scheduler, firstStore: Ordering)
    requires StoreAccepts(firstStore)
    requires DropWakerWithStore(t, sched, firstStore).Ok?
    requires NeedsFinalSchedule(t.state.(wakerCount := t.state.wakerCount - 1))
    ensures DropWakerAsWritten(t, sched) == Fail(InvalidOrdering)
    ensures DropWakerWithStore(t, sched, firstStore).value.handedOff == t.handedOff + 1
    ensures DropWakerWithStore(t, sched, firstStore).value.state.flags == t.state.flags
    ensures !IsClosed(DropWakerWithStore(t, sched, firstStore).value.state)
    ensures DropWaker(t, sched).Ok? && DropWaker(t, sched).value.handedOff == t.handedOff + 1
    ensures IsClosed(DropWaker(t, sched).value.state) && IsScheduled(DropWaker(t, sched).value.state)
  {
    var s1 := t.state.(wakerCount := t.state.wakerCount - 1);
    assert !t.freed && t.state.wakerCount > 0;
    var marked := t.(state := SetFlag(s1, SCHEDULED + CLOSED));
    var scheduled := ScheduleWithStore(marked, sched, firstStore);
    assert scheduled.Ok? && DropWakerWithStore(t, sched, firstStore).value == scheduled.value.(state := s1);
    assert scheduled.value.handedOff == t.handedOff + 1;
    assert Schedule(marked, sched).Ok?;
    HasFlagSetMeansAny(s1, COMPLETED, CLOSED);
    HasSingleFlag(s1, 3);
    var r := DropWaker(t, sched).value;
    HasSingleFlag(r.state, 3);
    HasSingleFlag(r.state, 0);
  }

  /**
    `wake_by_ref`. Nothing happens to a completed, closed or cancelled task, nor to one already
    scheduled. Otherwise `SCHEDULED` is set; a task that is not running also gains a task
    reference and is handed to the scheduler, unless its count already exceeds `i16::MAX`, in
    which case the runtime aborts.
  */
  function WakeByRef<T>(t: RawTask<T>): (r: Res<RawTask<T>>)
    ensures !t.freed && (HasCompleted(t.state) || IsScheduled(t.state)) ==> r == Ok(t)
    ensures r.Ok? ==> r.value.payload == t.payload && !r.value.freed
    ensures r.Ok? && !HasCompleted(t.state) && !IsScheduled(t.state) ==>
      r.value.state.flags == t.state.flags + SCHEDULED &&
      r.value.state.wakerCount == t.state.wakerCount &&
      (if IsRunning(t.state) then r.value.state.taskCount == t.state.taskCount && r.value.handedOff == t.handedOff
       else r.value.state.taskCount == t.state.taskCount + 1 && r.value.handedOff == t.handedOff + 1)
    ensures !t.freed && !HasCompleted(t.state) && !IsScheduled(t.state) && !IsRunning(t.state) ==>
      (r.Ok? <==> t.state.taskCount <= 0x7FFF)
    ensures !t.freed && IsRunning(t.state) ==> r.Ok?
  {
    if t.freed then Fail(Undefined)
    else
      var s := t.state;
      if HasCompleted(s) || IsScheduled(s) then Ok(t)
      else if !IsRunning(s) then
        var s1 :- IncrementReferenceCount(s);
        if s.taskCount > 0x7FFF then Fail(Aborted)
        else Ok(t.(state := SetFlag(s1, SCHEDULED), handedOff := t.handedOff + 1))
      else
        Ok(t.(state := SetFlag(s, SCHEDULED)))
  }

  /** Wakes coalesce: a second `wake_by_ref` right after a successful one changes nothing. */
  lemma WakeByRefCoalesces<T>(t: RawTask<T>)
    requires WakeByRef(t).Ok?
    ensures WakeByRef(WakeByRef(t).value) == WakeByRef(t)
  {
    var r := WakeByRef(t).value;
    if !HasCompleted(t.state) && !IsScheduled(t.state) {
      assert 0 in r.state.flags;
      HasSingleFlag(r.state, 0);
    }
  }

  /** `wake`: consume the waker, i.e. `wake_by_ref` and then `drop_waker`. */
  function Wake<T>(t: RawTask<T>, sched: Scheduler): (r: Res<RawTask<T>>)
    ensures r.Ok? ==> WakeByRef(t).Ok? && r.value.state.wakerCount == t.state.wakerCount - 1
    ensures r.Ok? && !HasCompleted(t.state) && !IsScheduled(t.state) ==>
      && IsScheduled(r.value.state)
      && r.value.state.taskCount == t.state.taskCount + (if IsRunning(t.state) then 0 else 1)
    ensures r.Ok? && !HasCompleted(t.state) && !IsScheduled(t.state) && !IsRunning(t.state) ==>
      r.value.handedOff >= t.handedOff + 1
  {
    var woken :- WakeByRef(t);
    var r := DropWaker(woken, sched);
    if r.Ok? then HasSingleFlag(r.value.state, 0); r else r
  }

  /**
    `wake` as written, with the ordering of the first store of `drop_waker` as a parameter. A
    scheduler that occupies memory takes the `wake_by_ref` + `drop_waker` path. The zero-sized
    path sets `SCHEDULED` itself and then hands the task to the scheduler when it WAS running,
    and drops the waker without scheduling when it was not.
  */
  function WakeWithStore<T>(t: RawTask<T>, sched: Scheduler, firstStore: Ordering): Res<RawTask<T>> {
    if sched == Sized then
      var woken :- WakeByRef(t);
      DropWakerWithStore(woken, sched, firstStore)
    else if t.freed then Fail(Undefined)
    else
      var s := t.state;
      if HasFlagSet(s, COMPLETED + CLOSED) || IsScheduled(s) then DropWakerWithStore(t, sched, firstStore)
      else
        var marked := t.(state := SetFlag(s, SCHEDULED));
        if IsRunning(s) then ScheduleWithStore(marked, sched, firstStore) else DropWakerWithStore(marked, sched, firstStore)
  }

  /** `wake` as written. */
  function WakeAsWritten<T>(t: RawTask<T>, sched: Scheduler): Res<RawTask<T>> {
    WakeWithStore(t, sched, AcqRel)
  }

  /** A live task that nothing is running or has scheduled, with room in its counts. */
  predicate Idle<T>(t: RawTask<T>) {
    && !t.freed
    && !HasCompleted(t.state) && !IsScheduled(t.state) && !IsRunning(t.state)
    && HasValidHandle(t.state)
    && 1 <= t.state.wakerCount
    && t.state.taskCount <= 0x7FFF
  }

  /**
    As written, the zero-sized `wake` of an idle task panics in its `drop_waker`. Once that store
    is given an ordering a store accepts, it loses the wake-up instead: the task ends up marked
    `SCHEDULED` but is never handed to the scheduler, and since every later wake sees `SCHEDULED`
    and does nothing, it is never polled again. The corrected `wake` hands it over once.
  */
  lemma ZeroSizedWakeLosesWakeUp<T>(t: RawTask<T>, firstStore: Ordering)
    requires Idle(t)
    requires StoreAccepts(firstStore)
    ensures WakeAsWritten(t, ZeroSized) == Fail(InvalidOrdering)
    ensures WakeWithStore(t, ZeroSized, firstStore).Ok?
    ensures WakeWithStore(t, ZeroSized, firstStore).value.handedOff == t.handedOff
    ensures IsScheduled(WakeWithStore(t, ZeroSized, firstStore).value.state)
    ensures WakeByRef(WakeWithStore(t, ZeroSized, firstStore).value) == WakeWithStore(t, ZeroSized, firstStore)
    ensures Wake(t, ZeroSized).Ok? && Wake(t, ZeroSized).value.handedOff == t.handedOff + 1
  {
    HasCompletedMeansAny(t.state);
    HasFlagSetMeansAny(t.state, COMPLETED, CLOSED);
    assert 6 in t.state.flags by { HasSingleFlag(t.state, 6); }
    var marked := t.(state := SetFlag(t.state, SCHEDULED));
    var s1 := marked.state.(wakerCount := marked.state.wakerCount - 1);
    assert HasValidHandle(s1) by { HasSingleFlag(s1, 6); }
    assert WakeWithStore(t, ZeroSized, firstStore) == DropWakerWithStore(marked, ZeroSized, firstStore);
    assert DropWakerWithStore(marked, ZeroSized, firstStore) == Ok(marked.(state := s1));
    assert IsScheduled(s1) by { HasSingleFlag(s1, 0); }
    var woken := WakeByRef(t).value;
    var w1 := woken.state.(wakerCount := woken.state.wakerCount - 1);
    assert HasValidHandle(w1) by { HasSingleFlag(w1, 6); }
    assert Wake(t, ZeroSized) == DropWaker(woken, ZeroSized);
  }

  /**
    The zero-sized `wake` of a running task does not drop its waker, so it gets past the panic;
    it hands a second runnable to the scheduler, where `wake_by_ref` hands none.
  */
  lemma ZeroSizedWakeSchedulesRunningTask<T>(t: RawTask<T>)
    requires !t.freed && !HasFlagSet(t.state, COMPLETED + CLOSED) && !IsScheduled(t.state) && IsRunning(t.state)
    ensures WakeAsWritten(t, ZeroSized).Ok? && WakeAsWritten(t, ZeroSized).value.handedOff == t.handedOff + 1
    ensures WakeByRef(t).Ok? && WakeByRef(t).value.handedOff == t.handedOff
  {
  }

  /** The state `poll` stores when the future is ready: done, and closed iff no handle is alive. */
  function ReadyState(s: State): (r: State)
    ensures r.wakerCount == s.wakerCount && r.taskCount == s.taskCount
    ensures r.flags == (s.flags - RUNNING - SCHEDULED) + COMPLETED + (if HasValidHandle(s) then {} else CLOSED)
  {
    var done := SetFlag(ClearFlag(ClearFlag(s, RUNNING), SCHEDULED), COMPLETED);
    if !HasValidHandle(s) then SetFlag(done, CLOSED) else done
  }

  /** The state `poll` stores when the future is pending: not running, and not scheduled if closed. */
  function PendingState(s: State): (r: State)
    ensures r.wakerCount == s.wakerCount && r.taskCount == s.taskCount
    ensures r.flags == s.flags - RUNNING - (if IsClosed(s) then SCHEDULED else {})
  {
    if IsClosed(s) then ClearFlag(ClearFlag(s, RUNNING), SCHEDULED) else ClearFlag(s, RUNNING)
  }

  /** `s` is `expected` with the task count `count`. */
  predicate SameBesidesTaskCount(s: State, expected: State, count: int) {
    s.wakerCount == expected.wakerCount && s.flags == expected.flags && s.taskCount == count
  }

  /** How `poll` leaves its first loop. */
  datatype Started<T> =
    | Finished(polled: Polled<T>)              // the task was closed: nothing was polled
    | InFlight(task: RawTask<T>, local: State)  // marked RUNNING; `local` is the poll's own copy of the state

  /**
    The first loop of `poll`, with the ordering of the store in its closed branch as a parameter
    (the text asks for `AcqRel`). A closed task has its future dropped, and then the state with
    `SCHEDULED` cleared is stored: with an ordering a store cannot honour this panics; otherwise
    one reference is dropped and the poll is `Complete`. A task that is not closed has `SCHEDULED`
    exchanged for `RUNNING`; the value the successful exchange stored is discarded, so the local
    copy keeps the state from BEFORE the exchange.
  */
  function PollBegin<T>(t: RawTask<T>, closedStore: Ordering): (r: Res<Started<T>>)
    ensures !t.freed && IsClosed(t.state) && t.payload == Future && !StoreAccepts(closedStore) ==>
      r == Fail(InvalidOrdering)
    ensures !t.freed && IsClosed(t.state) && t.payload == Future && t.state.taskCount > 0 && StoreAccepts(closedStore) ==>
      r.Ok? && r.value.Finished? &&
      r.value.polled.result == Complete &&
      r.value.polled.task.payload == Vacant &&
      SameBesidesTaskCount(r.value.polled.task.state, ClearFlag(t.state, SCHEDULED), t.state.taskCount - 1)
    ensures !t.freed && !IsClosed(t.state) ==>
      r == Ok(InFlight(t.(state := SetFlag(ClearFlag(t.state, SCHEDULED), RUNNING)), t.state))
  {
    if t.freed then Fail(Undefined)
    else
      var s := t.state;
      if IsClosed(s) then
        var dropped :- DropFuture(t);
        var stored :- StoreStateOrdered(dropped, ClearFlag(s, SCHEDULED), closedStore);
        var released :- DropReference(stored);
        Ok(Finished(Polled(released, Complete)))
      else
        Ok(InFlight(t.(state := SetFlag(ClearFlag(s, SCHEDULED), RUNNING)), s))
  }

  /**
    The rest of `poll`, as intended, on the task as it is after the future's `poll` returned
    (so it sees whatever a wake or a cancellation did meanwhile).

    Ready: the future is replaced by its output and the ready state stored; the output is dropped
    at once if nobody can take it (no handle, or closed); the poll's reference is dropped; the
    result is `Complete`. Pending: a closed task has its future dropped and its reference dropped
    and the poll is `Complete`; a task woken while it ran is scheduled again; any other task drops
    the poll's reference. Either way the result is `Pending`.
  */
  function PollFinish<T>(t: RawTask<T>, step: FutureStep<T>, sched: Scheduler): (r: Res<Polled<T>>)
    ensures r.Ok? ==> !t.freed
    ensures r.Ok? && step.Ready? ==> r.value.result == Complete
    ensures r.Ok? && step.Ready? && !r.value.task.freed ==>
      SameBesidesTaskCount(r.value.task.state, ReadyState(t.state), t.state.taskCount - 1) &&
      (r.value.task.payload == Output(step.value) <==> HasValidHandle(t.state) && !IsClosed(t.state))
    ensures r.Ok? && step.NotReady? && !IsClosed(t.state) ==> r.value.result == Pending
    ensures r.Ok? && step.NotReady? && IsClosed(t.state) ==>
      r.value.result == Complete && r.value.task.payload == Vacant &&
      SameBesidesTaskCount(r.value.task.state, PendingState(t.state), t.state.taskCount - 1)
    ensures r.Ok? && step.NotReady? && !IsClosed(t.state) && !IsScheduled(t.state) ==>
      SameBesidesTaskCount(r.value.task.state, PendingState(t.state), t.state.taskCount - 1) &&
      r.value.task.handedOff == t.handedOff
    ensures r.Ok? && step.NotReady? && !IsClosed(t.state) && IsScheduled(t.state) && sched == ZeroSized ==>
      r.value.task.state == PendingState(t.state) && r.value.task.handedOff == t.handedOff + 1
  {
    if t.freed then Fail(Undefined)
    else
      var s := t.state;
      match step
      case Ready(v) =>
        var dropped :- DropFuture(t);
        var stored := dropped.(payload := Output(v), state := ReadyState(s));
        var kept :- if !HasValidHandle(s) || IsClosed(s) then DropOutput(stored) else Ok(stored);
        var released :- DropReference(kept);
        Ok(Polled(released, Complete))
      case NotReady =>
        if IsClosed(s) then
          var dropped :- DropFuture(t);
          var released :- DropReference(dropped.(state := PendingState(s)));
          Ok(Polled(released, Complete))
        else if IsScheduled(s) then
          var rescheduled :- Schedule(t.(state := PendingState(s)), sched);
          Ok(Polled(rescheduled, Pending))
        else
          var released :- DropReference(t.(state := PendingState(s)));
          Ok(Polled(released, Pending))
  }

  /**
    `poll` as intended, with nothing happening concurrently while the future runs; the store of
    its closed branch releases.
  */
  function Poll<T>(t: RawTask<T>, step: FutureStep<T>, sched: Scheduler): (r: Res<Polled<T>>)
    ensures r.Ok? ==> !t.freed
    ensures !t.freed && IsClosed(t.state) && t.payload == Future && t.state.taskCount > 0 ==>
      r.Ok? && r.value.result == Complete && r.value.task.payload == Vacant
  {
    var started :- PollBegin(t, Release);
    match started
    case Finished(polled) => Ok(polled)
    case InFlight(running, _) => PollFinish(running, step, sched)
  }

  /**
    The `Ready` loop as written. The loop exchanges the local state for the ready state and, on
    success, leaves only if the handle is gone or the task is closed; otherwise it goes round
    again with the same local copy, and so spins for as long as the handle lives.
  */
  function ReadyLoop<T>(t: RawTask<T>, local: State, fuel: nat): Res<Polled<T>>
    decreases fuel
  {
    if fuel == 0 then Fail(Diverges)
    else if t.freed then Fail(Undefined)
    else if t.state == local then
      var exchanged := t.(state := ReadyState(local));
      if !HasValidHandle(local) || IsClosed(local) then
        var emptied :- DropOutput(exchanged);
        var released :- DropReference(emptied);
        Ok(Polled(released, Complete))
      else
        ReadyLoop(exchanged, local, fuel - 1)
    else
      ReadyLoop(t, t.state, fuel - 1)
  }

  /**
    The `Pending` loop as written. On a successful exchange of a closed local state it drops a
    reference and goes round again instead of returning.
  */
  function PendingLoop<T>(t: RawTask<T>, local: State, futureDropped: bool, sched: Scheduler, fuel: nat): Res<Polled<T>>
    decreases fuel
  {
    if fuel == 0 then Fail(Diverges)
    else if t.freed then Fail(Undefined)
    else
      var t1 :- if IsClosed(local) && !futureDropped then DropFuture(t) else Ok(t);
      var dropped := futureDropped || IsClosed(local);
      if t1.state == local then
        var exchanged := t1.(state := PendingState(local));
        if IsClosed(local) then
          var released :- DropReference(exchanged);
          PendingLoop(released, local, dropped, sched, fuel - 1)
        else if IsScheduled(local) then
          var rescheduled :- ScheduleAsWritten(exchanged, sched);
          Ok(Polled(rescheduled, Pending))
        else
          var released :- DropReference(exchanged);
          Ok(Polled(released, Pending))
      else
        PendingLoop(t1, t1.state, dropped, sched, fuel - 1)
  }

  /** The rest of `poll` as written, given the local copy the first loop left. */
  function PollFinishAsWritten<T>(t: RawTask<T>, local: State, step: FutureStep<T>, sched: Scheduler, fuel: nat): Res<Polled<T>> {
    if t.freed then Fail(Undefined)
    else
      match step
      case Ready(v) =>
        var dropped :- DropFuture(t);
        ReadyLoop(dropped.(payload := Output(v)), local, fuel)
      case NotReady =>
        PendingLoop(t, local, false, sched, fuel)
  }

  /** `poll` as written, with at most `fuel` turns of its final loop. */
  function PollAsWritten<T>(t: RawTask<T>, step: FutureStep<T>, sched: Scheduler, fuel: nat): Res<Polled<T>> {
    var started :- PollBegin(t, AcqRel);
    match started
    case Finished(polled) => Ok(polled)
    case InFlight(running, local) => PollFinishAsWritten(running, local, step, sched, fuel)
  }

  /**
    As written, `poll` of a closed task drops the future and then stores with `AcqRel`, which a
    store cannot honour, so it panics instead of completing; the corrected `poll` completes with
    the future dropped.
  */
  lemma ClosedPollStorePanics<T>(t: RawTask<T>, step: FutureStep<T>, sched: Scheduler, fuel: nat)
    requires !t.freed && IsClosed(t.state) && t.payload == Future && t.state.taskCount > 0
    ensures PollAsWritten(t, step, sched, fuel) == Fail(InvalidOrdering)
    ensures Poll(t, step, sched).Ok? && Poll(t, step, sched).value.result == Complete
    ensures Poll(t, step, sched).value.task.payload == Vacant
  {
  }

  /** The first exchange always succeeds, yet the poll's copy is not what it stored. */
  lemma PollDiscardsExchangedState<T>(t: RawTask<T>)
    requires !t.freed && !IsClosed(t.state) && !IsRunning(t.state)
    ensures PollBegin(t, AcqRel).Ok? && PollBegin(t, AcqRel).value.InFlight?
    ensures PollBegin(t, AcqRel).value.local != PollBegin(t, AcqRel).value.task.state
  {
    var r := PollBegin(t, AcqRel).value;
    assert 1 in r.task.state.flags;
    assert 1 !in t.state.flags by { HasSingleFlag(t.state, 1); }
  }

  /** While the handle lives and the task is not closed, the `Ready` loop never leaves. */
  lemma {:induction false} ReadyLoopSpins<T>(t: RawTask<T>, local: State, fuel: nat)
    requires !t.freed && t.payload.Output?
    requires HasValidHandle(t.state) && !IsClosed(t.state)
    requires HasValidHandle(local) && !IsClosed(local)
    ensures ReadyLoop(t, local, fuel) == Fail(Diverges)
    decreases fuel
  {
    if fuel > 0 {
      if t.state == local {
        var next := ReadyState(local);
        assert 6 in local.flags by { HasSingleFlag(local, 6); }
        assert 3 !in local.flags by { HasSingleFlag(local, 3); }
        HasSingleFlag(next, 6);
        HasSingleFlag(next, 3);
        ReadyLoopSpins(t.(state := next), local, fuel - 1);
      } else {
        ReadyLoopSpins(t, t.state, fuel - 1);
      }
    }
  }

  /**
    As written, `poll` of a task whose future becomes ready while its handle lives never returns,
    however many turns the loop is given; the intended `poll` returns `Complete` and keeps the
    output for the handle.
  */
  lemma ReadyPollNeverReturns<T>(t: RawTask<T>, v: T, sched: Scheduler, fuel: nat)
    requires !t.freed && t.payload == Future && t.state.taskCount > 0
    requires HasValidHandle(t.state) && !IsClosed(t.state)
    ensures PollAsWritten(t, Ready(v), sched, fuel) == Fail(Diverges)
    ensures Poll(t, Ready(v), sched).Ok?
    ensures Poll(t, Ready(v), sched).value.result == Complete
    ensures Poll(t, Ready(v), sched).value.task.payload == Output(v)
  {
    var running := t.(state := SetFlag(ClearFlag(t.state, SCHEDULED), RUNNING));
    assert 6 in t.state.flags by { HasSingleFlag(t.state, 6); }
    assert 3 !in t.state.flags by { HasSingleFlag(t.state, 3); }
    HasSingleFlag(running.state, 6);
    HasSingleFlag(running.state, 3);
    ReadyLoopSpins(running.(payload := Output(v)), t.state, fuel);
  }

  /**
    As written, once the task is closed the `Pending` loop never returns a result: each turn drops
    another reference until the count underflows, the freed task is touched again, or the fuel
    runs out.
  */
  lemma {:induction false} PendingLoopNeverReturns<T>(t: RawTask<T>, local: State, dropped: bool, sched: Scheduler, fuel: nat)
    requires !t.freed ==> IsClosed(t.state)
    ensures PendingLoop(t, local, dropped, sched, fuel).Fail?
    decreases fuel
  {
    if fuel > 0 && !t.freed {
      var t1r := if IsClosed(local) && !dropped then DropFuture(t) else Ok(t);
      if t1r.Ok? {
        var t1 := t1r.value;
        var d := dropped || IsClosed(local);
        if t1.state == local {
          var exchanged := t1.(state := PendingState(local));
          var rr := DropReference(exchanged);
          if rr.Ok? {
            var released := rr.value;
            if !released.freed {
              assert 3 in local.flags by { HasSingleFlag(local, 3); }
              HasSingleFlag(released.state, 3);
            }
            PendingLoopNeverReturns(released, local, d, sched, fuel - 1);
          }
        } else {
          PendingLoopNeverReturns(t1, t1.state, d, sched, fuel - 1);
        }
      }
    }
  }

  /**
    A quiet `poll` of a task that is not closed: a ready future completes the task (closed as
    well iff no handle is alive) and its output stays for the handle iff one is alive; a pending
    future leaves the task neither running nor scheduled. Either way the poll's reference is
    dropped and the scheduler is not called.
  */
  lemma QuietPoll<T>(t: RawTask<T>, step: FutureStep<T>, sched: Scheduler)
    requires !t.freed && !IsClosed(t.state) && t.payload == Future && t.state.taskCount > 0
    ensures Poll(t, step, sched).Ok?
    ensures Poll(t, step, sched).value.task.handedOff == t.handedOff
    ensures Poll(t, step, sched).value.task.state.taskCount == t.state.taskCount - 1
    ensures step.Ready? ==>
      && Poll(t, step, sched).value.result == Complete
      && Poll(t, step, sched).value.task.state.flags ==
           (t.state.flags - SCHEDULED - RUNNING) + COMPLETED + (if HasValidHandle(t.state) then {} else CLOSED)
      && (Poll(t, step, sched).value.task.payload == Output(step.value) <==> HasValidHandle(t.state))
    ensures step.NotReady? ==>
      && Poll(t, step, sched).value.result == Pending
      && Poll(t, step, sched).value.task.state.flags == t.state.flags - SCHEDULED - RUNNING
  {
    var running := t.(state := SetFlag(ClearFlag(t.state, SCHEDULED), RUNNING));
    assert HasValidHandle(running.state) <==> HasValidHandle(t.state) by {
      HasSingleFlag(running.state, 6);
      HasSingleFlag(t.state, 6);
    }
    assert !IsClosed(running.state) by {
      HasSingleFlag(running.state, 3);
      HasSingleFlag(t.state, 3);
    }
    assert !IsScheduled(running.state) by {
      HasSingleFlag(running.state, 0);
    }
  }

  /**
    A future that wakes itself while it runs and then returns pending is polled again: `poll`
    leaves it scheduled and hands it to the scheduler once more.
  */
  lemma SelfWakeReschedules<T>(t: RawTask<T>)
    requires !t.freed && !HasCompleted(t.state) && t.payload == Future && t.state.taskCount > 0
    requires PollBegin(t, Release).Ok? && PollBegin(t, Release).value.InFlight?
    ensures WakeByRef(PollBegin(t, Release).value.task).Ok?
    ensures PollFinish(WakeByRef(PollBegin(t, Release).value.task).value, NotReady, ZeroSized).Ok?
    ensures PollFinish(WakeByRef(PollBegin(t, Release).value.task).value, NotReady, ZeroSized).value.result == Pending
    ensures PollFinish(WakeByRef(PollBegin(t, Release).value.task).value, NotReady, ZeroSized).value.task.handedOff == t.handedOff + 1
    ensures IsScheduled(PollFinish(WakeByRef(PollBegin(t, Release).value.task).value, NotReady, ZeroSized).value.task.state)
  {
    var running := PollBegin(t, Release).value.task;
    HasCompletedMeansAny(t.state);
    HasCompletedMeansAny(running.state);
    assert IsRunning(running.state) by { HasSingleFlag(running.state, 1); }
    assert !IsScheduled(running.state) by { HasSingleFlag(running.state, 0); }
    assert !HasCompleted(running.state) by {
      HasSingleFlag(running.state, 2);
      HasSingleFlag(running.state, 3);
      HasSingleFlag(t.state, 2);
      HasSingleFlag(t.state, 3);
      assert 4 !in running.state.flags;
    }
    var woken := WakeByRef(running).value;
    assert IsScheduled(woken.state) by { HasSingleFlag(woken.state, 0); }
    assert !IsClosed(woken.state) by { HasSingleFlag(woken.state, 3); HasSingleFlag(running.state, 3); }
    var r := PollFinish(woken, NotReady, ZeroSized).value;
    assert IsScheduled(r.task.state) by { HasSingleFlag(r.task.state, 0); }
  }
}
