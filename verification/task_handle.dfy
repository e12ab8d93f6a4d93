/**
  The two user-facing ends of a spawned task (simeng_task/src/runnable.rs): the runnable `Task`
  the scheduler receives, and the `Handle` that awaits the output.

  A `Task` and a `Handle` are addresses of one allocation; the operations here act on that
  allocation's `RawTask`. Both ends are moved into the calls that consume them (`run`, `schedule`,
  `detach`), which Rust's ownership rules enforce.
*/
module TaskHandle {
  import opened Outcome
  import opened Bits
  import opened TaskState
  import opened TaskFlags
  import opened TaskRuntime

  /** What `__poll_task` answers: not yet, or done with the output if this call took it. */
  datatype HandlePoll<T> = NotYet | Done(output: Option<T>)

  /** Rust's `Poll<T>` as `Handle`'s `Future::poll` returns it. */
  datatype Polling<T> = StillPending | ReadyWith(value: T)

  /**
    Reading the output out of the union: it must be there, and it is moved out. (`get_output`
    followed by `read`.)
  */
  function TakeOutput<T>(t: RawTask<T>): (r: Res<(RawTask<T>, T)>)
    ensures r.Ok? <==> !t.freed && t.payload.Output?
    ensures r.Ok? ==> r.value.1 == t.payload.value && r.value.0 == t.(payload := Vacant)
  {
    if t.freed || !t.payload.Output? then Fail(Undefined) else Ok((t.(payload := Vacant), t.payload.value))
  }

  /**
    `Handle::__poll_task`. A taken output answers `Ready(None)`. A closed task answers `Pending`
    while it is still scheduled or running and `Ready(None)` after. A task that has not completed
    answers `Pending`. A completed task is closed and its output moved out to the caller.
    (The `is_closed` test inside the "not completed" branch can never hold there: closed states
    were answered by the branch before.)
  */
  function PollTask<T>(t: RawTask<T>): (r: Res<(RawTask<T>, HandlePoll<T>)>)
    ensures !t.freed ==> r.Ok? || (IsCompleted(t.state) && !t.payload.Output?)
    ensures r.Ok? && HasBeenTaken(t.state) ==> r.value == (t, Done(None))
    ensures r.Ok? && !HasBeenTaken(t.state) && IsClosed(t.state) ==>
      r.value == (t, if IsScheduled(t.state) || IsRunning(t.state) then NotYet else Done(None))
    ensures r.Ok? && !HasBeenTaken(t.state) && !IsClosed(t.state) && !IsCompleted(t.state) ==> r.value == (t, NotYet)
    ensures r.Ok? && !HasBeenTaken(t.state) && !IsClosed(t.state) && IsCompleted(t.state) ==>
      && t.payload.Output?
      && r.value.1 == Done(Some(t.payload.value))
      && r.value.0 == t.(state := SetFlag(t.state, CLOSED), payload := Vacant)
  {
    if t.freed then Fail(Undefined)
    else
      var s := t.state;
      if HasFlagSet(s, TAKEN) then Ok((t, Done(None)))
      else if IsClosed(s) then
        if IsScheduled(s) || IsRunning(s) then Ok((t, NotYet)) else Ok((t, Done(None)))
      else if !IsCompleted(s) then Ok((t, NotYet))
      else
        var closed := t.(state := SetFlag(s, CLOSED));
        var (emptied, out) :- TakeOutput(closed);
        Ok((emptied, Done(Some(out))))
  }

  /**
    `Handle`'s `Future::poll`: `Pending` passes through, the output is returned, and a poll that
    finds no output panics with "future polled after completion".
  */
  function HandlePollFuture<T>(t: RawTask<T>): (r: Res<(RawTask<T>, Polling<T>)>)
    ensures r.Ok? ==> PollTask(t).Ok?
    ensures PollTask(t).Ok? && PollTask(t).value.1 == Done(None) ==> r == Fail(PolledAfterCompletion)
    ensures PollTask(t).Ok? && PollTask(t).value.1 == NotYet ==> r == Ok((t, StillPending))
    ensures r.Ok? && r.value.1.ReadyWith? ==> PollTask(t).value.1 == Done(Some(r.value.1.value))
  {
    var (t1, answer) :- PollTask(t);
    match answer
    case NotYet => Ok((t1, StillPending))
    case Done(None) => Fail(PolledAfterCompletion)
    case Done(Some(v)) => Ok((t1, ReadyWith(v)))
  }

  /**
    The output is delivered at most once: after a poll of the handle has taken it, the next one
    (with the task neither scheduled nor running) finds the task closed and panics.
  */
  lemma OutputDeliveredOnce<T>(t: RawTask<T>)
    requires HandlePollFuture(t).Ok? && HandlePollFuture(t).value.1.ReadyWith?
    requires !IsScheduled(t.state) && !IsRunning(t.state)
    ensures HandlePollFuture(HandlePollFuture(t).value.0) == Fail(PolledAfterCompletion)
  {
    var t1 := HandlePollFuture(t).value.0;
    assert t1.state == SetFlag(t.state, CLOSED);
    HasSingleFlag(t1.state, 3);
    HasSingleFlag(t1.state, 0);
    HasSingleFlag(t1.state, 1);
    HasSingleFlag(t.state, 0);
    HasSingleFlag(t.state, 1);
  }

  /** A live task that has neither completed nor been closed, and that nothing runs or has scheduled. */
  predicate IdleUnclosed<T>(t: RawTask<T>) {
    !t.freed && !IsCompleted(t.state) && !IsClosed(t.state) && !IsRunning(t.state) && !IsScheduled(t.state)
  }

  /**
    `Handle::__set_canceled`. A completed or closed task is left alone. An idle task is marked
    `CLOSED | SCHEDULED`, gains a task reference and is scheduled once, so that its next run drops
    the future; a running or scheduled task is only marked `CLOSED`. With a scheduler that
    occupies memory, the schedule's temporary waker also moves one unit from the waker count to
    the task count.
  */
  function SetCanceled<T>(t: RawTask<T>, sched: Scheduler): (r: Res<RawTask<T>>)
    ensures r.Ok? ==> !t.freed && r.value.payload == t.payload && !r.value.freed
    ensures !t.freed && (IsCompleted(t.state) || IsClosed(t.state)) ==> r == Ok(t)
    ensures !t.freed && !IsCompleted(t.state) && !IsClosed(t.state) && (IsRunning(t.state) || IsScheduled(t.state)) ==>
      r == Ok(t.(state := t.state.(flags := t.state.flags + CLOSED)))
    ensures IdleUnclosed(t) ==>
      (r.Ok? <==> t.state.taskCount < (if sched == ZeroSized then 0xFFFF else 0xFFFE) && (sched == Sized ==> t.state.wakerCount > 0))
    ensures IdleUnclosed(t) && r.Ok? ==>
      && r.value.state.flags == t.state.flags + CLOSED + SCHEDULED
      && r.value.state.taskCount == t.state.taskCount + (if sched == ZeroSized then 1 else 2)
      && r.value.state.wakerCount == t.state.wakerCount - (if sched == ZeroSized then 0 else 1)
      && r.value.handedOff == t.handedOff + 1
  {
    if t.freed then Fail(Undefined)
    else
      var s := t.state;
      if IsCompleted(s) || IsClosed(s) then Ok(t)
      else if !IsRunning(s) && !IsScheduled(s) then
        var marked :- IncrementReferenceCount(SetFlag(SetFlag(s, CLOSED), SCHEDULED));
        Schedule(t.(state := marked), sched)
      else
        Ok(t.(state := SetFlag(s, CLOSED)))
  }

  /**
    Cancelling an idle task, whatever the scheduler, leaves it closed and scheduled and hands it to
    the scheduler exactly once.
  */
  lemma CancelIdleSchedulesOnce<T>(t: RawTask<T>, sched: Scheduler)
    requires IdleUnclosed(t)
    requires t.state.taskCount < 0xFFFE && (sched == Sized ==> t.state.wakerCount > 0)
    ensures SetCanceled(t, sched).Ok?
    ensures SetCanceled(t, sched).value.handedOff == t.handedOff + 1
    ensures IsClosed(SetCanceled(t, sched).value.state) && IsScheduled(SetCanceled(t, sched).value.state)
    ensures !IsRunning(SetCanceled(t, sched).value.state) && !IsCompleted(SetCanceled(t, sched).value.state)
  {
    var r := SetCanceled(t, sched).value;
    HasSingleFlag(r.state, 3);
    HasSingleFlag(r.state, 0);
    HasSingleFlag(r.state, 1);
    HasSingleFlag(r.state, 2);
    HasSingleFlag(t.state, 1);
    HasSingleFlag(t.state, 2);
  }

  /** The result of the `__set_detached` loop: the task and the output it may have taken. */
  datatype Detached<T> = Detached(task: RawTask<T>, output: Option<T>)

  /**
    The retry loop of `__set_detached`, entered with the value the failed fast-path exchange
    returned. A completed, unclosed task is closed and its output taken; the local copy then also
    carries `TAKEN`, which is never stored. Otherwise the loop either closes, reschedules and
    references the task (last reference or already closed) or clears `TASK_ALIVE`; if the task
    count it saw was zero it then schedules or frees the task.
  */
  function DetachLoop<T>(t: RawTask<T>, local: State, output: Option<T>, sched: Scheduler, fuel: nat): Res<Detached<T>>
    decreases fuel
  {
    if fuel == 0 then Fail(Diverges)
    else if t.freed then Fail(Undefined)
    else if IsCompleted(local) && !IsClosed(local) then
      if t.state == local then
        var closed := t.(state := SetFlag(local, CLOSED));
        var (emptied, out) :- TakeOutput(closed);
        DetachLoop(emptied, SetFlag(SetFlag(local, CLOSED), TAKEN), Some(out), sched, fuel - 1)
      else
        DetachLoop(t, t.state, output, sched, fuel - 1)
    else
      var desired :- if local.taskCount == 1 || IsClosed(local) then
                      IncrementReferenceCount(SetFlag(SetFlag(local, SCHEDULED), CLOSED))
                    else
                      Ok(ClearFlag(local, TASK_ALIVE));
      if t.state == local then
        var exchanged := t.(state := desired);
        if local.taskCount == 0 then
          var after :- if !IsClosed(local) then Schedule(exchanged, sched) else DropTask(exchanged);
          Ok(Detached(after, output))
        else
          Ok(Detached(exchanged, output))
      else
        DetachLoop(t, t.state, output, sched, fuel - 1)
  }

  /** The flags the fast path of `__set_detached` stores. */
  const DETACHED_FRESH: State := State(1, 1, SCHEDULED)

  /**
    `Handle::__set_detached` as written. The fast path is a weak compare-and-swap from the
    untouched initial state to the same counts with only `SCHEDULED`; it may fail spuriously
    (`spurious`) even when the state matches, and any failure enters the retry loop with the
    current state, which a single thread leaves within three turns.
  */
  function SetDetachedAsWritten<T>(t: RawTask<T>, sched: Scheduler, spurious: bool): Res<Detached<T>> {
    if t.freed then Fail(Undefined)
    else if t.state == INITIAL_STATE && !spurious then Ok(Detached(t.(state := DETACHED_FRESH), None))
    else DetachLoop(t, t.state, None, sched, 3)
  }

  /**
    `Handle::__set_detached` with a fast path that cannot fail spuriously (a strong exchange):
    exactly the untouched initial state takes it, every other state goes through the loop.
  */
  function SetDetached<T>(t: RawTask<T>, sched: Scheduler): (r: Res<Detached<T>>)
    ensures !t.freed && t.state == INITIAL_STATE ==> r == Ok(Detached(t.(state := DETACHED_FRESH), None))
    ensures !t.freed && t.state == INITIAL_STATE ==> !IsClosed(r.value.task.state) && !HasValidHandle(r.value.task.state)
    ensures r == SetDetachedAsWritten(t, sched, false)
  {
    HasSingleFlag(DETACHED_FRESH, 3);
    HasSingleFlag(DETACHED_FRESH, 6);
    if t.freed then Fail(Undefined)
    else if t.state == INITIAL_STATE then Ok(Detached(t.(state := DETACHED_FRESH), None))
    else DetachLoop(t, t.state, None, sched, 3)
  }

  /**
    What the retry loop of `__set_detached` does, run by one thread from the state it loaded:
    - a completed, unclosed task is closed and its output taken; the loop then goes on as for a
      closed task;
    - on the last task reference, or on a closed task, the task is marked `SCHEDULED | CLOSED`
      and gains a reference, and it is freed if the count it saw was zero;
    - otherwise `TASK_ALIVE` is cleared, and a task whose count was zero is handed to the scheduler.
  */
  lemma DetachLoopArms<T>(t: RawTask<T>, sched: Scheduler)
    requires !t.freed
    ensures var s := t.state; var r := DetachLoop(t, s, None, sched, 3);
      IsCompleted(s) && !IsClosed(s) ==>
        && (r.Ok? <==> t.payload.Output? && s.taskCount < 0xFFFF)
        && (r.Ok? ==> r.value == Detached(
              t.(state := s.(taskCount := s.taskCount + 1, flags := s.flags + SCHEDULED + CLOSED),
                 payload := Vacant, freed := s.taskCount == 0),
              Some(t.payload.value)))
    ensures var s := t.state; var r := DetachLoop(t, s, None, sched, 3);
      !(IsCompleted(s) && !IsClosed(s)) && (s.taskCount == 1 || IsClosed(s)) ==>
        && (r.Ok? <==> s.taskCount < 0xFFFF)
        && (r.Ok? ==> r.value == Detached(
              t.(state := s.(taskCount := s.taskCount + 1, flags := s.flags + SCHEDULED + CLOSED),
                 freed := s.taskCount == 0),
              None))
    ensures var s := t.state; var r := DetachLoop(t, s, None, sched, 3);
      !IsClosed(s) && !IsCompleted(s) && s.taskCount > 1 ==>
        r == Ok(Detached(t.(state := s.(flags := s.flags - TASK_ALIVE)), None))
    ensures var s := t.state; var r := DetachLoop(t, s, None, sched, 3);
      !IsClosed(s) && !IsCompleted(s) && s.taskCount == 0 ==>
        && (r.Ok? <==> Schedule(t.(state := s.(flags := s.flags - TASK_ALIVE)), sched).Ok?)
        && (r.Ok? ==> r.value.output == None && !r.value.task.freed && r.value.task.payload == t.payload)
        && (r.Ok? ==> r.value.task.handedOff > t.handedOff && !HasValidHandle(r.value.task.state))
  {
    var s := t.state;
    if IsCompleted(s) && !IsClosed(s) && t.payload.Output? {
      var emptied := t.(state := SetFlag(s, CLOSED), payload := Vacant);
      var local2 := SetFlag(SetFlag(s, CLOSED), TAKEN);
      assert IsClosed(local2) by { HasSingleFlag(local2, 3); }
      assert IsClosed(emptied.state) by { HasSingleFlag(emptied.state, 3); }
      assert DetachLoop(t, s, None, sched, 3) == DetachLoop(emptied, local2, Some(t.payload.value), sched, 2);
      if emptied.state != local2 {
        assert DetachLoop(emptied, local2, Some(t.payload.value), sched, 2) ==
          DetachLoop(emptied, emptied.state, Some(t.payload.value), sched, 1);
      } else {
        assert TAKEN <= s.flags;
      }
    } else if !IsClosed(s) && !IsCompleted(s) && s.taskCount == 0 {
      var cleared := t.(state := s.(flags := s.flags - TASK_ALIVE));
      var sr := Schedule(cleared, sched);
      if sr.Ok? {
        assert 6 !in sr.value.state.flags;
        HasSingleFlag(sr.value.state, 6);
      }
    }
  }

  /**
    Run by one thread, the retry loop never needs a fourth turn: from any state it ends with a
    result or a fault other than running out of fuel, and any fuel of three turns or more gives
    the same outcome.
  */
  lemma DetachLoopTerminates<T>(t: RawTask<T>, sched: Scheduler, fuel: nat)
    requires !t.freed && fuel >= 3
    ensures DetachLoop(t, t.state, None, sched, 3) != Fail(Diverges)
    ensures DetachLoop(t, t.state, None, sched, fuel) == DetachLoop(t, t.state, None, sched, 3)
  {
    var s := t.state;
    if IsCompleted(s) && !IsClosed(s) && t.payload.Output? {
      var emptied := t.(state := SetFlag(s, CLOSED), payload := Vacant);
      var out := Some(t.payload.value);
      var local2 := SetFlag(SetFlag(s, CLOSED), TAKEN);
      assert IsClosed(local2) by { HasSingleFlag(local2, 3); }
      assert IsClosed(emptied.state) by { HasSingleFlag(emptied.state, 3); }
      assert DetachLoop(emptied, emptied.state, out, sched, fuel - 2) == DetachLoop(emptied, emptied.state, out, sched, 1);
      assert DetachLoop(emptied, local2, out, sched, fuel - 1) == DetachLoop(emptied, local2, out, sched, 2);
      assert DetachLoop(t, s, None, sched, fuel) == DetachLoop(emptied, local2, out, sched, fuel - 1);
      assert DetachLoop(t, s, None, sched, 3) == DetachLoop(emptied, local2, out, sched, 2);
    }
  }

  /**
    A spurious failure of the fast path on a fresh task sends the untouched initial state into
    the loop, whose last-reference arm closes the task and takes a reference for a final run:
    `detach` then cancels the task it was meant to let run. With the fast path taken, the task
    stays open and only loses its handle.
  */
  lemma SpuriousDetachCloses<T>(t: RawTask<T>, sched: Scheduler)
    requires !t.freed && t.state == INITIAL_STATE
    ensures SetDetachedAsWritten(t, sched, true).Ok?
    ensures IsClosed(SetDetachedAsWritten(t, sched, true).value.task.state)
    ensures SetDetachedAsWritten(t, sched, true).value.task.state.taskCount == 2
    ensures SetDetached(t, sched).Ok? && !IsClosed(SetDetached(t, sched).value.task.state)
  {
    HasSingleFlag(t.state, 2);
    HasSingleFlag(t.state, 3);
    DetachLoopArms(t, sched);
    HasSingleFlag(SetDetachedAsWritten(t, sched, true).value.task.state, 3);
  }

  /**
    `detach`: set detached and drop whatever output that took; the handle is not dropped again.
    Afterwards no live handle is recorded for a task that stays open: either `TASK_ALIVE` is
    cleared, or the task is closed, or it is freed.
  */
  function Detach<T>(t: RawTask<T>, sched: Scheduler): (r: Res<RawTask<T>>)
    ensures r.Ok? ==> !t.freed
    ensures !t.freed && t.state == INITIAL_STATE ==> r == Ok(t.(state := DETACHED_FRESH))
    ensures r.Ok? && !r.value.freed ==> !HasValidHandle(r.value.state) || IsClosed(r.value.state)
  {
    if t.freed then Fail(Undefined)
    else if t.state == INITIAL_STATE then
      HasSingleFlag(DETACHED_FRESH, 6);
      Ok(t.(state := DETACHED_FRESH))
    else
      DetachLoopArms(t, sched);
      var d :- SetDetached(t, sched);
      HasSingleFlag(d.task.state, 3);
      HasSingleFlag(d.task.state, 6);
      HasSingleFlag(t.state, 2);
      HasSingleFlag(t.state, 3);
      Ok(d.task)
  }

  /** Dropping a `Handle`: cancel, then detach. */
  function DropHandle<T>(t: RawTask<T>, sched: Scheduler): (r: Res<RawTask<T>>)
    ensures r.Ok? ==> SetCanceled(t, sched).Ok? && Detach(SetCanceled(t, sched).value, sched) == r
    ensures SetCanceled(t, sched).Ok? ==> r == Detach(SetCanceled(t, sched).value, sched)
  {
    var canceled :- SetCanceled(t, sched);
    var d :- SetDetached(canceled, sched);
    Ok(d.task)
  }

  /**
    Dropping the handle of an idle task cancels it first, which `detach` alone does not. The
    dropped handle leaves the task closed and hands it to the scheduler once; `detach` hands it
    to nobody, and leaves it open unless it held the last task reference, where the loop's
    last-reference arm closes it as well.
  */
  lemma DropCancelsDetachDoesNot<T>(t: RawTask<T>, sched: Scheduler)
    requires IdleUnclosed(t) && HasValidHandle(t.state)
    requires 1 <= t.state.taskCount < 0xFFFC && (sched == Sized ==> t.state.wakerCount > 0)
    ensures DropHandle(t, sched).Ok? && Detach(t, sched).Ok?
    ensures IsClosed(DropHandle(t, sched).value.state) && DropHandle(t, sched).value.handedOff == t.handedOff + 1
    ensures Detach(t, sched).value.handedOff == t.handedOff
    ensures IsClosed(Detach(t, sched).value.state) <==> t.state.taskCount == 1
  {
    var s := t.state;
    HasSingleFlag(s, 0);
    HasSingleFlag(s, 3);
    assert s != INITIAL_STATE by { assert 0 !in s.flags; }
    CancelIdleSchedulesOnce(t, sched);
    var canceled := SetCanceled(t, sched).value;
    HasSingleFlag(canceled.state, 3);
    assert canceled.state != INITIAL_STATE by { assert 3 in canceled.state.flags; }
    DetachLoopArms(canceled, sched);
    DetachLoopArms(t, sched);
    HasSingleFlag(DropHandle(t, sched).value.state, 3);
    HasSingleFlag(Detach(t, sched).value.state, 3);
  }

  /**
    `Task::run`: poll the task through its vtable. A closed task only has its future dropped and
    completes. Otherwise, with nothing happening meanwhile, the run completes exactly when the
    future is ready, leaving the task completed and its output kept for the handle iff one is
    alive; a pending future leaves the task neither running nor scheduled. Either way the run's
    task reference is dropped and the scheduler is not called.
  */
  function Run<T>(t: RawTask<T>, step: FutureStep<T>, sched: Scheduler): (r: Res<Polled<T>>)
    ensures r.Ok? ==> !t.freed
    ensures !t.freed && IsClosed(t.state) && t.payload == Future && t.state.taskCount > 0 ==>
      r.Ok? && r.value.result == Complete && r.value.task.payload == Vacant
    ensures !t.freed && !IsClosed(t.state) && t.payload == Future && t.state.taskCount > 0 ==>
      && r.Ok?
      && r.value.task.handedOff == t.handedOff
      && r.value.task.state.taskCount == t.state.taskCount - 1
      && (r.value.result == Complete <==> step.Ready?)
      && (step.Ready? ==> IsCompleted(r.value.task.state) && !IsRunning(r.value.task.state))
      && (step.Ready? ==> (r.value.task.payload == Output(step.value) <==> HasValidHandle(t.state)))
      && (step.NotReady? ==> !IsRunning(r.value.task.state) && !IsScheduled(r.value.task.state))
  {
    if !t.freed && !IsClosed(t.state) && t.payload == Future && t.state.taskCount > 0 then
      QuietPoll(t, step, sched);
      var r := Poll(t, step, sched);
      HasSingleFlag(r.value.task.state, 0);
      HasSingleFlag(r.value.task.state, 1);
      HasSingleFlag(r.value.task.state, 2);
      r
    else
      Poll(t, step, sched)
  }

  /**
    `Task::schedule`: hand the task to the scheduler through its vtable. The scheduler receives
    it once; the payload is kept. A zero-sized scheduler changes nothing else; one that occupies
    memory moves one unit from the waker count to the task count, and fails iff no waker is left.
  */
  function ScheduleTask<T>(t: RawTask<T>, sched: Scheduler): (r: Res<RawTask<T>>)
    ensures r.Ok? ==> !t.freed && r.value.payload == t.payload && r.value.handedOff > t.handedOff
    ensures !t.freed && sched == ZeroSized ==> r == Ok(t.(handedOff := t.handedOff + 1))
    ensures !t.freed && sched == Sized && 1 <= t.state.taskCount < 0xFFFF ==>
      && (r.Ok? <==> t.state.wakerCount > 0)
      && (r.Ok? ==> r.value == t.(state := t.state.(taskCount := t.state.taskCount + 1, wakerCount := t.state.wakerCount - 1),
                                  handedOff := t.handedOff + 1))
  {
    Schedule(t, sched)
  }

  /** `Task::waker`: a new waker, through `clone_waker`: one more task reference, and nothing else. */
  function NewWaker<T>(t: RawTask<T>): (r: Res<RawTask<T>>)
    ensures r.Ok? <==> !t.freed && t.state.taskCount < 0xFFFF
    ensures r.Ok? ==> r.value == t.(state := t.state.(taskCount := t.state.taskCount + 1))
  {
    CloneWaker(t)
  }

  /**
    A handle cancelled while the task runs, with the future then returning pending: as written,
    `poll` never returns (a reference is dropped per turn until a fault); as intended it drops
    the future and the poll's reference and completes.
  */
  lemma CancelDuringPendingPoll<T>(t: RawTask<T>, sched: Scheduler, fuel: nat)
    requires !t.freed && !HasCompleted(t.state) && t.payload == Future && t.state.taskCount > 0
    ensures PollBegin(t, AcqRel).Ok? && PollBegin(t, AcqRel).value.InFlight?
    ensures SetCanceled(PollBegin(t, AcqRel).value.task, sched).Ok?
    ensures PollFinishAsWritten(SetCanceled(PollBegin(t, AcqRel).value.task, sched).value, PollBegin(t, AcqRel).value.local, NotReady, sched, fuel).Fail?
    ensures PollFinish(SetCanceled(PollBegin(t, AcqRel).value.task, sched).value, NotReady, sched).Ok?
    ensures PollFinish(SetCanceled(PollBegin(t, AcqRel).value.task, sched).value, NotReady, sched).value.result == Complete
  {
    HasCompletedMeansAny(t.state);
    var running := PollBegin(t, AcqRel).value.task;
    assert IsRunning(running.state) by { HasSingleFlag(running.state, 1); }
    assert !IsCompleted(running.state) && !IsClosed(running.state) by {
      HasSingleFlag(running.state, 2);
      HasSingleFlag(running.state, 3);
      HasSingleFlag(t.state, 2);
      HasSingleFlag(t.state, 3);
    }
    var canceled := SetCanceled(running, sched).value;
    assert IsClosed(canceled.state) by { HasSingleFlag(canceled.state, 3); }
    PendingLoopNeverReturns(canceled, PollBegin(t, AcqRel).value.local, false, sched, fuel);
  }
}
