/**
  Spawning a task (simeng_task/src/builder.rs): a `Builder` carries the task's metadata, and
  spawning allocates one `RawTask` and returns the runnable `Task` and the awaiting `Handle`,
  both pointing at it.
*/
module TaskBuilder {
  import opened Outcome
  import opened TaskState
  import opened TaskFlags
  import opened TaskRuntime
  import opened TaskHandle

  /** `Builder<M>`: nothing but the metadata every spawned task will carry. */
  datatype Builder<M> = Builder(metadata: M)

  /** `Builder::new`: unit metadata. */
  function NewBuilder(): Builder<()> {
    Builder(())
  }

  /** `with_metadata`: the same builder with its metadata replaced. */
  function WithMetadata<M>(b: Builder<()>, metadata: M): (r: Builder<M>)
    ensures r.metadata == metadata
  {
    Builder(metadata)
  }

  /** Futures of this many bytes or more are moved to the heap before the task is allocated. */
  const BOX_THRESHOLD: nat := 2048

  /** Where the future of a spawned task lives. */
  datatype Storage = Inline | Boxed

  /** A runnable `Task` and an awaiting `Handle` are each the address of a task allocation. */
  datatype TaskRef = TaskRef(ptr: nat)
  datatype HandleRef = HandleRef(ptr: nat)

  /** What spawning produces: the allocation, how its future is stored, and the two ends. */
  datatype Spawned<M, T> = Spawned(storage: Storage, metadata: M, raw: RawTask<T>, task: TaskRef, handle: HandleRef)

  /**
    `spawn_unchecked_`: a future of `futureSize` bytes is boxed when it is at least
    `BOX_THRESHOLD` bytes and stored inline otherwise; the allocation, placed at `at` by the
    allocator, starts in the initial state; the `Task` and the `Handle` both refer to it.
  */
  function Spawn<M, T>(b: Builder<M>, futureSize: nat, at: nat): (r: Spawned<M, T>)
    ensures r.storage == Boxed <==> futureSize >= BOX_THRESHOLD
    ensures r.task.ptr == at && r.handle.ptr == at
    ensures r.metadata == b.metadata
    ensures r.raw.state == INITIAL_STATE && r.raw.payload == Future && r.raw.handedOff == 0 && !r.raw.freed
  {
    var storage := if futureSize >= BOX_THRESHOLD then Boxed else Inline;
    Spawned(storage, b.metadata, Allocate(), TaskRef(at), HandleRef(at))
  }

  /**
    The builder's own test, step by step: spawn `1 + 2` with a scheduler that captures a channel
    (so it occupies memory), schedule it once, take a waker, run it, and poll the handle.

    As written, the test panics in its first step: `t.schedule()` drops the schedule's temporary
    waker through `drop_waker`, whose first store asks for `AcqRel`. With the corrected runtime
    the task reaches the scheduler exactly once, `run` returns `Complete`, and the handle's poll
    is `Ready(3)`; from the same state, `poll` as written never returns, whatever the number of
    turns its loop is given. Dropping the test's waker at the end then underflows the waker
    count: `clone_waker` raises the task count while `drop_waker` lowers the waker count, so the
    schedule's temporary waker already used up the one unit the waker count started with.
  */
  lemma EndToEnd(fuel: nat)
    ensures
      var spawned: Spawned<(), int> := Spawn(NewBuilder(), 0, 0);
      var scheduled := ScheduleTask(spawned.raw, Sized);
      && ScheduleAsWritten(spawned.raw, Sized) == Fail(InvalidOrdering)
      && scheduled.Ok? && scheduled.value.handedOff == 1
      && var waked := NewWaker(scheduled.value);
         && waked.Ok?
         && PollAsWritten(waked.value, Ready(3), Sized, fuel) == Fail(Diverges)
         && var ran := Run(waked.value, Ready(3), Sized);
            && ran.Ok? && ran.value.result == Complete && ran.value.task.handedOff == 1
            && var polled := HandlePollFuture(ran.value.task);
               && polled.Ok? && polled.value.1 == ReadyWith(3)
               && DropWaker(polled.value.0, Sized) == Fail(CountUnderflow)
  {
    var spawned: Spawned<(), int> := Spawn(NewBuilder(), 0, 0);
    var t0 := spawned.raw;
    assert t0 == RawTask(State(1, 1, {0, 6}), Future, 0, false);

    var guarded := t0.(state := State(1, 2, {0, 6}));
    assert CloneWaker(t0) == Ok(guarded);
    var t1 := guarded.(state := State(0, 2, {0, 6}), handedOff := 1);
    assert !NeedsFinalSchedule(t1.state) && !NeedsFree(t1.state);
    assert DropWaker(guarded.(handedOff := 1), Sized) == Ok(t1);
    assert ScheduleTask(t0, Sized) == Ok(t1);

    var t2 := t1.(state := State(0, 3, {0, 6}));
    assert NewWaker(t1) == Ok(t2);

    HasSingleFlag(t2.state, 3);
    HasSingleFlag(t2.state, 6);
    ReadyPollNeverReturns(t2, 3, Sized, fuel);
    QuietPoll(t2, Ready(3), Sized);
    var ran := Run(t2, Ready(3), Sized).value;
    assert ran.task.state == State(0, 2, {2, 6});
    assert ran.task.payload == Output(3);

    var done := ran.task;
    HasSingleFlag(done.state, 5);
    HasSingleFlag(done.state, 3);
    HasSingleFlag(done.state, 2);
    var polled := HandlePollFuture(done);
    assert polled.Ok? && polled.value.1 == ReadyWith(3);
    assert polled.value.0.state.wakerCount == 0;
  }
}
