/**
  The flag bits of a task state and the named queries on them (simeng_task/src/flags.rs).

  `TASK_ALIVE`, which the runtime uses for "a `Handle` still exists", is the `HANDLE_HERE` bit, and
  `CANCELLED` is the bit its commented-out definition gives, `1 << 4`.
*/
module TaskFlags {
  import opened Bits
  import opened TaskState

  const SCHEDULED: Mask := {0}
  const RUNNING: Mask := {1}
  const COMPLETED: Mask := {2}
  const CLOSED: Mask := {3}
  const CANCELLED: Mask := {4}
  const TAKEN: Mask := {5}
  const HANDLE_HERE: Mask := {6}
  const TASK_ALIVE: Mask := HANDLE_HERE
  const WAKER_IN_HERE: Mask := {7}
  const WAKER_REGISTERING: Mask := {8}
  const WAKER_NOTIFYING: Mask := {9}

  /** Every flag, in declaration order. */
  const AllFlags: seq<Mask> := [SCHEDULED, RUNNING, COMPLETED, CLOSED, CANCELLED, TAKEN,
                                HANDLE_HERE, WAKER_IN_HERE, WAKER_REGISTERING, WAKER_NOTIFYING]

  /** The numeric values of the constants are `1 << 0` through `1 << 9`. */
  lemma FlagValues()
    ensures FlagWord(SCHEDULED) == 1 && FlagWord(RUNNING) == 2 && FlagWord(COMPLETED) == 4
    ensures FlagWord(CLOSED) == 8 && FlagWord(CANCELLED) == 16 && FlagWord(TAKEN) == 32
    ensures FlagWord(HANDLE_HERE) == 64 && FlagWord(WAKER_IN_HERE) == 128
    ensures FlagWord(WAKER_REGISTERING) == 256 && FlagWord(WAKER_NOTIFYING) == 512
  {
    assert Pow2(4) == 16 by { assert Pow2(2) == 4; Pow2Add(2, 2); }
    assert Pow2(8) == 256 by { Pow2Add(4, 4); }
    assert Pow2(5) == 32 && Pow2(6) == 64 && Pow2(7) == 128 by { assert Pow2(3) == 8; Pow2Add(4, 3); }
    assert Pow2(9) == 512;
    forall k: nat | k < 10 ensures Word({k}, 32) == Pow2(k) {
      WordOfSingleBit(k, 32);
    }
  }

  /**
    The constants are pairwise-distinct single bits, all of them below bit 16, so each fits the
    `u16` the constants are declared with.
  */
  lemma FlagsAreDistinctBits()
    ensures forall i :: 0 <= i < |AllFlags| ==> |AllFlags[i]| == 1
    ensures forall i, j :: 0 <= i < j < |AllFlags| ==> AllFlags[i] !! AllFlags[j]
    ensures forall i :: 0 <= i < |AllFlags| ==> Below(AllFlags[i], 16)
  {
  }

  predicate IsCompleted(s: State) { HasFlagSet(s, COMPLETED) }
  predicate IsClosed(s: State) { HasFlagSet(s, CLOSED) }
  predicate IsScheduled(s: State) { HasFlagSet(s, SCHEDULED) }
  predicate IsRunning(s: State) { HasFlagSet(s, RUNNING) }
  predicate HasBeenTaken(s: State) { HasFlagSet(s, TAKEN) }
  predicate HasValidHandle(s: State) { HasFlagSet(s, HANDLE_HERE) }

  /** The six queries of flags.rs, each paired with the one flag it is meant to test. */
  datatype Query = Completed | Closed | Scheduled | Running | Taken | ValidHandle

  /** The bit each query's flag occupies. */
  function BitOf(q: Query): Bit {
    match q
    case Completed => 2
    case Closed => 3
    case Scheduled => 0
    case Running => 1
    case Taken => 5
    case ValidHandle => 6
  }

  /** The answer a state gives to a query, through the named predicates. */
  predicate Answer(s: State, q: Query) {
    match q
    case Completed => IsCompleted(s)
    case Closed => IsClosed(s)
    case Scheduled => IsScheduled(s)
    case Running => IsRunning(s)
    case Taken => HasBeenTaken(s)
    case ValidHandle => HasValidHandle(s)
  }

  /**
    The flag a query tests: a single bit of the flag constants, and the query holds of a state
    exactly when that bit is set.
  */
  function QueryFlag(q: Query): (m: Mask)
    ensures m in AllFlags && m == {BitOf(q)}
    ensures forall s: State :: Answer(s, q) <==> BitOf(q) in s.flags
  {
    assert forall s: State :: Answer(s, q) <==> BitOf(q) in s.flags by {
      forall s: State
        ensures Answer(s, q) <==> BitOf(q) in s.flags
      {
        HasSingleFlag(s, BitOf(q));
      }
    }
    match q
    case Completed => COMPLETED
    case Closed => CLOSED
    case Scheduled => SCHEDULED
    case Running => RUNNING
    case Taken => TAKEN
    case ValidHandle => HANDLE_HERE
  }

  /**
    Setting or clearing one flag changes only the query that tests that flag: every other
    query answers as before.
  */
  lemma OtherQueriesUnchanged(s: State, q: Query, f: Mask)
    requires f in AllFlags
    ensures f != QueryFlag(q) ==> (Answer(SetFlag(s, f), q) <==> Answer(s, q))
    ensures f != QueryFlag(q) ==> (Answer(ClearFlag(s, f), q) <==> Answer(s, q))
    ensures f == QueryFlag(q) ==> Answer(SetFlag(s, f), q) && !Answer(ClearFlag(s, f), q)
  {
    FlagsAreDistinctBits();
    var m := QueryFlag(q);
    var i :| 0 <= i < |AllFlags| && AllFlags[i] == f;
    var j :| 0 <= j < |AllFlags| && AllFlags[j] == QueryFlag(q);
    if f != QueryFlag(q) {
      assert i != j;
      assert f !! QueryFlag(q);
    }
  }
}
