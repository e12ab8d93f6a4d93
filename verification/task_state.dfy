/**
  The packed task state of the `simeng_task` runtime (simeng_task/src/state.rs).

  A `State` is two 16-bit reference counts and a 32-bit flag word that together fill the one
  `AtomicU64` of an `AtomicState`. The crate text declares a single `reference_count: u32`, while
  every user of the state reads `waker_reference_count` and `task_reference_count`; this model
  follows the users. The counts are 16 bits wide, as the `"u16 overflow"` panic message says, so
  that the three fields fit the 64-bit atomic word the `transmute` into `u64` needs.

  The flag word is kept as the set of its set bit positions: `flags | mask` is `flags + mask`,
  `flags & !mask` is `flags - mask`, and `flags & mask != 0` is `flags * mask != {}`.

  `increment_reference_count` and `decrement_reference_count` act on the task count (the runtime
  inspects `task_reference_count` right after calling them); the runtime's `decrement_waker_count`
  acts on the waker count.
*/
module TaskState {
  import opened Outcome
  import opened Bits

  /** A flag mask: the bit positions it sets. */
  type Mask = set<Bit>

  /** The unpacked value of the atomic word. */
  datatype State = State(wakerCount: U16, taskCount: U16, flags: Mask)

  /** The 32-bit number a flag mask stands for. */
  function FlagWord(m: Mask): (n: U32)
    ensures BitsOf(n, 32) == m
  {
    BitsOfWord(m, 32);
    Pow2Widths();
    Word(m, 32)
  }

  /**
    `State::as_usize`: the `transmute` of the `repr(C)` struct into a `u64` on a little-endian
    target, so the waker count is the low half-word, then the task count, then the flags.
  */
  function AsU64(s: State): U64 {
    s.wakerCount + 0x1_0000 * s.taskCount + 0x1_0000_0000 * FlagWord(s.flags)
  }

  /** `State::from_usize`, the inverse `transmute`: every 64-bit word is some state. */
  function FromU64(raw: U64): (s: State)
    ensures AsU64(s) == raw
  {
    var flagBits := raw / 0x1_0000_0000;
    Pow2Widths();
    WordOfBits(flagBits, 32);
    SplitWord(raw);
    State(raw % 0x1_0000, raw / 0x1_0000 % 0x1_0000, BitsOf(flagBits, 32))
  }

  /** The three fields are the digits of the packed word in base 2^16, 2^16 and 2^32. */
  lemma JoinWord(w: U16, t: U16, f: nat)
    ensures (w + 0x1_0000 * t + 0x1_0000_0000 * f) % 0x1_0000 == w
    ensures (w + 0x1_0000 * t + 0x1_0000_0000 * f) / 0x1_0000 % 0x1_0000 == t
    ensures (w + 0x1_0000 * t + 0x1_0000_0000 * f) / 0x1_0000_0000 == f
  {
    var n := w + 0x1_0000 * t + 0x1_0000_0000 * f;
    assert n == (t + 0x1_0000 * f) * 0x1_0000 + w;
    assert n / 0x1_0000 == t + 0x1_0000 * f;
    assert n == f * 0x1_0000_0000 + (w + 0x1_0000 * t);
  }

  lemma SplitWord(n: nat)
    ensures n == n % 0x1_0000 + 0x1_0000 * (n / 0x1_0000 % 0x1_0000) + 0x1_0000_0000 * (n / 0x1_0000_0000)
  {
    var h := n / 0x1_0000;
    assert n == 0x1_0000 * h + n % 0x1_0000;
    assert h == 0x1_0000 * (h / 0x1_0000) + h % 0x1_0000;
    assert h / 0x1_0000 == n / 0x1_0000_0000;
  }

  /** Packing loses nothing: unpacking a packed state gives it back, so packing is injective. */
  lemma PackRoundTrip(a: State, b: State)
    ensures FromU64(AsU64(a)) == a
    ensures AsU64(a) == AsU64(b) ==> a == b
  {
    Unpacks(a);
    Unpacks(b);
  }

  lemma Unpacks(a: State)
    ensures FromU64(AsU64(a)) == a
  {
    var f: int := FlagWord(a.flags);
    var n: int := AsU64(a);
    assert n == a.wakerCount + 0x1_0000 * a.taskCount + 0x1_0000_0000 * f;
    JoinWord(a.wakerCount, a.taskCount, f);
    assert FromU64(n) == State(n % 0x1_0000, n / 0x1_0000 % 0x1_0000, BitsOf(n / 0x1_0000_0000, 32));
  }

  /** `increment_reference_count`: add one to the task count, panicking instead of wrapping. */
  function IncrementReferenceCount(s: State): (r: Res<State>)
    ensures r.Ok? <==> s.taskCount < 0xFFFF
    ensures r.Fail? ==> r.fault == CountOverflow
    ensures r.Ok? ==> r.value == s.(taskCount := s.taskCount + 1)
  {
    if s.taskCount == 0xFFFF then Fail(CountOverflow) else Ok(s.(taskCount := s.taskCount + 1))
  }

  /**
    `decrement_reference_count` as intended: subtract one from a positive task count. A call at
    zero is the caller's error, which the `debug_assert!` is evidently meant to catch.
  */
  function DecrementReferenceCount(s: State): (r: Res<State>)
    ensures r.Ok? <==> s.taskCount > 0
    ensures r.Fail? ==> r.fault == CountUnderflow
    ensures r.Ok? ==> r.value == s.(taskCount := s.taskCount - 1)
  {
    if s.taskCount == 0 then Fail(CountUnderflow) else Ok(s.(taskCount := s.taskCount - 1))
  }

  /** Incrementing and then decrementing the task count is the identity. */
  lemma IncrementDecrementInverse(s: State)
    requires s.taskCount < 0xFFFF
    ensures DecrementReferenceCount(IncrementReferenceCount(s).value) == Ok(s)
  {
  }

  /**
    `decrement_reference_count` as written: `debug_assert!(self.reference_count == 0)` followed
    by `-= 1`. In a debug build the assertion fires for every positive count and the subtraction
    overflows for a zero count; in a release build neither check exists and zero wraps around.
  */
  function DecrementReferenceCountAsWritten(s: State, debugBuild: bool): Res<State> {
    if debugBuild then
      if s.taskCount != 0 then Fail(AssertionFailed) else Fail(CountUnderflow)
    else
      Ok(s.(taskCount := (s.taskCount - 1) % 0x1_0000))
  }

  /**
    The inverted assertion: in a debug build every decrement panics, including each one the
    runtime makes on a live task; in a release build a decrement at zero wraps to 65535 where
    the intended version reports an underflow. The intended version agrees with the release
    build on every positive count.
  */
  lemma DecrementAssertionInverted(s: State)
    ensures DecrementReferenceCountAsWritten(s, true).Fail?
    ensures s.taskCount > 0 ==> DecrementReferenceCountAsWritten(s, true).fault == AssertionFailed
    ensures s.taskCount == 0 ==> DecrementReferenceCountAsWritten(s, false) == Ok(s.(taskCount := 0xFFFF))
    ensures s.taskCount == 0 ==> DecrementReferenceCount(s).Fail?
    ensures s.taskCount > 0 ==> DecrementReferenceCountAsWritten(s, false) == DecrementReferenceCount(s)
  {
  }

  /** `decrement_waker_count`: subtract one from a positive waker count. */
  function DecrementWakerCount(s: State): (r: Res<State>)
    ensures r.Ok? <==> s.wakerCount > 0
    ensures r.Fail? ==> r.fault == CountUnderflow
    ensures r.Ok? ==> r.value == s.(wakerCount := s.wakerCount - 1)
  {
    if s.wakerCount == 0 then Fail(CountUnderflow) else Ok(s.(wakerCount := s.wakerCount - 1))
  }

  /** `has_flag_set`: whether ANY bit of `mask` is set. */
  predicate HasFlagSet(s: State, mask: Mask) {
    s.flags * mask != {}
  }

  /** `set_flag`: every bit of `mask` ends up set and nothing else changes. */
  function SetFlag(s: State, mask: Mask): (r: State)
    ensures mask <= r.flags
    ensures r.flags - mask == s.flags - mask
    ensures r.wakerCount == s.wakerCount && r.taskCount == s.taskCount
  {
    s.(flags := s.flags + mask)
  }

  /** `clear_flag`: every bit of `mask` ends up clear and nothing else changes. */
  function ClearFlag(s: State, mask: Mask): (r: State)
    ensures r.flags !! mask
    ensures r.flags - mask == s.flags - mask
    ensures r.wakerCount == s.wakerCount && r.taskCount == s.taskCount
  {
    s.(flags := s.flags - mask)
  }

  /**
    After `set_flag(mask)` the state answers yes to `has_flag_set(mask)`; after `clear_flag(mask)`
    it answers no; a query about bits outside the mask is answered as before.
  */
  lemma SetClearQuery(s: State, mask: Mask, query: Mask)
    ensures mask != {} ==> HasFlagSet(SetFlag(s, mask), mask)
    ensures !HasFlagSet(ClearFlag(s, mask), mask)
    ensures query !! mask ==> (HasFlagSet(SetFlag(s, mask), query) <==> HasFlagSet(s, query))
    ensures query !! mask ==> (HasFlagSet(ClearFlag(s, mask), query) <==> HasFlagSet(s, query))
  {
    if mask != {} {
      var i :| i in mask;
      assert i in SetFlag(s, mask).flags * mask;
    }
    if query !! mask {
      assert SetFlag(s, mask).flags * query == s.flags * query;
      assert ClearFlag(s, mask).flags * query == s.flags * query;
    }
  }

  /**
    A mask of several flags asks "any of them", not "all of them": the query distributes over
    `|`, and a state with only one of two flags already answers yes.
  */
  lemma HasFlagSetMeansAny(s: State, a: Mask, b: Mask)
    ensures HasFlagSet(s, a + b) <==> HasFlagSet(s, a) || HasFlagSet(s, b)
    ensures HasFlagSet(State(0, 0, {0}), {0, 1}) && !({0, 1} <= State(0, 0, {0}).flags)
  {
    if HasFlagSet(s, a + b) {
      var i :| i in s.flags * (a + b);
      if i in a { assert i in s.flags * a; } else { assert i in s.flags * b; }
    }
    assert 0 in State(0, 0, {0}).flags * {0, 1};
  }

  /** A single-flag query is a membership test. */
  lemma HasSingleFlag(s: State, i: Bit)
    ensures HasFlagSet(s, {i}) <==> i in s.flags
  {
    if i in s.flags { assert i in s.flags * {i}; }
  }

  /** The `AtomicU64` inside an `AtomicState`. */
  datatype AtomicState = AtomicState(value: U64)

  /** `AtomicState::new`. */
  function NewAtomicState(initial: State): (a: AtomicState)
    ensures Load(a) == initial
  {
    PackRoundTrip(initial, initial);
    AtomicState(AsU64(initial))
  }

  /** `AtomicState::load`. */
  function Load(a: AtomicState): State {
    FromU64(a.value)
  }

  /** `AtomicState::store`: a later load returns exactly the stored state. */
  function Store(a: AtomicState, s: State): (r: AtomicState)
    ensures Load(r) == s
  {
    PackRoundTrip(s, s);
    AtomicState(AsU64(s))
  }

  /** `core::sync::atomic::Ordering`. */
  datatype Ordering = Relaxed | Release | Acquire | AcqRel | SeqCst

  /** A store has nothing to acquire: `AtomicU64::store` panics on `Acquire` and `AcqRel`. */
  predicate StoreAccepts(ordering: Ordering) {
    ordering != Acquire && ordering != AcqRel
  }

  /**
    `AtomicState::store` with the ordering it passes on to `AtomicU64::store`: an ordering a store
    cannot honour panics before anything is written, any other stores the state.
  */
  function StoreOrdered(a: AtomicState, s: State, ordering: Ordering): (r: Res<AtomicState>)
    ensures r.Ok? <==> ordering in {Relaxed, Release, SeqCst}
    ensures r.Fail? ==> r.fault == InvalidOrdering
    ensures r.Ok? ==> Load(r.value) == s
  {
    if StoreAccepts(ordering) then Ok(Store(a, s)) else Fail(InvalidOrdering)
  }

  /** The `Result<State, State>` that `compare_exchange_weak` returns. */
  datatype Exchange = Exchanged(previous: State) | NotExchanged(current: State)

  /**
    `AtomicState::compare_exchange_weak`, as one atomic step. `spurious` stands for the weak
    exchange's licence to fail even when the values match.
  */
  function CompareExchangeWeak(a: AtomicState, expected: State, desired: State, spurious: bool): (r: (AtomicState, Exchange))
    ensures r.1.Exchanged? ==> Load(a) == expected && Load(r.0) == desired && r.1.previous == expected
    ensures r.1.NotExchanged? ==> r.0 == a && r.1.current == Load(a)
    ensures Load(a) != expected ==> r.1.NotExchanged?
    ensures !spurious && Load(a) == expected ==> r.1.Exchanged?
  {
    PackRoundTrip(expected, expected);
    if !spurious && a.value == AsU64(expected) then
      (Store(a, desired), Exchanged(FromU64(a.value)))
    else
      (a, NotExchanged(FromU64(a.value)))
  }

  /**
    `AtomicState::with`: load, apply `f`, store what `f` left behind, and return `f`'s result.
    Run on its own it stores exactly `f` of the loaded state.
  */
  function With<R>(a: AtomicState, f: State -> (State, R)): (r: (AtomicState, R))
    ensures Load(r.0) == f(Load(a)).0
    ensures r.1 == f(Load(a)).1
  {
    var s := Load(a);
    var (s', result) := f(s);
    (Store(a, s'), result)
  }

  /**
    `with` is a load followed by a separate store, not a read-modify-write: a store that
    another thread makes between the two is overwritten and lost.
  */
  function WithInterleaved<R>(a: AtomicState, f: State -> (State, R), other: State): AtomicState {
    var s := Load(a);
    var between := Store(a, other);
    Store(between, f(s).0)
  }

  lemma WithLosesInterleavedStore<R>(a: AtomicState, f: State -> (State, R), other: State)
    ensures Load(WithInterleaved(a, f, other)) == f(Load(a)).0
    ensures WithInterleaved(a, f, other) == With(a, f).0
  {
  }
}
