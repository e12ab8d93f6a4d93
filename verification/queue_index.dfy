/**
  Index arithmetic of the unbounded segment queue (concurrent_queue/src/unbounded.rs).

  A head or tail index is `seq << SHIFT | mark`: a sequence number and one mark bit. Sequence
  numbers run in laps of `LAP` positions; the first `BLOCK_CAP` positions of a lap are the slots
  of one block, and the last position of each lap holds no value but marks that the next block is
  being installed. Indices are unbounded here: `usize` wrap-around after 2^63 positions is not
  modelled.
*/
module QueueIndex {

  const LAP: nat := 32
  const BLOCK_CAP: nat := LAP - 1
  const SHIFT: nat := 1
  const MARK_BIT: nat := 1

  /** `1 << SHIFT`: one sequence step. */
  const STEP: nat := 2

  /** `i >> SHIFT`. */
  function Seq(i: nat): nat { i / STEP }

  /** `i & MARK_BIT != 0`. */
  predicate Marked(i: nat) { i % STEP == MARK_BIT }

  /** `(i >> SHIFT) % LAP`: the position of the index inside its lap. */
  function Offset(i: nat): nat { Seq(i) % LAP }

  /** `(i >> SHIFT) / LAP`: the lap, which identifies the block. */
  function Lap(i: nat): nat { Seq(i) / LAP }

  /** The index with sequence number `n` and the given mark. */
  function MakeIndex(n: nat, mark: bool): (i: nat)
    ensures Seq(i) == n && Marked(i) == mark
  {
    n * STEP + if mark then MARK_BIT else 0
  }

  /** An index is determined by its sequence number and its mark, and its lap and offset split the sequence number. */
  lemma IndexRoundTrip(i: nat)
    ensures MakeIndex(Seq(i), Marked(i)) == i
    ensures Offset(i) < LAP && Lap(i) * LAP + Offset(i) == Seq(i)
  {
  }

  /** `i + (1 << SHIFT)`: the next sequence number, with the mark bit untouched. */
  function Advance(i: nat): (j: nat)
    ensures Seq(j) == Seq(i) + 1 && Marked(j) == Marked(i)
  {
    i + STEP
  }

  /** `i | MARK_BIT`. */
  function Mark(i: nat): (j: nat)
    ensures Seq(j) == Seq(i) && Marked(j)
  {
    if Marked(i) then i else i + MARK_BIT
  }

  /** `i & !MARK_BIT`: the lower bits erased. */
  function Unmark(i: nat): (j: nat)
    ensures Seq(j) == Seq(i) && !Marked(j)
  {
    if Marked(i) then i - MARK_BIT else i
  }

  /** Marking and unmarking change only the mark: each undoes the other. */
  lemma MarkUnmark(i: nat)
    ensures Mark(Unmark(i)) == Mark(i) && Unmark(Mark(i)) == Unmark(i)
    ensures Marked(i) ==> Mark(i) == i
    ensures !Marked(i) ==> Unmark(i) == i
  {
  }

  /** The number of value positions (every offset but the last of each lap) in `[a, b)`. */
  function Count(a: nat, b: nat): nat
    decreases b
  {
    if b <= a then 0 else Count(a, b - 1) + (if (b - 1) % LAP == BLOCK_CAP then 0 else 1)
  }

  /** Counting by arithmetic: the positions in `[a, b)` less one per lap boundary crossed. */
  lemma {:induction false} CountByLaps(a: nat, b: nat)
    requires a <= b
    ensures Count(a, b) == (b - a) - (b / LAP - a / LAP)
    decreases b
  {
    if b > a {
      CountByLaps(a, b - 1);
      assert b / LAP - (b - 1) / LAP == (if (b - 1) % LAP == BLOCK_CAP then 1 else 0);
    }
  }

  /**
    `len` computed from the two indices as the source does: erase the mark bits, step over a
    lap's last position, rotate both indices back by the head's lap, and subtract, less one
    position per block the rotated tail has crossed. It is an `int`: a head past its tail (which
    a quiescent queue never has) would underflow the `usize` subtraction.
  */
  function Len(head: nat, tail: nat): int {
    var t0 := Unmark(tail);
    var h0 := Unmark(head);
    var t1 := StepOver(t0);
    var h1 := StepOver(h0);
    var lap := Lap(h1);
    var t2 := t1 - lap * LAP * STEP;
    var h2 := h1 - lap * LAP * STEP;
    var t3 := t2 / STEP;
    var h3 := h2 / STEP;
    t3 - h3 - t3 / LAP
  }

  /** One step of `len`'s fix-up: stepping an unmarked index over a lap's last position. */
  function StepOver(i: nat): nat {
    if Offset(i) == LAP - 1 then i + STEP else i
  }

  lemma StepOverSeq(i: nat)
    requires !Marked(i)
    ensures !Marked(StepOver(i)) && StepOver(i) == STEP * Seq(StepOver(i))
    ensures Seq(StepOver(i)) == if Seq(i) % LAP == LAP - 1 then Seq(i) + 1 else Seq(i)
  {
  }

  /**
    However the marks are set, `len` counts the value positions from the head's sequence number
    up to the tail's: the values pushed and not yet popped of a quiescent queue.
  */
  lemma LenCountsValues(head: nat, tail: nat)
    requires Seq(head) <= Seq(tail)
    ensures Len(head, tail) == Count(Seq(head), Seq(tail))
  {
    var t1 := StepOver(Unmark(tail));
    var h1 := StepOver(Unmark(head));
    StepOverSeq(Unmark(tail));
    StepOverSeq(Unmark(head));
    var lap := Lap(h1);
    var b1 := Seq(t1);
    var a1 := Seq(h1);
    assert (t1 - lap * LAP * STEP) / STEP == b1 - lap * LAP;
    assert (h1 - lap * LAP * STEP) / STEP == a1 - lap * LAP;
    assert Len(head, tail) == (b1 - lap * LAP) - (a1 - lap * LAP) - (b1 - lap * LAP) / LAP;
    LenArithmetic(Seq(head), Seq(tail));
  }

  /** The arithmetic behind `Len`, on sequence numbers. */
  lemma LenArithmetic(a: nat, b: nat)
    requires a <= b
    ensures
      var b1 := if b % LAP == LAP - 1 then b + 1 else b;
      var a1 := if a % LAP == LAP - 1 then a + 1 else a;
      var lap := a1 / LAP;
      (b1 - lap * LAP) - (a1 - lap * LAP) - (b1 - lap * LAP) / LAP == Count(a, b)
  {
    var b1 := if b % LAP == LAP - 1 then b + 1 else b;
    var a1 := if a % LAP == LAP - 1 then a + 1 else a;
    var lap := a1 / LAP;
    CountByLaps(a, b);
    assert b1 / LAP - a1 / LAP == b / LAP - a / LAP + (if b % LAP == LAP - 1 then 1 else 0) - (if a % LAP == LAP - 1 then 1 else 0);
    assert (b1 - lap * LAP) / LAP == b1 / LAP - lap;
  }

  /** `is_empty`: the two sequence numbers agree. */
  predicate IsEmpty(head: nat, tail: nat) {
    Seq(head) == Seq(tail)
  }

  /** With the head off a lap's last position, the queue is empty exactly when `len` is zero. */
  lemma EmptyIffLenZero(head: nat, tail: nat)
    requires Seq(head) <= Seq(tail) && Offset(head) != LAP - 1
    ensures IsEmpty(head, tail) <==> Len(head, tail) == 0
  {
    LenCountsValues(head, tail);
    if Seq(head) < Seq(tail) {
      CountFirst(Seq(head), Seq(tail));
    }
  }

  /** A range starting at a value position counts at least that position. */
  lemma {:induction false} CountFirst(a: nat, b: nat)
    requires a < b && a % LAP != BLOCK_CAP
    ensures Count(a, b) >= 1
    decreases b
  {
    if b - 1 > a {
      CountFirst(a, b - 1);
    }
  }
}
