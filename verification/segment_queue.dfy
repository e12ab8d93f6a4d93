/**
  The unbounded segment queue (concurrent_queue/src/unbounded.rs), run single-threaded.

  Values live in blocks of `BLOCK_CAP` slots, chained from the head's block to the tail's. A block
  is identified by its lap: the block holding sequence numbers `lap * LAP` up to
  `lap * LAP + BLOCK_CAP - 1` is `blocks[lap]`, and `live` is the set of blocks currently
  allocated. Each compare-and-swap is one step that succeeds; a step that would wait for another
  thread (a block being installed, a slot being written) waits forever with no other thread, and
  is `Diverges`. Touching freed or missing memory is `Undefined`.
*/
module SegmentQueue {
  import opened Outcome
  import opened QueueIndex

  /** A slot: the value cell and the `WRITE`, `READ` and `DESTROY` bits of its state word. */
  datatype Slot<T> = Slot(value: Option<T>, written: bool, read: bool, destroy: bool)

  function EmptySlot<T>(): Slot<T> {
    Slot(None, false, false, false)
  }

  /** A slot nobody has touched: no value, no bit set. */
  predicate Unused<T>(s: Slot<T>) {
    s.value.None? && !s.written && !s.read && !s.destroy
  }

  /** A block: the pointer to the next block and `BLOCK_CAP` slots. */
  datatype Block<T> = Block(next: Option<nat>, slots: seq<Slot<T>>)

  function NewBlock<T>(): (b: Block<T>)
    ensures b.next == None && |b.slots| == BLOCK_CAP
    ensures forall i :: 0 <= i < |b.slots| ==> Unused(b.slots[i])
  {
    Block(None, seq(BLOCK_CAP, _ => EmptySlot()))
  }

  /** Head and tail (index and block pointer), the blocks by lap, and the allocated blocks. */
  datatype Queue<T> = Queue(head: nat, headBlock: Option<nat>, tail: nat, tailBlock: Option<nat>,
                            blocks: map<nat, Block<T>>, live: set<nat>)

  /** `Unbounded::new`: both indices zero, no block yet. */
  function New<T>(): Queue<T> {
    Queue(0, None, 0, None, map[], {})
  }

  /** What `push` returns: `Ok(())`, or `PushError::Closed` handing the value back. */
  datatype PushOutcome<T> = Pushed | Refused(value: T)

  /** What `pop` returns: the value, or `PopError::Empty`, or `PopError::Closed`. */
  datatype PopOutcome<T> = Popped(value: T) | Empty | Closed

  /** The slot holding sequence number `p` (an empty slot where there is none). */
  function SlotAt<T>(blocks: map<nat, Block<T>>, p: nat): Slot<T> {
    var lap := p / LAP;
    var offset := p % LAP;
    if lap in blocks && offset < |blocks[lap].slots| then blocks[lap].slots[offset] else EmptySlot()
  }

  /** The value at sequence number `p`, as a sequence of zero or one values. */
  function Elem<T>(blocks: map<nat, Block<T>>, p: nat): seq<T> {
    if p % LAP == BLOCK_CAP then []
    else match SlotAt(blocks, p).value
      case None => []
      case Some(v) => [v]
  }

  /** The values at sequence numbers `[a, b)`, in order. */
  function Collect<T>(blocks: map<nat, Block<T>>, a: nat, b: nat): seq<T>
    decreases b
  {
    if b <= a then [] else Collect(blocks, a, b - 1) + Elem(blocks, b - 1)
  }

  /** The queue as a FIFO sequence: the values from the head up to the tail. */
  function Contents<T>(q: Queue<T>): seq<T> {
    Collect(q.blocks, Seq(q.head), Seq(q.tail))
  }

  /** The laps `[lo, hi)`. */
  function Laps(lo: nat, hi: nat): (r: set<nat>)
    ensures forall lap :: lap in r <==> lo <= lap < hi
    decreases hi
  {
    if hi <= lo then {} else Laps(lo, hi - 1) + {hi - 1}
  }

  /** The blocks from the head's to the tail's. */
  function Chain<T>(q: Queue<T>): set<nat> {
    if q.tailBlock.None? then {} else Laps(Lap(q.head), Lap(q.tail) + 1)
  }

  /** A slot between head and tail: written, not yet read. */
  predicate Holding<T>(s: Slot<T>) {
    s.value.Some? && s.written && !s.read && !s.destroy
  }

  /** A slot of the head's block that has been popped: read and empty. */
  predicate Consumed<T>(s: Slot<T>) {
    s.value.None? && s.written && s.read && !s.destroy
  }

  /** The indices of a quiescent queue. */
  predicate ValidIndices<T>(q: Queue<T>) {
    && Seq(q.head) <= Seq(q.tail)
    && Offset(q.head) != BLOCK_CAP && Offset(q.tail) != BLOCK_CAP
    && (Marked(q.head) ==> Lap(q.head) < Lap(q.tail))
    && (q.tailBlock.None? ==> q.headBlock.None? && q.head == 0 && Seq(q.tail) == 0 && q.live == {})
    && (q.tailBlock.Some? ==> q.headBlock == Some(Lap(q.head)) && q.tailBlock == Some(Lap(q.tail)))
  }

  /** Every block from the head's to the tail's exists and links to the next, the tail's to none. */
  predicate Linked<T>(q: Queue<T>) {
    forall lap :: lap in Chain(q) ==>
      && lap in q.blocks && |q.blocks[lap].slots| == BLOCK_CAP
      && q.blocks[lap].next == (if lap < Lap(q.tail) then Some(lap + 1) else None)
  }

  /** The block chain of a quiescent queue: every block from head to tail, linked, and nothing else allocated. */
  predicate ValidChain<T>(q: Queue<T>) {
    q.live == Chain(q) && Linked(q)
  }

  /** The slots of a quiescent queue: popped before the head, holding up to the tail, empty after. */
  predicate ValidSlots<T>(q: Queue<T>) {
    q.tailBlock.Some? ==>
      && (forall p: nat :: Lap(q.head) * LAP <= p < Seq(q.head) ==> Consumed(SlotAt(q.blocks, p)))
      && (forall p: nat :: Seq(q.head) <= p < Seq(q.tail) && p % LAP != BLOCK_CAP ==> Holding(SlotAt(q.blocks, p)))
      && (forall p: nat :: Seq(q.tail) <= p < Lap(q.tail) * LAP + BLOCK_CAP ==> Unused(SlotAt(q.blocks, p)))
  }

  /** A queue no operation is in the middle of. */
  predicate Valid<T>(q: Queue<T>) {
    ValidIndices(q) && ValidChain(q) && ValidSlots(q)
  }

  /** Allocating a block; block identities are laps, so a lap whose block is allocated is not handed out again. */
  function AllocBlock<T>(q: Queue<T>, lap: nat): (r: Res<Queue<T>>)
    ensures r.Ok? <==> lap !in q.live
    ensures r.Ok? ==> r.value == q.(blocks := q.blocks[lap := NewBlock()], live := q.live + {lap})
  {
    if lap in q.live then Fail(Undefined) else Ok(q.(blocks := q.blocks[lap := NewBlock()], live := q.live + {lap}))
  }

  /** Freeing a block; freeing one that is not allocated is undefined. */
  function Dealloc<T>(q: Queue<T>, lap: nat): (r: Res<Queue<T>>)
    ensures r.Ok? <==> lap in q.live
    ensures r.Ok? ==> r.value == q.(live := q.live - {lap})
  {
    if lap !in q.live then Fail(Undefined) else Ok(q.(live := q.live - {lap}))
  }

  /** Replacing slot `offset` of block `lap`. */
  function SetSlot<T>(q: Queue<T>, lap: nat, offset: nat, s: Slot<T>): (r: Queue<T>)
    requires lap in q.blocks && offset < |q.blocks[lap].slots|
    ensures r == q.(blocks := q.blocks[lap := q.blocks[lap].(slots := q.blocks[lap].slots[offset := s])])
  {
    q.(blocks := q.blocks[lap := q.blocks[lap].(slots := q.blocks[lap].slots[offset := s])])
  }

  /**
    `push`. A closed tail hands the value back. The slot at the tail's offset is claimed by
    advancing the tail; claiming the block's last slot also installs the next block (allocated
    beforehand) and steps the tail over the lap's last position. The first push allocates the
    first block and installs it as both head and tail block.
  */
  function Push<T>(q: Queue<T>, v: T): (r: Res<(Queue<T>, PushOutcome<T>)>)
    ensures Marked(q.tail) ==> r == Ok((q, Refused(v)))
    ensures r.Ok? && r.value.1 == Pushed ==>
      && Seq(r.value.0.tail) == Seq(q.tail) + (if Offset(q.tail) == BLOCK_CAP - 1 then 2 else 1)
      && !Marked(r.value.0.tail)
      && r.value.0.head == q.head
  {
    if Marked(q.tail) then Ok((q, Refused(v)))
    else
      var offset := Offset(q.tail);
      if offset == BLOCK_CAP then Fail(Diverges)
      else
        var lap := Lap(q.tail);
        var q1 :- if offset + 1 == BLOCK_CAP then AllocBlock(q, lap + 1) else Ok(q);
        var q2 :- if q1.tailBlock.None? then
                    var q3 :- AllocBlock(q1, lap);
                    Ok(q3.(tailBlock := Some(lap), headBlock := Some(lap)))
                  else Ok(q1);
        var block := q2.tailBlock.value;
        if block !in q2.blocks || offset >= |q2.blocks[block].slots| then Fail(Undefined)
        else
          var q4 := if offset + 1 == BLOCK_CAP then
                      var b := q2.blocks[block];
                      q2.(tail := Advance(Advance(q.tail)), tailBlock := Some(lap + 1),
                          blocks := q2.blocks[block := b.(next := Some(lap + 1))])
                    else q2.(tail := Advance(q.tail));
          var s := q4.blocks[block].slots[offset];
          Ok((SetSlot(q4, block, offset, s.(value := Some(v), written := true)), Pushed))
  }

  /**
    `Block::destroy` with the scan bound as a parameter: from slot `i` up to `end`, a slot that
    has not been read is marked `DESTROY` (its reader will finish the job) and the scan stops;
    if every slot of the range has been read, the block is freed.
  */
  function DestroyFrom<T>(q: Queue<T>, lap: nat, i: nat, end: nat): (r: Res<Queue<T>>)
    requires lap in q.blocks && end <= |q.blocks[lap].slots|
    ensures r.Ok? ==> r.value.head == q.head && r.value.tail == q.tail
    ensures r.Ok? ==> r.value.headBlock == q.headBlock && r.value.tailBlock == q.tailBlock
    ensures r.Ok? ==> r.value.blocks.Keys == q.blocks.Keys
    ensures r.Ok? ==> forall p: nat :: SlotAt(r.value.blocks, p).value == SlotAt(q.blocks, p).value
    ensures (forall j :: i <= j < end ==> q.blocks[lap].slots[j].read) ==> r == Dealloc(q, lap)
    ensures (exists j :: i <= j < end && !q.blocks[lap].slots[j].read) ==> r.Ok? && r.value.live == q.live
    decreases end - i
  {
    if i >= end then Dealloc(q, lap)
    else
      var s := q.blocks[lap].slots[i];
      if !s.read then
        var r := SetSlot(q, lap, i, s.(destroy := true));
        assert forall p: nat :: SlotAt(r.blocks, p).value == SlotAt(q.blocks, p).value by {
          forall p: nat ensures SlotAt(r.blocks, p).value == SlotAt(q.blocks, p).value {
            SlotAtSetSlot(q, lap, i, s.(destroy := true), p);
          }
        }
        Ok(r)
      else
        DestroyFrom(q, lap, i + 1, end)
  }

  /** The scan bound of `Block::destroy` as written: every slot of the block. */
  const SCAN_AS_WRITTEN: nat := BLOCK_CAP

  /**
    The scan bound that frees a block: every slot but the last, whose reader is the one that
    starts the destruction and never marks its own slot `READ`.
  */
  const SCAN_INTENDED: nat := BLOCK_CAP - 1

  /**
    `pop` with the given `Block::destroy` scan bound. A head with the mark clear compares itself
    with the tail: equal sequence numbers mean the queue is empty (or closed, if the tail carries
    the mark); a tail in a later block sets the mark on the new head. Popping the block's last
    slot moves the head to the next block (marked if that block already has a successor) and
    destroys the block from slot 0; any other pop marks its slot `READ`, and finishes a
    destruction another thread left to it when the slot carries `DESTROY`.
  */
  function PopWith<T>(q: Queue<T>, scanEnd: nat): (r: Res<(Queue<T>, PopOutcome<T>)>)
    requires scanEnd <= BLOCK_CAP
    ensures !Marked(q.head) && Seq(q.head) == Seq(q.tail) && Offset(q.head) != BLOCK_CAP ==>
      r == Ok((q, if Marked(q.tail) then Closed else Empty))
    ensures r.Ok? && r.value.1.Popped? ==> r.value.0.tail == q.tail
  {
    var offset := Offset(q.head);
    if offset == BLOCK_CAP then Fail(Diverges)
    else
      var advanced := Advance(q.head);
      if !Marked(advanced) && Seq(q.head) == Seq(q.tail) then
        Ok((q, if Marked(q.tail) then Closed else Empty))
      else
        var newHead := if !Marked(advanced) && Lap(q.head) != Lap(q.tail) then Mark(advanced) else advanced;
        if q.headBlock.None? then Fail(Diverges)
        else
          var block := q.headBlock.value;
          if block !in q.live || block !in q.blocks || |q.blocks[block].slots| != BLOCK_CAP then Fail(Undefined)
          else
            var q1 :- if offset + 1 == BLOCK_CAP then NextBlock(q, block, newHead) else Ok(q.(head := newHead));
            var s := q.blocks[block].slots[offset];
            if !s.written then Fail(Diverges)
            else if s.value.None? then Fail(Undefined)
            else
              var v := s.value.value;
              if offset + 1 == BLOCK_CAP then
                var q2 := SetSlot(q1, block, offset, s.(value := None));
                var q3 :- DestroyFrom(q2, block, 0, scanEnd);
                Ok((q3, Popped(v)))
              else
                var q2 := SetSlot(q1, block, offset, s.(value := None, read := true));
                if s.destroy then
                  var q3 :- DestroyFrom(q2, block, offset + 1, scanEnd);
                  Ok((q3, Popped(v)))
                else
                  Ok((q2, Popped(v)))
  }

  /**
    Moving the head past the end of its block: wait for the next block, and start at its first
    slot, marked when the next block already has a successor (so the tail is further on).
  */
  function NextBlock<T>(q: Queue<T>, block: nat, newHead: nat): (r: Res<Queue<T>>)
    requires block in q.blocks
    ensures r.Ok? ==> r.value == q.(headBlock := q.blocks[block].next, head := r.value.head)
    ensures r.Ok? ==> q.blocks[block].next.Some? && q.blocks[block].next.value in q.blocks
    ensures r.Ok? ==> Seq(r.value.head) == Seq(newHead) + 1
    ensures r.Ok? ==> (Marked(r.value.head) <==> q.blocks[q.blocks[block].next.value].next.Some?)
    ensures q.blocks[block].next.None? ==> r == Fail(Diverges)
  {
    var next := q.blocks[block].next;
    if next.None? then Fail(Diverges)
    else if next.value !in q.blocks then Fail(Undefined)
    else
      var nextIndex := Advance(Unmark(newHead));
      Ok(q.(headBlock := next, head := if q.blocks[next.value].next.Some? then Mark(nextIndex) else nextIndex))
  }

  /** `pop`, with the destruction scan that frees each block once its last value is read. */
  function Pop<T>(q: Queue<T>): (r: Res<(Queue<T>, PopOutcome<T>)>) {
    PopWith(q, SCAN_INTENDED)
  }

  /** `pop` as written, whose destruction scan also looks at the last slot of the block. */
  function PopAsWritten<T>(q: Queue<T>): (r: Res<(Queue<T>, PopOutcome<T>)>) {
    PopWith(q, SCAN_AS_WRITTEN)
  }

  /** `len`, on the queue's indices. */
  function Length<T>(q: Queue<T>): int {
    Len(q.head, q.tail)
  }

  /** `is_empty`, on the queue's indices. */
  predicate QueueIsEmpty<T>(q: Queue<T>) {
    IsEmpty(q.head, q.tail)
  }

  /** `close`: set the mark on the tail; only the call that set it reports `true`. */
  function Close<T>(q: Queue<T>): (r: (Queue<T>, bool))
    ensures Marked(r.0.tail) && Seq(r.0.tail) == Seq(q.tail)
    ensures r.1 <==> !Marked(q.tail)
    ensures r.0 == q.(tail := r.0.tail)
  {
    (q.(tail := Mark(q.tail)), !Marked(q.tail))
  }

  /** `is_closed`. */
  predicate IsClosed<T>(q: Queue<T>) {
    Marked(q.tail)
  }

  /** The slot at `p` after `SetSlot`. */
  lemma SlotAtSetSlot<T>(q: Queue<T>, lap: nat, offset: nat, s: Slot<T>, p: nat)
    requires lap in q.blocks && offset < |q.blocks[lap].slots|
    ensures SlotAt(SetSlot(q, lap, offset, s).blocks, p) ==
      if p / LAP == lap && p % LAP == offset then s else SlotAt(q.blocks, p)
  {
  }
}
