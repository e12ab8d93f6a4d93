/**
  The segment queue refines a FIFO sequence: on a quiescent queue, `push` appends, `pop` removes
  the front (or reports empty or closed), `len` is the length, `close` changes nothing else, and
  each operation leaves the queue quiescent.
*/
module QueueRefinement {
  import opened Outcome
  import opened QueueIndex
  import opened SegmentQueue

  // ---- How the slot view changes under the queue's writes ----

  lemma SlotAtNewBlock<T>(blocks: map<nat, Block<T>>, lap: nat, p: nat)
    ensures SlotAt(blocks[lap := NewBlock()], p) == if p / LAP == lap then EmptySlot() else SlotAt(blocks, p)
  {
  }

  lemma SlotAtRelink<T>(blocks: map<nat, Block<T>>, lap: nat, next: Option<nat>, p: nat)
    requires lap in blocks
    ensures SlotAt(blocks[lap := blocks[lap].(next := next)], p) == SlotAt(blocks, p)
  {
  }

  // ---- The value sequence between two sequence numbers ----

  /** Two slot views that agree on the values of `[a, b)` collect the same sequence there. */
  lemma {:induction false} CollectFrame<T>(b1: map<nat, Block<T>>, b2: map<nat, Block<T>>, a: nat, b: nat)
    requires forall p: nat :: a <= p < b ==> SlotAt(b1, p).value == SlotAt(b2, p).value
    ensures Collect(b1, a, b) == Collect(b2, a, b)
    decreases b
  {
    if b > a {
      CollectFrame(b1, b2, a, b - 1);
      assert Elem(b1, b - 1) == Elem(b2, b - 1);
    }
  }

  /** Taking the first value off the front. */
  lemma {:induction false} CollectFront<T>(blocks: map<nat, Block<T>>, a: nat, b: nat)
    requires a < b
    ensures Collect(blocks, a, b) == Elem(blocks, a) + Collect(blocks, a + 1, b)
    decreases b
  {
    if b - 1 > a {
      CollectFront(blocks, a, b - 1);
    }
  }

  /** With a value at every value position, the sequence has one value per position. */
  lemma {:induction false} CollectLength<T>(blocks: map<nat, Block<T>>, a: nat, b: nat)
    requires a <= b
    requires forall p: nat :: a <= p < b && p % LAP != BLOCK_CAP ==> SlotAt(blocks, p).value.Some?
    ensures |Collect(blocks, a, b)| == Count(a, b)
    decreases b
  {
    if b > a {
      CollectLength(blocks, a, b - 1);
    }
  }

  /** The length of a quiescent queue's contents is its number of value positions. */
  lemma ContentsLength<T>(q: Queue<T>)
    requires Valid(q)
    ensures |Contents(q)| == Count(Seq(q.head), Seq(q.tail))
  {
    if q.tailBlock.Some? {
      CollectLength(q.blocks, Seq(q.head), Seq(q.tail));
    }
  }

  // ---- A fresh queue ----

  /** A fresh queue is quiescent, empty, open, and of length zero. */
  lemma NewIsEmpty<T>()
    ensures Valid(New<T>()) && Contents(New<T>()) == []
    ensures !IsClosed(New<T>()) && Length(New<T>()) == 0 && QueueIsEmpty(New<T>())
  {
    LenCountsValues(0, 0);
  }

  // ---- push ----

  /**
    `push` on a quiescent open queue appends the value and leaves the queue quiescent and open;
    on a closed queue it hands the value back and changes nothing.
  */
  lemma PushAppends<T>(q: Queue<T>, v: T)
    requires Valid(q)
    ensures Push(q, v).Ok?
    ensures IsClosed(q) ==> Push(q, v).value == (q, Refused(v))
    ensures !IsClosed(q) ==>
      var (q', outcome) := Push(q, v).value;
      outcome == Pushed && Valid(q') && Contents(q') == Contents(q) + [v] && !IsClosed(q')
  {
    if !Marked(q.tail) {
      if q.tailBlock.None? {
        PushFirst(q, v);
      } else if Offset(q.tail) + 1 == BLOCK_CAP {
        PushLast(q, v);
      } else {
        PushInside(q, v);
      }
    }
  }

  /** The first push into a queue that has no block yet. */
  lemma PushFirst<T>(q: Queue<T>, v: T)
    requires Valid(q) && !Marked(q.tail) && q.tailBlock.None?
    ensures Push(q, v).Ok?
    ensures var (q', outcome) := Push(q, v).value;
      outcome == Pushed && Valid(q') && Contents(q') == Contents(q) + [v]
  {
    var q3 := q.(blocks := q.blocks[0 := NewBlock()], live := q.live + {0});
    var q2 := q3.(tailBlock := Some(0), headBlock := Some(0));
    var q4 := q2.(tail := Advance(q.tail));
    var q' := SetSlot(q4, 0, 0, q4.blocks[0].slots[0].(value := Some(v), written := true));
    assert q.tail == 0 && Offset(q.tail) == 0 && Lap(q.tail) == 0;
    assert AllocBlock(q, 0) == Ok(q3);
    assert Push(q, v) == Ok((q', Pushed));
    assert q.tail == 0;
    assert Seq(q'.tail) == 1 && Lap(q'.tail) == 0 && Offset(q'.tail) == 1;
    assert Chain(q') == {0} by { assert Laps(0, 1) == {0}; }
    forall p: nat ensures SlotAt(q'.blocks, p) == if p == 0 then Slot(Some(v), true, false, false) else SlotAt(q3.blocks, p) {
      SlotAtSetSlot(q4, 0, 0, q4.blocks[0].slots[0].(value := Some(v), written := true), p);
    }
    forall p: nat | 1 <= p < BLOCK_CAP ensures Unused(SlotAt(q'.blocks, p)) {
      SlotAtNewBlock(q.blocks, 0, p);
    }
    assert Contents(q') == [v] by {
      assert Collect(q'.blocks, 0, 1) == Collect(q'.blocks, 0, 0) + Elem(q'.blocks, 0);
    }
  }

  /** A push into a slot of the tail's block that is not the block's last. */
  lemma PushInside<T>(q: Queue<T>, v: T)
    requires Valid(q) && !Marked(q.tail) && q.tailBlock.Some? && Offset(q.tail) + 1 != BLOCK_CAP
    ensures Push(q, v).Ok?
    ensures var (q', outcome) := Push(q, v).value;
      outcome == Pushed && Valid(q') && Contents(q') == Contents(q) + [v]
  {
    PushInsideShape(q, v);
    PushInsideValid(q, v);
    PushInsideContents(q, v);
  }

  lemma PushInsideValid<T>(q: Queue<T>, v: T)
    requires Valid(q) && !Marked(q.tail) && q.tailBlock.Some? && Offset(q.tail) + 1 != BLOCK_CAP
    ensures Valid(AfterPushInside(q, v))
  {
    var q' := AfterPushInside(q, v);
    assert ValidIndices(q');
    assert Chain(q') == Chain(q);
    assert ValidChain(q');
    forall p: nat | Lap(q'.head) * LAP <= p < Seq(q'.head) ensures Consumed(SlotAt(q'.blocks, p)) {
      PushInsideSlot(q, v, p);
    }
    forall p: nat | Seq(q'.head) <= p < Seq(q'.tail) && p % LAP != BLOCK_CAP ensures Holding(SlotAt(q'.blocks, p)) {
      PushInsideSlot(q, v, p);
    }
    forall p: nat | Seq(q'.tail) <= p < Lap(q'.tail) * LAP + BLOCK_CAP ensures Unused(SlotAt(q'.blocks, p)) {
      PushInsideSlot(q, v, p);
    }
  }

  lemma PushInsideContents<T>(q: Queue<T>, v: T)
    requires Valid(q) && !Marked(q.tail) && q.tailBlock.Some? && Offset(q.tail) + 1 != BLOCK_CAP
    ensures Contents(AfterPushInside(q, v)) == Contents(q) + [v]
  {
    var t := Seq(q.tail);
    var q' := AfterPushInside(q, v);
    assert Seq(q'.tail) == t + 1 && q'.head == q.head;
    forall p: nat | Seq(q.head) <= p < t ensures SlotAt(q'.blocks, p).value == SlotAt(q.blocks, p).value {
      PushInsideSlot(q, v, p);
    }
    CollectFrame(q'.blocks, q.blocks, Seq(q.head), t);
    PushInsideSlot(q, v, t);
    assert Elem(q'.blocks, t) == [v];
  }

  /** The queue after a push into a slot that is not its block's last. */
  function AfterPushInside<T>(q: Queue<T>, v: T): Queue<T>
    requires Valid(q) && q.tailBlock.Some?
  {
    assert Lap(q.tail) in Chain(q);
    var q4 := q.(tail := Advance(q.tail));
    var s := q4.blocks[Lap(q.tail)].slots[Offset(q.tail)];
    SetSlot(q4, Lap(q.tail), Offset(q.tail), s.(value := Some(v), written := true))
  }

  lemma PushInsideShape<T>(q: Queue<T>, v: T)
    requires Valid(q) && !Marked(q.tail) && q.tailBlock.Some? && Offset(q.tail) + 1 != BLOCK_CAP
    ensures Push(q, v) == Ok((AfterPushInside(q, v), Pushed))
  {
    assert Lap(q.tail) in Chain(q);
  }

  lemma PushInsideSlot<T>(q: Queue<T>, v: T, p: nat)
    requires Valid(q) && !Marked(q.tail) && q.tailBlock.Some? && Offset(q.tail) + 1 != BLOCK_CAP
    ensures SlotAt(AfterPushInside(q, v).blocks, p) ==
      if p == Seq(q.tail) then Slot(Some(v), true, false, false) else SlotAt(q.blocks, p)
  {
    var lap := Lap(q.tail);
    assert lap in Chain(q);
    var q4 := q.(tail := Advance(q.tail));
    var s := q4.blocks[lap].slots[Offset(q.tail)];
    assert Unused(SlotAt(q.blocks, Seq(q.tail)));
    SlotAtSetSlot(q4, lap, Offset(q.tail), s.(value := Some(v), written := true), p);
  }

  /** A push into the last slot of the tail's block, which installs the next block. */
  lemma PushLast<T>(q: Queue<T>, v: T)
    requires Valid(q) && !Marked(q.tail) && q.tailBlock.Some? && Offset(q.tail) + 1 == BLOCK_CAP
    ensures Push(q, v).Ok?
    ensures var (q', outcome) := Push(q, v).value;
      outcome == Pushed && Valid(q') && Contents(q') == Contents(q) + [v]
  {
    PushLastShape(q, v);
    PushLastChain(q, v);
    PushLastSlots(q, v);
    PushLastContents(q, v);
  }

  lemma PushLastSlots<T>(q: Queue<T>, v: T)
    requires Valid(q) && !Marked(q.tail) && q.tailBlock.Some? && Offset(q.tail) + 1 == BLOCK_CAP
    ensures ValidSlots(AfterPushLast(q, v))
  {
    var lap := Lap(q.tail);
    var t := Seq(q.tail);
    var q' := AfterPushLast(q, v);
    PushLastChain(q, v);
    assert q'.head == q.head && q'.tailBlock.Some?;
    forall p: nat | Lap(q'.head) * LAP <= p < Seq(q'.head) ensures Consumed(SlotAt(q'.blocks, p)) {
      PushLastSlot(q, v, p);
    }
    forall p: nat | Seq(q'.head) <= p < Seq(q'.tail) && p % LAP != BLOCK_CAP ensures Holding(SlotAt(q'.blocks, p)) {
      PushLastSlot(q, v, p);
    }
    forall p: nat | Seq(q'.tail) <= p < Lap(q'.tail) * LAP + BLOCK_CAP ensures Unused(SlotAt(q'.blocks, p)) {
      PushLastSlot(q, v, p);
    }
  }

  lemma PushLastContents<T>(q: Queue<T>, v: T)
    requires Valid(q) && !Marked(q.tail) && q.tailBlock.Some? && Offset(q.tail) + 1 == BLOCK_CAP
    ensures Contents(AfterPushLast(q, v)) == Contents(q) + [v]
  {
    var t := Seq(q.tail);
    var q' := AfterPushLast(q, v);
    PushLastChain(q, v);
    forall p: nat | Seq(q.head) <= p < t ensures SlotAt(q'.blocks, p).value == SlotAt(q.blocks, p).value {
      PushLastSlot(q, v, p);
    }
    CollectFrame(q'.blocks, q.blocks, Seq(q.head), t);
    PushLastSlot(q, v, t);
    assert Collect(q'.blocks, Seq(q.head), t + 1) == Contents(q) + [v];
    assert Contents(q') == Collect(q'.blocks, Seq(q.head), t + 1) + Elem(q'.blocks, t + 1);
  }

  /** The queue after a push into the last slot of a block. */
  function AfterPushLast<T>(q: Queue<T>, v: T): Queue<T>
    requires Valid(q) && q.tailBlock.Some? && Offset(q.tail) < BLOCK_CAP
  {
    var lap := Lap(q.tail);
    assert lap in Chain(q);
    var q1 := q.(blocks := q.blocks[lap + 1 := NewBlock()], live := q.live + {lap + 1});
    var b := q1.blocks[lap];
    var q4 := q1.(tail := Advance(Advance(q.tail)), tailBlock := Some(lap + 1),
                  blocks := q1.blocks[lap := b.(next := Some(lap + 1))]);
    var s := q4.blocks[lap].slots[Offset(q.tail)];
    SetSlot(q4, lap, Offset(q.tail), s.(value := Some(v), written := true))
  }

  lemma PushLastShape<T>(q: Queue<T>, v: T)
    requires Valid(q) && !Marked(q.tail) && q.tailBlock.Some? && Offset(q.tail) + 1 == BLOCK_CAP
    ensures Push(q, v) == Ok((AfterPushLast(q, v), Pushed))
  {
    assert Lap(q.tail) in Chain(q);
    assert Lap(q.tail) + 1 !in q.live;
  }

  lemma PushLastSlot<T>(q: Queue<T>, v: T, p: nat)
    requires Valid(q) && !Marked(q.tail) && q.tailBlock.Some? && Offset(q.tail) + 1 == BLOCK_CAP
    ensures SlotAt(AfterPushLast(q, v).blocks, p) ==
      if p == Seq(q.tail) then Slot(Some(v), true, false, false)
      else if p / LAP == Lap(q.tail) + 1 then EmptySlot()
      else SlotAt(q.blocks, p)
  {
    var lap := Lap(q.tail);
    assert lap in Chain(q);
    var q1 := q.(blocks := q.blocks[lap + 1 := NewBlock()], live := q.live + {lap + 1});
    var b := q1.blocks[lap];
    var q4 := q1.(tail := Advance(Advance(q.tail)), tailBlock := Some(lap + 1),
                  blocks := q1.blocks[lap := b.(next := Some(lap + 1))]);
    var s := q4.blocks[lap].slots[Offset(q.tail)];
    assert Unused(SlotAt(q.blocks, Seq(q.tail)));
    SlotAtNewBlock(q.blocks, lap + 1, p);
    SlotAtRelink(q1.blocks, lap, Some(lap + 1), p);
    SlotAtSetSlot(q4, lap, Offset(q.tail), s.(value := Some(v), written := true), p);
  }

  lemma PushLastChain<T>(q: Queue<T>, v: T)
    requires Valid(q) && !Marked(q.tail) && q.tailBlock.Some? && Offset(q.tail) + 1 == BLOCK_CAP
    ensures ValidIndices(AfterPushLast(q, v)) && ValidChain(AfterPushLast(q, v))
    ensures Seq(AfterPushLast(q, v).tail) == Seq(q.tail) + 2 && Lap(AfterPushLast(q, v).tail) == Lap(q.tail) + 1
  {
    var lap := Lap(q.tail);
    var q' := AfterPushLast(q, v);
    assert Seq(q'.tail) == Seq(q.tail) + 2 && Lap(q'.tail) == lap + 1 && Offset(q'.tail) == 0;
    assert Chain(q') == Chain(q) + {lap + 1};
    forall l | l in Chain(q')
      ensures l in q'.blocks && |q'.blocks[l].slots| == BLOCK_CAP
      ensures q'.blocks[l].next == (if l < Lap(q'.tail) then Some(l + 1) else None)
    {
      if l != lap && l != lap + 1 {
        assert l in Chain(q);
      }
    }
  }

  // ---- pop ----

  /** A quiescent queue is empty exactly when its head and tail sequence numbers agree. */
  lemma EmptyIffSameSeq<T>(q: Queue<T>)
    requires Valid(q)
    ensures Contents(q) == [] <==> Seq(q.head) == Seq(q.tail)
  {
    ContentsLength(q);
    if Seq(q.head) < Seq(q.tail) {
      CountFirst(Seq(q.head), Seq(q.tail));
    }
  }

  /** The front value of a quiescent, non-empty queue is the one at the head. */
  lemma FrontAtHead<T>(q: Queue<T>)
    requires Valid(q) && Seq(q.head) < Seq(q.tail)
    ensures q.tailBlock.Some?
    ensures Holding(SlotAt(q.blocks, Seq(q.head)))
    ensures Contents(q) == [SlotAt(q.blocks, Seq(q.head)).value.value] + Collect(q.blocks, Seq(q.head) + 1, Seq(q.tail))
  {
    CollectFront(q.blocks, Seq(q.head), Seq(q.tail));
  }

  /**
    `pop` on a quiescent queue: an empty queue answers `Empty`, or `Closed` once closed, and is
    left as it was; otherwise the front value is removed and returned, and the queue stays
    quiescent, with the same tail.
  */
  lemma PopRemovesFront<T>(q: Queue<T>)
    requires Valid(q)
    ensures Pop(q).Ok?
    ensures Contents(q) == [] ==> Pop(q).value == (q, if IsClosed(q) then Closed else Empty)
    ensures Contents(q) != [] ==>
      var (q', outcome) := Pop(q).value;
      outcome == Popped(Contents(q)[0]) && Valid(q') && Contents(q') == Contents(q)[1..] && q'.tail == q.tail
  {
    EmptyIffSameSeq(q);
    if Seq(q.head) < Seq(q.tail) {
      FrontAtHead(q);
      if Offset(q.head) + 1 == BLOCK_CAP {
        PopLast(q);
      } else {
        PopInside(q);
      }
    }
  }

  /** The queue after popping a slot that is not its block's last. */
  function AfterPopInside<T>(q: Queue<T>): Queue<T>
    requires Valid(q) && q.tailBlock.Some?
  {
    var lap := Lap(q.head);
    assert lap in Chain(q);
    var advanced := Advance(q.head);
    var newHead := if !Marked(advanced) && Lap(q.head) != Lap(q.tail) then Mark(advanced) else advanced;
    var s := q.blocks[lap].slots[Offset(q.head)];
    SetSlot(q.(head := newHead), lap, Offset(q.head), s.(value := None, read := true))
  }

  lemma PopInsideShape<T>(q: Queue<T>)
    requires Valid(q) && Seq(q.head) < Seq(q.tail) && Offset(q.head) + 1 != BLOCK_CAP
    ensures q.tailBlock.Some?
    ensures Pop(q) == Ok((AfterPopInside(q), Popped(SlotAt(q.blocks, Seq(q.head)).value.value)))
  {
    FrontAtHead(q);
    assert Lap(q.head) in Chain(q);
  }

  lemma PopInsideSlot<T>(q: Queue<T>, p: nat)
    requires Valid(q) && Seq(q.head) < Seq(q.tail) && Offset(q.head) + 1 != BLOCK_CAP
    ensures q.tailBlock.Some?
    ensures SlotAt(AfterPopInside(q).blocks, p) ==
      if p == Seq(q.head) then SlotAt(q.blocks, p).(value := None, read := true) else SlotAt(q.blocks, p)
  {
    FrontAtHead(q);
    var lap := Lap(q.head);
    assert lap in Chain(q);
    var advanced := Advance(q.head);
    var newHead := if !Marked(advanced) && Lap(q.head) != Lap(q.tail) then Mark(advanced) else advanced;
    var s := q.blocks[lap].slots[Offset(q.head)];
    SlotAtSetSlot(q.(head := newHead), lap, Offset(q.head), s.(value := None, read := true), p);
  }

  /** A pop of a slot that is not its block's last. */
  lemma PopInside<T>(q: Queue<T>)
    requires Valid(q) && Seq(q.head) < Seq(q.tail) && Offset(q.head) + 1 != BLOCK_CAP
    ensures Pop(q).Ok?
    ensures var (q', outcome) := Pop(q).value;
      outcome.Popped? && Valid(q') && Contents(q) == [outcome.value] + Contents(q') && q'.tail == q.tail
  {
    PopInsideShape(q);
    PopInsideValid(q);
    PopInsideContents(q);
  }

  lemma PopInsideIndices<T>(q: Queue<T>)
    requires Valid(q) && Seq(q.head) < Seq(q.tail) && Offset(q.head) + 1 != BLOCK_CAP
    ensures q.tailBlock.Some?
    ensures Seq(AfterPopInside(q).head) == Seq(q.head) + 1 && Lap(AfterPopInside(q).head) == Lap(q.head)
    ensures AfterPopInside(q).tail == q.tail && AfterPopInside(q).live == q.live
    ensures AfterPopInside(q).headBlock == q.headBlock && AfterPopInside(q).tailBlock == q.tailBlock
    ensures ValidIndices(AfterPopInside(q)) && ValidChain(AfterPopInside(q))
  {
    FrontAtHead(q);
    var q' := AfterPopInside(q);
    assert Chain(q') == Chain(q);
    forall l | l in Chain(q')
      ensures l in q'.blocks && |q'.blocks[l].slots| == BLOCK_CAP
      ensures q'.blocks[l].next == (if l < Lap(q'.tail) then Some(l + 1) else None)
    {
      assert l in Chain(q);
    }
  }

  lemma PopInsideValid<T>(q: Queue<T>)
    requires Valid(q) && Seq(q.head) < Seq(q.tail) && Offset(q.head) + 1 != BLOCK_CAP
    ensures q.tailBlock.Some?
    ensures Valid(AfterPopInside(q))
  {
    PopInsideIndices(q);
    FrontAtHead(q);
    var q' := AfterPopInside(q);
    forall p: nat | Lap(q'.head) * LAP <= p < Seq(q'.head) ensures Consumed(SlotAt(q'.blocks, p)) {
      PopInsideSlot(q, p);
    }
    forall p: nat | Seq(q'.head) <= p < Seq(q'.tail) && p % LAP != BLOCK_CAP ensures Holding(SlotAt(q'.blocks, p)) {
      PopInsideSlot(q, p);
    }
    forall p: nat | Seq(q'.tail) <= p < Lap(q'.tail) * LAP + BLOCK_CAP ensures Unused(SlotAt(q'.blocks, p)) {
      PopInsideSlot(q, p);
    }
  }

  lemma PopInsideContents<T>(q: Queue<T>)
    requires Valid(q) && Seq(q.head) < Seq(q.tail) && Offset(q.head) + 1 != BLOCK_CAP
    ensures q.tailBlock.Some?
    ensures Contents(q) == [SlotAt(q.blocks, Seq(q.head)).value.value] + Contents(AfterPopInside(q))
  {
    PopInsideIndices(q);
    FrontAtHead(q);
    var h := Seq(q.head);
    var q' := AfterPopInside(q);
    forall p: nat | h + 1 <= p < Seq(q.tail) ensures SlotAt(q'.blocks, p).value == SlotAt(q.blocks, p).value {
      PopInsideSlot(q, p);
    }
    CollectFrame(q'.blocks, q.blocks, h + 1, Seq(q.tail));
  }

  /** The queue after popping the last slot of a block, before the block is destroyed. */
  function AfterPopLastRead<T>(q: Queue<T>): Queue<T>
    requires Valid(q) && q.tailBlock.Some? && Lap(q.head) < Lap(q.tail)
  {
    var lap := Lap(q.head);
    assert lap in Chain(q) && lap + 1 in Chain(q);
    var index := Advance(Unmark(Advance(q.head)));
    var q1 := q.(headBlock := Some(lap + 1), head := if q.blocks[lap + 1].next.Some? then Mark(index) else index);
    var s := q.blocks[lap].slots[Offset(q.head)];
    SetSlot(q1, lap, Offset(q.head), s.(value := None))
  }

  /** Popping a block's last slot leaves the block to be destroyed from slot 0. */
  lemma PopLastShape<T>(q: Queue<T>, scanEnd: nat)
    requires Valid(q) && Seq(q.head) < Seq(q.tail) && Offset(q.head) + 1 == BLOCK_CAP
    requires scanEnd <= BLOCK_CAP
    ensures q.tailBlock.Some? && Lap(q.head) < Lap(q.tail)
    ensures Lap(q.head) in AfterPopLastRead(q).blocks
    ensures |AfterPopLastRead(q).blocks[Lap(q.head)].slots| == BLOCK_CAP
    ensures PopWith(q, scanEnd) ==
      var r :- DestroyFrom(AfterPopLastRead(q), Lap(q.head), 0, scanEnd);
      Ok((r, Popped(SlotAt(q.blocks, Seq(q.head)).value.value)))
  {
    FrontAtHead(q);
    var lap := Lap(q.head);
    assert lap in Chain(q);
    assert Lap(q.head) < Lap(q.tail);
    assert lap + 1 in Chain(q);
    assert q.blocks[lap].next == Some(lap + 1);
    MarkUnmark(Advance(q.head));
  }

  lemma PopLastSlot<T>(q: Queue<T>, p: nat)
    requires Valid(q) && Seq(q.head) < Seq(q.tail) && Offset(q.head) + 1 == BLOCK_CAP
    ensures q.tailBlock.Some? && Lap(q.head) < Lap(q.tail)
    ensures SlotAt(AfterPopLastRead(q).blocks, p) ==
      if p == Seq(q.head) then SlotAt(q.blocks, p).(value := None) else SlotAt(q.blocks, p)
  {
    PopLastShape(q, 0);
    var lap := Lap(q.head);
    assert lap in Chain(q) && lap + 1 in Chain(q);
    var index := Advance(Unmark(Advance(q.head)));
    var q1 := q.(headBlock := Some(lap + 1), head := if q.blocks[lap + 1].next.Some? then Mark(index) else index);
    var s := q.blocks[lap].slots[Offset(q.head)];
    SlotAtSetSlot(q1, lap, Offset(q.head), s.(value := None), p);
  }

  /** Every slot of the head's block but the last has been read when the last is popped. */
  lemma LastPopFindsBlockRead<T>(q: Queue<T>)
    requires Valid(q) && Seq(q.head) < Seq(q.tail) && Offset(q.head) + 1 == BLOCK_CAP
    ensures q.tailBlock.Some? && Lap(q.head) < Lap(q.tail)
    ensures Lap(q.head) in AfterPopLastRead(q).blocks
    ensures |AfterPopLastRead(q).blocks[Lap(q.head)].slots| == BLOCK_CAP
    ensures forall j :: 0 <= j < BLOCK_CAP - 1 ==> AfterPopLastRead(q).blocks[Lap(q.head)].slots[j].read
    ensures !AfterPopLastRead(q).blocks[Lap(q.head)].slots[BLOCK_CAP - 1].read
  {
    PopLastShape(q, 0);
    var lap := Lap(q.head);
    var q2 := AfterPopLastRead(q);
    forall j | 0 <= j < BLOCK_CAP ensures q2.blocks[lap].slots[j] == SlotAt(q2.blocks, lap * LAP + j) {
      assert (lap * LAP + j) / LAP == lap && (lap * LAP + j) % LAP == j;
    }
    forall j | 0 <= j < BLOCK_CAP - 1 ensures q2.blocks[lap].slots[j].read {
      PopLastSlot(q, lap * LAP + j);
      assert Consumed(SlotAt(q.blocks, lap * LAP + j));
    }
    PopLastSlot(q, Seq(q.head));
  }

  /** A pop of a block's last slot, which moves the head to the next block and frees this one. */
  lemma PopLast<T>(q: Queue<T>)
    requires Valid(q) && Seq(q.head) < Seq(q.tail) && Offset(q.head) + 1 == BLOCK_CAP
    ensures Pop(q).Ok?
    ensures var (q', outcome) := Pop(q).value;
      outcome.Popped? && Valid(q') && Contents(q) == [outcome.value] + Contents(q') && q'.tail == q.tail
  {
    PopLastShape(q, SCAN_INTENDED);
    LastPopFindsBlockRead(q);
    FrontAtHead(q);
    var lap := Lap(q.head);
    var q2 := AfterPopLastRead(q);
    assert lap in q2.live by { assert lap in Chain(q); }
    var q' := q2.(live := q2.live - {lap});
    assert Pop(q) == Ok((q', Popped(SlotAt(q.blocks, Seq(q.head)).value.value)));
    PopLastValid(q);
    PopLastContents(q);
  }

  lemma PopLastValid<T>(q: Queue<T>)
    requires Valid(q) && Seq(q.head) < Seq(q.tail) && Offset(q.head) + 1 == BLOCK_CAP
    ensures q.tailBlock.Some? && Lap(q.head) < Lap(q.tail)
    ensures Valid(AfterPopLastRead(q).(live := AfterPopLastRead(q).live - {Lap(q.head)}))
  {
    PopLastShape(q, 0);
    var lap := Lap(q.head);
    var q2 := AfterPopLastRead(q);
    var q' := q2.(live := q2.live - {lap});
    assert Seq(q'.head) == Seq(q.head) + 2 && Lap(q'.head) == lap + 1 && Offset(q'.head) == 0;
    assert Marked(q'.head) <==> lap + 1 < Lap(q.tail);
    assert Chain(q') == Chain(q) - {lap};
    assert ValidIndices(q');
    forall l | l in Chain(q')
      ensures l in q'.blocks && |q'.blocks[l].slots| == BLOCK_CAP
      ensures q'.blocks[l].next == (if l < Lap(q'.tail) then Some(l + 1) else None)
    {
      assert l in Chain(q);
    }
    assert ValidChain(q');
    forall p: nat | Seq(q'.head) <= p < Seq(q'.tail) && p % LAP != BLOCK_CAP ensures Holding(SlotAt(q'.blocks, p)) {
      PopLastSlot(q, p);
    }
    forall p: nat | Seq(q'.tail) <= p < Lap(q'.tail) * LAP + BLOCK_CAP ensures Unused(SlotAt(q'.blocks, p)) {
      PopLastSlot(q, p);
    }
  }

  lemma PopLastIndices<T>(q: Queue<T>)
    requires Valid(q) && Seq(q.head) < Seq(q.tail) && Offset(q.head) + 1 == BLOCK_CAP
    ensures q.tailBlock.Some? && Lap(q.head) < Lap(q.tail)
    ensures Seq(AfterPopLastRead(q).head) == Seq(q.head) + 2 && AfterPopLastRead(q).tail == q.tail
  {
    PopLastShape(q, 0);
  }

  lemma PopLastContents<T>(q: Queue<T>)
    requires Valid(q) && Seq(q.head) < Seq(q.tail) && Offset(q.head) + 1 == BLOCK_CAP
    ensures q.tailBlock.Some? && Lap(q.head) < Lap(q.tail)
    ensures Contents(q) == [SlotAt(q.blocks, Seq(q.head)).value.value] + Contents(AfterPopLastRead(q))
  {
    PopLastIndices(q);
    FrontAtHead(q);
    var h := Seq(q.head);
    var t := Seq(q.tail);
    var q2 := AfterPopLastRead(q);
    CollectFront(q.blocks, h + 1, t);
    assert Elem(q.blocks, h + 1) == [];
    forall p: nat | h + 2 <= p < t ensures SlotAt(q2.blocks, p).value == SlotAt(q.blocks, p).value {
      PopLastSlot(q, p);
    }
    CollectFrame(q2.blocks, q.blocks, h + 2, t);
  }

  // ---- The destruction scan as written ----

  /** The scan stops at the first slot not yet read, and marks it for its reader to finish. */
  lemma {:induction false} DestroyFromMarksFirstUnread<T>(q: Queue<T>, lap: nat, i: nat, k: nat, end: nat)
    requires lap in q.blocks && end <= |q.blocks[lap].slots| && i <= k < end
    requires forall j :: i <= j < k ==> q.blocks[lap].slots[j].read
    requires !q.blocks[lap].slots[k].read
    ensures DestroyFrom(q, lap, i, end) == Ok(SetSlot(q, lap, k, q.blocks[lap].slots[k].(destroy := true)))
    decreases k - i
  {
    if i < k {
      DestroyFromMarksFirstUnread(q, lap, i + 1, k, end);
    }
  }

  /** The queue after popping a block's last slot with the scan as written: the block stays allocated. */
  function AfterPopLastLeak<T>(q: Queue<T>): Queue<T>
    requires Valid(q) && q.tailBlock.Some? && Lap(q.head) < Lap(q.tail)
  {
    var lap := Lap(q.head);
    assert lap in Chain(q);
    var q2 := AfterPopLastRead(q);
    SetSlot(q2, lap, BLOCK_CAP - 1, q2.blocks[lap].slots[BLOCK_CAP - 1].(destroy := true))
  }

  lemma PopAsWrittenShape<T>(q: Queue<T>)
    requires Valid(q) && Seq(q.head) < Seq(q.tail) && Offset(q.head) + 1 == BLOCK_CAP
    ensures q.tailBlock.Some? && Lap(q.head) < Lap(q.tail)
    ensures PopAsWritten(q) == Ok((AfterPopLastLeak(q), Popped(SlotAt(q.blocks, Seq(q.head)).value.value)))
    ensures Pop(q) == Ok((AfterPopLastRead(q).(live := AfterPopLastRead(q).live - {Lap(q.head)}),
      Popped(SlotAt(q.blocks, Seq(q.head)).value.value)))
  {
    PopLastShape(q, SCAN_AS_WRITTEN);
    PopLastShape(q, SCAN_INTENDED);
    LastPopFindsBlockRead(q);
    var lap := Lap(q.head);
    assert lap in AfterPopLastRead(q).live by { assert lap in Chain(q); }
    DestroyFromMarksFirstUnread(AfterPopLastRead(q), lap, 0, BLOCK_CAP - 1, SCAN_AS_WRITTEN);
  }

  /**
    The leak: popping the last value of a block with the scan as written finds that slot unread
    (its reader never marks it), leaves the block to a reader that does not exist, and so never
    frees it. The queue is otherwise as the corrected pop leaves it, the same value is returned,
    and the corrected pop frees the block.
  */
  lemma PopAsWrittenLeaksBlock<T>(q: Queue<T>)
    requires Valid(q) && Seq(q.head) < Seq(q.tail) && Offset(q.head) + 1 == BLOCK_CAP
    ensures PopAsWritten(q).Ok? && Pop(q).Ok?
    ensures var (leaky, got) := PopAsWritten(q).value;
      var (freed, want) := Pop(q).value;
      && got == want && Contents(leaky) == Contents(freed)
      && Lap(q.head) !in freed.live && Valid(freed)
      && Lap(q.head) in leaky.live && Lap(q.head) !in Chain(leaky) && !Valid(leaky)
      && leaky.live == Chain(leaky) + {Lap(q.head)}
      && ValidIndices(leaky) && Linked(leaky) && ValidSlots(leaky)
  {
    PopAsWrittenShape(q);
    PopLast(q);
    PopLastIndices(q);
    var lap := Lap(q.head);
    var q2 := AfterPopLastRead(q);
    var freed := q2.(live := q2.live - {lap});
    var leaky := AfterPopLastLeak(q);
    assert lap in q2.live by { assert lap in Chain(q); }
    assert Lap(freed.head) == lap + 1;
    assert Chain(leaky) == Chain(freed);
    assert lap !in Chain(freed);
    assert leaky.live == freed.live + {lap};
    LeakSameSlots(q);
    CollectFrame(leaky.blocks, freed.blocks, Seq(freed.head), Seq(freed.tail));
  }

  /** The leaky queue differs from the corrected one only in its own block's last slot. */
  lemma LeakSameSlots<T>(q: Queue<T>)
    requires Valid(q) && Seq(q.head) < Seq(q.tail) && Offset(q.head) + 1 == BLOCK_CAP
    ensures q.tailBlock.Some? && Lap(q.head) < Lap(q.tail)
    ensures var q2 := AfterPopLastRead(q);
      var leaky := AfterPopLastLeak(q);
      && leaky == q2.(blocks := leaky.blocks)
      && (forall p: nat :: SlotAt(leaky.blocks, p).value == SlotAt(q2.blocks, p).value)
      && (forall p: nat :: p / LAP != Lap(q.head) ==> SlotAt(leaky.blocks, p) == SlotAt(q2.blocks, p))
      && (forall l :: l != Lap(q.head) && l in q2.blocks ==> l in leaky.blocks && leaky.blocks[l] == q2.blocks[l])
  {
    PopLastShape(q, 0);
    var lap := Lap(q.head);
    var q2 := AfterPopLastRead(q);
    var s := q2.blocks[lap].slots[BLOCK_CAP - 1].(destroy := true);
    forall p: nat ensures SlotAt(AfterPopLastLeak(q).blocks, p) ==
      if p / LAP == lap && p % LAP == BLOCK_CAP - 1 then s else SlotAt(q2.blocks, p)
    {
      SlotAtSetSlot(q2, lap, BLOCK_CAP - 1, s, p);
    }
  }

  // ---- len, is_empty, close ----

  /** On a quiescent queue, `len` is the number of values held and `is_empty` says there are none. */
  lemma LengthIsSize<T>(q: Queue<T>)
    requires Valid(q)
    ensures Length(q) == |Contents(q)|
    ensures QueueIsEmpty(q) <==> Contents(q) == []
  {
    ContentsLength(q);
    LenCountsValues(q.head, q.tail);
    EmptyIffSameSeq(q);
  }

  /**
    `close` keeps a quiescent queue quiescent with the same values and length, and closes it; a
    second `close` reports `false`.
  */
  lemma CloseKeepsContents<T>(q: Queue<T>)
    requires Valid(q)
    ensures var (q', first) := Close(q);
      && Valid(q') && Contents(q') == Contents(q) && Length(q') == Length(q) && IsClosed(q')
      && first == !IsClosed(q) && !Close(q').1
  {
    var q' := Close(q).0;
    assert Chain(q') == Chain(q);
    LengthIsSize(q);
    LengthIsSize(q');
  }

  // ---- A queue that shows the leak ----

  /**
    The queue after 31 pushes and 30 pops: block 0 has had slots 0 to 29 popped and still holds
    the value 7 in its last slot; the tail is at the start of block 1, so the head is marked.
  */
  function LastSlotQueue(): Queue<int> {
    var popped := seq(BLOCK_CAP - 1, _ => Slot(None, true, true, false));
    var first := Block(Some(1), popped + [Slot(Some(7), true, false, false)]);
    var second: Block<int> := NewBlock();
    Queue(MakeIndex(BLOCK_CAP - 1, true), Some(0), MakeIndex(LAP, false), Some(1), map[0 := first, 1 := second], {0, 1})
  }

  lemma LastSlotQueueIsValid()
    ensures Valid(LastSlotQueue()) && Seq(LastSlotQueue().head) < Seq(LastSlotQueue().tail)
    ensures Offset(LastSlotQueue().head) + 1 == BLOCK_CAP && Contents(LastSlotQueue()) == [7]
  {
    var q := LastSlotQueue();
    assert Chain(q) == {0, 1};
    forall p: nat | 0 <= p < BLOCK_CAP - 1 ensures Consumed(SlotAt(q.blocks, p)) {
      assert p / LAP == 0 && p % LAP == p;
    }
    forall p: nat | LAP <= p < LAP + BLOCK_CAP ensures Unused(SlotAt(q.blocks, p)) {
      assert p / LAP == 1 && p % LAP == p - LAP;
    }
    assert SlotAt(q.blocks, BLOCK_CAP - 1).value == Some(7);
    CollectFront(q.blocks, BLOCK_CAP - 1, LAP);
    assert Elem(q.blocks, BLOCK_CAP) == [];
  }

  /**
    On that queue, `pop` as written returns 7 and leaves the queue empty, but block 0 stays
    allocated though no index reaches it any more; the corrected `pop` frees it.
  */
  lemma LeakExample()
    ensures PopAsWritten(LastSlotQueue()).Ok? && Pop(LastSlotQueue()).Ok?
    ensures PopAsWritten(LastSlotQueue()).value.1 == Popped(7) && Pop(LastSlotQueue()).value.1 == Popped(7)
    ensures PopAsWritten(LastSlotQueue()).value.0.live == {0, 1} && Chain(PopAsWritten(LastSlotQueue()).value.0) == {1}
    ensures Pop(LastSlotQueue()).value.0.live == {1}
  {
    var q := LastSlotQueue();
    LastSlotQueueIsValid();
    LeakOnLastSlot(q);
  }

  /** The leak on any quiescent queue shaped like the example: two blocks, head at block 0's last slot. */
  lemma LeakOnLastSlot(q: Queue<int>)
    requires Valid(q) && Seq(q.head) == BLOCK_CAP - 1 && Seq(q.tail) == LAP
    requires SlotAt(q.blocks, BLOCK_CAP - 1).value == Some(7)
    ensures PopAsWritten(q).Ok? && Pop(q).Ok?
    ensures PopAsWritten(q).value.1 == Popped(7) && Pop(q).value.1 == Popped(7)
    ensures PopAsWritten(q).value.0.live == {0, 1} && Chain(PopAsWritten(q).value.0) == {1}
    ensures Pop(q).value.0.live == {1}
  {
    PopAsWrittenLeaksBlock(q);
    PopAsWrittenShape(q);
    PopLastIndices(q);
    assert Chain(q) == {0, 1};
    var leaky := PopAsWritten(q).value.0;
    assert Lap(leaky.head) == 1 && Lap(leaky.tail) == 1;
    assert Chain(leaky) == {1};
  }
}
