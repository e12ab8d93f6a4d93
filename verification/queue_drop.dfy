/**
  Dropping the unbounded queue (concurrent_queue/src/unbounded.rs, `Drop for Unbounded`): walk
  from the head to the tail, dropping every value still held and freeing each block as the walk
  steps over its lap's last position, then free the block the walk ends in.
*/
module QueueDrop {
  import opened Outcome
  import opened QueueIndex
  import opened SegmentQueue

  /** The blocks of the chain from the head's block up to, not including, block `lap`. */
  function Walked<T>(q: Queue<T>, lap: nat): set<nat> {
    Laps(Lap(q.head), lap)
  }

  /** The queue's indices, links and slots are those of a quiescent queue, whatever else is allocated. */
  predicate Walkable<T>(q: Queue<T>) {
    ValidIndices(q) && Linked(q) && ValidSlots(q) && Chain(q) <= q.live
  }

  /**
    The teardown: the values dropped, in order, and the blocks still allocated afterwards. The
    walk drops exactly the queue's contents and frees exactly its chain of blocks: a quiescent
    queue leaves nothing allocated, and a block allocated off the chain stays allocated for good.
    Dereferencing a missing or freed block, or dropping an empty slot, is undefined; a head past
    the tail would walk until the index wrapped around, which is not modelled.
  */
  method Teardown<T>(q: Queue<T>) returns (r: Res<(seq<T>, set<nat>)>)
    ensures r.Ok? ==> r.value.1 <= q.live
    ensures Walkable(q) ==> r == Ok((Contents(q), q.live - Chain(q)))
    ensures Valid(q) ==> r == Ok((Contents(q), {}))
  {
    var h := Seq(q.head);
    var t := Seq(q.tail);
    if h > t {
      return Fail(Diverges);
    }
    if Walkable(q) && q.tailBlock.Some? {
      WalkBounds(q);
    }
    var block := q.headBlock;
    var live := q.live;
    var dropped: seq<T> := [];
    ghost var shaped := Walkable(q);
    ValidIsWalkable(q);
    while h != t
      invariant Seq(q.head) <= h <= t
      invariant live <= q.live
      invariant shaped && q.tailBlock.None? ==> h == t && block.None? && live == q.live && dropped == []
      invariant shaped && q.tailBlock.Some? ==>
        && block == Some(h / LAP)
        && Lap(q.head) <= h / LAP <= Lap(q.tail)
        && live == q.live - Walked(q, h / LAP)
        && dropped == Collect(q.blocks, Seq(q.head), h)
      decreases t - h
    {
      if shaped && q.tailBlock.Some? {
        WalkStep(q, h);
      }
      if block.None? || block.value !in live || block.value !in q.blocks || |q.blocks[block.value].slots| != BLOCK_CAP {
        return Fail(Undefined);
      }
      var b := block.value;
      var offset := h % LAP;
      if offset < BLOCK_CAP {
        var s := q.blocks[b].slots[offset];
        if s.value.None? {
          return Fail(Undefined);
        }
        dropped := dropped + [s.value.value];
      } else {
        block := q.blocks[b].next;
        live := live - {b};
      }
      h := h + 1;
    }
    if shaped && q.tailBlock.Some? {
      WalkEnd(q);
      assert block == Some(Lap(q.tail)) && Lap(q.tail) in live;
      assert dropped == Contents(q);
    }
    if block.Some? {
      if block.value !in live {
        return Fail(Undefined);
      }
      live := live - {block.value};
    }
    assert shaped && q.tailBlock.Some? ==> live == q.live - Chain(q);
    assert shaped && q.tailBlock.None? ==> live == q.live - Chain(q) && dropped == Contents(q);
    return Ok((dropped, live));
  }

  lemma WalkBounds<T>(q: Queue<T>)
    requires Walkable(q) && q.tailBlock.Some?
    ensures q.headBlock == Some(Seq(q.head) / LAP) && Lap(q.head) <= Lap(q.tail)
    ensures Walked(q, Lap(q.head)) == {}
    ensures Collect(q.blocks, Seq(q.head), Seq(q.head)) == []
  {
  }

  /** One step of the walk over a walkable queue: a value to drop, or a block to free and leave. */
  lemma WalkStep<T>(q: Queue<T>, h: nat)
    requires Walkable(q) && q.tailBlock.Some? && Seq(q.head) <= h < Seq(q.tail)
    ensures h / LAP in Chain(q) && h / LAP in q.blocks && |q.blocks[h / LAP].slots| == BLOCK_CAP
    ensures h % LAP < BLOCK_CAP ==>
      && (h + 1) / LAP == h / LAP
      && Holding(q.blocks[h / LAP].slots[h % LAP])
      && Collect(q.blocks, Seq(q.head), h + 1) ==
           Collect(q.blocks, Seq(q.head), h) + [q.blocks[h / LAP].slots[h % LAP].value.value]
    ensures h % LAP == BLOCK_CAP ==>
      && h / LAP < Lap(q.tail) && (h + 1) / LAP == h / LAP + 1
      && q.blocks[h / LAP].next == Some((h + 1) / LAP)
      && Collect(q.blocks, Seq(q.head), h + 1) == Collect(q.blocks, Seq(q.head), h)
      && Walked(q, (h + 1) / LAP) == Walked(q, h / LAP) + {h / LAP}
      && h / LAP !in Walked(q, h / LAP)
  {
    assert h / LAP in Chain(q);
    if h % LAP < BLOCK_CAP {
      assert SlotAt(q.blocks, h) == q.blocks[h / LAP].slots[h % LAP];
      assert Holding(SlotAt(q.blocks, h));
    }
  }

  /** The walk ends in the tail's block, the one block of the chain it has not freed. */
  lemma WalkEnd<T>(q: Queue<T>)
    requires Walkable(q) && q.tailBlock.Some?
    ensures Lap(q.tail) in q.live && Lap(q.tail) !in Walked(q, Lap(q.tail))
    ensures Walked(q, Lap(q.tail)) + {Lap(q.tail)} == Chain(q)
  {
  }

  /** A quiescent queue is walkable, with nothing allocated off its chain. */
  lemma ValidIsWalkable<T>(q: Queue<T>)
    ensures Valid(q) ==> Walkable(q) && q.live - Chain(q) == {}
  {
  }
}
