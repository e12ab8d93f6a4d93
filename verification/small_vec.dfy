/**
  `SmallVec` (small_vec/src/lib.rs): a vector whose length and capacity are `u32`, growing from
  nothing to one element and then by doubling, with every allocation limited to `u32::MAX`
  bytes. The element type enters only through its size and alignment; the allocation is the
  capacity, and the elements written so far are the first `len` slots of it.
*/
module SmallVec {
  import opened Outcome
  import opened Bits
  import opened Layout

  const U32_MAX: nat := 0xFFFF_FFFF

  /** `SmallVec<T>`: the elements written so far (`len` is their number) and the capacity. */
  datatype SmallVec<T> = SmallVec(items: seq<T>, cap: U32)

  /** Every element lies inside the allocation. */
  predicate Valid<T>(v: SmallVec<T>) {
    |v.items| <= v.cap
  }

  /** `len()`. */
  function Len<T>(v: SmallVec<T>): nat {
    |v.items|
  }

  /** `capacity()`. */
  function Capacity<T>(v: SmallVec<T>): nat {
    v.cap
  }

  /** `as_slice()`: the first `len` slots of the allocation. */
  function AsSlice<T>(v: SmallVec<T>): seq<T> {
    v.items
  }

  /**
    `Layout::array::<T>(n)`: the byte size of `n` elements, refused when it exceeds the largest
    size an allocation with the element's alignment may have.
  */
  function ArrayBytes(e: ConstLayout, n: nat): Option<nat> {
    if n * e.size > ISIZE_MAX + 1 - e.align then None else Some(n * e.size)
  }

  /** `new()`: no elements and no allocation. */
  function New<T>(): (v: SmallVec<T>)
    ensures Valid(v) && Len(v) == 0 && Capacity(v) == 0 && AsSlice(v) == []
  {
    SmallVec([], 0)
  }

  /**
    `with_capacity` as written: a capacity above `u32::MAX - 1` fails the assertion, an array
    layout that cannot exist fails its `unwrap`, and a zero-byte layout, which the capacity 0
    produces, goes to `alloc`, for which a zero size is undefined.
  */
  function WithCapacityAsWritten<T>(e: ConstLayout, c: U64): (r: Res<SmallVec<T>>)
    ensures r.Ok? ==> Valid(r.value) && r.value.items == [] && r.value.cap == c && c * e.size > 0
    ensures c > U32_MAX - 1 ==> r == Fail(AssertionFailed)
  {
    if c > U32_MAX - 1 then Fail(AssertionFailed)
    else match ArrayBytes(e, c)
      case None => Fail(AssertionFailed)
      case Some(bytes) => if bytes == 0 then Fail(Undefined) else Ok(SmallVec([], c))
  }

  /**
    `with_capacity` with the zero capacity answered as `new()` answers it, without allocating;
    every other capacity behaves as written.
  */
  function WithCapacity<T>(e: ConstLayout, c: U64): (r: Res<SmallVec<T>>)
    ensures r.Ok? ==> Valid(r.value) && r.value.items == [] && r.value.cap == c
    ensures c > U32_MAX - 1 ==> r == Fail(AssertionFailed)
    ensures c == 0 ==> r == Ok(New())
  {
    if c == 0 then Ok(New()) else WithCapacityAsWritten(e, c)
  }

  /**
    The zero capacity is the one a caller expects to cost nothing, yet as written it reaches the
    allocator with a zero-size layout, whatever the element type.
  */
  lemma WithCapacityZero<T>(e: ConstLayout)
    requires e.align <= ISIZE_MAX + 1
    ensures WithCapacityAsWritten<T>(e, 0) == Fail(Undefined)
    ensures WithCapacity<T>(e, 0) == Ok(New())
  {
  }

  /** A capacity whose byte size is non-zero and at most `u32::MAX` is itself at most `u32::MAX`. */
  lemma CapacityBelowBytes(n: nat, size: nat)
    requires size >= 1
    ensures n <= n * size
  {
  }

  /**
    Moving the allocation to `newCap` elements: a refused array layout fails its `unwrap`, more
    than `u32::MAX` bytes fails the assertion, and zero bytes reach `alloc` or `realloc` with a
    zero size, which is undefined. The elements are carried over.
  */
  function Reallocate<T>(e: ConstLayout, v: SmallVec<T>, newCap: nat): (r: Res<SmallVec<T>>)
    ensures r.Ok? <==> (0 < newCap * e.size <= U32_MAX && newCap * e.size <= ISIZE_MAX + 1 - e.align)
    ensures r.Ok? ==> r.value == SmallVec(v.items, newCap)
    ensures r.Fail? ==> (r.fault == Undefined <==> ArrayBytes(e, newCap) == Some(0))
  {
    match ArrayBytes(e, newCap)
    case None => Fail(AssertionFailed)
    case Some(bytes) =>
      if bytes > U32_MAX then Fail(AssertionFailed)
      else if bytes == 0 then Fail(Undefined)
      else
        CapacityBelowBytes(newCap, e.size);
        Ok(SmallVec(v.items, newCap))
  }

  /** The capacity `grow` moves to: one element from nothing, twice as many otherwise. */
  function GrowCap(cap: nat): (c: nat)
    ensures c > cap && (cap > 0 ==> c == 2 * cap)
  {
    if cap == 0 then 1 else 2 * cap
  }

  /**
    `grow` with the doubling computed in `usize`, where it cannot overflow: the capacity strictly
    increases, the elements stay, and the new allocation's byte size fits in a `u32`; a doubling
    past `u32::MAX` bytes fails the assertion.
  */
  function Grow<T>(e: ConstLayout, v: SmallVec<T>): (r: Res<SmallVec<T>>)
    ensures r.Ok? ==> r.value.items == v.items && r.value.cap == GrowCap(v.cap) > v.cap
    ensures r.Ok? ==> r.value.cap * e.size <= U32_MAX
    ensures e.size >= 1 && GrowCap(v.cap) * e.size > U32_MAX ==> r == Fail(AssertionFailed)
  {
    Reallocate(e, v, GrowCap(v.cap))
  }

  /**
    `grow` as written: `2 * self.cap` is computed in `u32`, so doubling a capacity of 2^31 or more
    panics in a build with overflow checks and wraps around in one without.
  */
  function GrowAsWritten<T>(e: ConstLayout, v: SmallVec<T>, overflowChecks: bool): (r: Res<SmallVec<T>>)
    ensures r.Ok? ==> r.value.items == v.items
  {
    if v.cap == 0 then Reallocate(e, v, 1)
    else if 2 * v.cap > U32_MAX then
      if overflowChecks then Fail(ArithmeticOverflow) else Reallocate(e, v, 2 * v.cap - 0x1_0000_0000)
    else Reallocate(e, v, 2 * v.cap)
  }

  /** Writing at index `len`, which must lie inside the allocation. */
  function Write<T>(v: SmallVec<T>, x: T): (r: Res<SmallVec<T>>)
    ensures r.Ok? <==> |v.items| < v.cap
    ensures r.Ok? ==> r.value == SmallVec(v.items + [x], v.cap) && Valid(r.value)
  {
    if |v.items| < v.cap then Ok(SmallVec(v.items + [x], v.cap)) else Fail(Undefined)
  }

  /**
    `push`: grow exactly when the vector is full, then write the element after the existing ones,
    which stay as they were. A valid vector stays valid, and only the growth can fail.
  */
  function Push<T>(e: ConstLayout, v: SmallVec<T>, x: T): (r: Res<SmallVec<T>>)
    ensures r.Ok? ==> r.value.items == v.items + [x] && Valid(r.value)
    ensures r.Ok? ==> r.value.cap == if |v.items| == v.cap then GrowCap(v.cap) else v.cap
    ensures Valid(v) && |v.items| < v.cap ==> r.Ok?
    ensures Valid(v) && |v.items| == v.cap ==> (r.Ok? <==> Grow(e, v).Ok?)
  {
    if |v.items| == v.cap then
      var g :- Grow(e, v);
      Write(g, x)
    else
      Write(v, x)
  }

  /** `push` as written, over the `u32` doubling of `GrowAsWritten`. */
  function PushAsWritten<T>(e: ConstLayout, v: SmallVec<T>, x: T, overflowChecks: bool): (r: Res<SmallVec<T>>)
    ensures r.Ok? ==> r.value.items == v.items + [x] && Valid(r.value)
  {
    if |v.items| == v.cap then
      var g :- GrowAsWritten(e, v, overflowChecks);
      Write(g, x)
    else
      Write(v, x)
  }

  /** While the doubled capacity fits in a `u32`, the written and the corrected `push` agree. */
  lemma PushAgrees<T>(e: ConstLayout, v: SmallVec<T>, x: T, overflowChecks: bool)
    requires 2 * v.cap <= U32_MAX
    ensures GrowAsWritten(e, v, overflowChecks) == Grow(e, v)
    ensures PushAsWritten(e, v, x, overflowChecks) == Push(e, v, x)
  {
  }

  /**
    A full vector of 2^31 or more bytes: the corrected `push` fails the size assertion; as written
    it panics on the `u32` overflow with overflow checks, and without them shrinks the allocation
    (to nothing, at exactly 2^31) and writes past its end.
  */
  lemma PushOverflow<T>(v: SmallVec<T>, x: T)
    requires Valid(v) && |v.items| == v.cap >= 0x8000_0000
    ensures Push(ConstLayout(1, 1), v, x) == Fail(AssertionFailed)
    ensures PushAsWritten(ConstLayout(1, 1), v, x, true) == Fail(ArithmeticOverflow)
    ensures PushAsWritten(ConstLayout(1, 1), v, x, false) == Fail(Undefined)
  {
    var e := ConstLayout(1, 1);
    var wrapped := 2 * v.cap - 0x1_0000_0000;
    assert wrapped < v.cap;
    var g := GrowAsWritten(e, v, false);
    assert g == Reallocate(e, v, wrapped);
    if g.Ok? {
      assert g.value.cap == wrapped;
      assert Write(g.value, x) == Fail(Undefined);
    }
  }

  /** Pushing the elements of `xs` one after another, stopping at the first failure. */
  function PushAll<T>(e: ConstLayout, v: SmallVec<T>, xs: seq<T>): (r: Res<SmallVec<T>>)
    decreases |xs|
  {
    if xs == [] then Ok(v)
    else
      var w :- Push(e, v, xs[0]);
      PushAll(e, w, xs[1..])
  }

  /**
    The capacity discipline a vector built by pushes keeps: nothing allocated while empty,
    otherwise a power of two less than twice the length.
  */
  predicate Doubling<T>(v: SmallVec<T>) {
    (v.cap == 0 && v.items == []) || (IsPowerOfTwo(v.cap) && |v.items| <= v.cap < 2 * |v.items|)
  }

  /** `a <= b` survives multiplying both sides by the same natural number. */
  lemma MulMonotone(a: nat, b: nat, s: nat)
    requires a <= b
    ensures a * s <= b * s
  {
  }

  /**
    Pushing elements onto a vector that keeps the doubling discipline succeeds while twice the
    final length fits in `u32::MAX` bytes: it appends exactly the pushed elements, in order, and
    keeps the discipline.
  */
  lemma {:induction false} PushAllKeepsDoubling<T>(e: ConstLayout, v: SmallVec<T>, xs: seq<T>)
    requires Doubling(v)
    requires 1 <= e.size && e.align <= 0x1_0000_0000
    requires 2 * (|v.items| + |xs|) * e.size <= U32_MAX
    ensures PushAll(e, v, xs).Ok?
    ensures PushAll(e, v, xs).value.items == v.items + xs
    ensures Doubling(PushAll(e, v, xs).value)
    decreases |xs|
  {
    if xs != [] {
      var n := |v.items|;
      if n == v.cap {
        var c := GrowCap(v.cap);
        assert c <= 2 * (n + 1) - 1;
        MulMonotone(c, 2 * (n + |xs|), e.size);
        assert Grow(e, v).Ok?;
        assert IsPowerOfTwo(c);
      }
      var w := Push(e, v, xs[0]).value;
      assert Doubling(w);
      PushAllKeepsDoubling(e, w, xs[1..]);
      assert v.items + xs == w.items + xs[1..];
    }
  }

  /** Pushes onto an empty vector allocate the least power of two that holds them all. */
  lemma PushAllFromNew<T>(e: ConstLayout, xs: seq<T>)
    requires 1 <= e.size && e.align <= 0x1_0000_0000
    requires 2 * |xs| * e.size <= U32_MAX
    ensures PushAll(e, New(), xs).Ok?
    ensures AsSlice(PushAll(e, New(), xs).value) == xs
    ensures Doubling(PushAll(e, New(), xs).value)
  {
    PushAllKeepsDoubling(e, New(), xs);
  }

  /** Pushing 1 and then 2 onto a new vector of `i32` leaves the slice `[1, 2]` in two slots. */
  lemma PushOneTwo()
    ensures PushAll(ConstLayout(4, 4), New(), [1, 2]) == Ok(SmallVec([1, 2], 2))
  {
    var e := ConstLayout(4, 4);
    assert ArrayBytes(e, 1) == Some(4) && ArrayBytes(e, 2) == Some(8);
    var empty: SmallVec<int> := New();
    assert Grow(e, empty) == Ok(SmallVec([], 1));
    assert empty.items + [1] == [1] && [1] + [2] == [1, 2];
    var one := Push(e, empty, 1);
    assert one == Ok(SmallVec([1], 1));
    assert Grow(e, one.value) == Ok(SmallVec([1], 2));
    assert Push(e, one.value, 2) == Ok(SmallVec([1, 2], 2));
    assert [1, 2][1..] == [2];
  }

  /**
    `Drop`: the elements dropped, in order, and whether the allocation is freed. A valid vector
    drops exactly its elements, and frees exactly when it has allocated.
  */
  function Drop<T>(v: SmallVec<T>): (r: (seq<T>, bool))
    ensures r.1 <==> v.cap != 0
    ensures Valid(v) ==> r.0 == v.items
  {
    if v.cap != 0 then (AsSlice(v), true) else ([], false)
  }
}
