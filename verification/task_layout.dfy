/**
  The memory layout of one yage_task task allocation (yage_task/src/lib.rs, `Raw`): the header,
  then the scheduler, then one slot shared by the future and its result, and the four pointers
  `from_ptr` derives from the allocation's base address. Types enter only through their sizes and
  alignments.
*/
module TaskLayout {
  import opened Outcome
  import opened Bits
  import opened Layout

  /** `TaskLayout`: the whole allocation and the offsets of the scheduler, the future and the result. */
  datatype TaskLayout = TaskLayout(layout: ConstLayout, offsetS: U64, offsetF: U64, offsetR: U64)

  /** `Raw`: the addresses of the header, the scheduler, the future and the result. */
  datatype Raw = Raw(header: nat, schedule: nat, future: nat, result: nat)

  /** The overlay of the future and its result: the larger size and the larger alignment. */
  function UnionOf(f: ConstLayout, r: ConstLayout): ConstLayout {
    ConstLayout(Max(f.size, r.size), Max(f.align, r.align))
  }

  /**
    `eval_task_layout`: extend the header by the scheduler, then by the union of future and
    result, which both start at the union's offset. Either `extend` returning `None` makes the
    `unwrap` panic (at compile time, since the layout is a constant).
  */
  function EvalTaskLayout(header: ConstLayout, s: ConstLayout, f: ConstLayout, r: ConstLayout): (t: Res<TaskLayout>)
    ensures t.Ok? ==> t.value.offsetF == t.value.offsetR
  {
    match Extend(header, s)
    case None => Fail(AssertionFailed)
    case Some((withS, offsetS)) =>
      match Extend(withS, UnionOf(f, r))
      case None => Fail(AssertionFailed)
      case Some((whole, offsetUnion)) => Ok(TaskLayout(whole, offsetS, offsetUnion, offsetUnion))
  }

  /** `from_ptr`: each part at the base address plus its offset; the header at the base itself. */
  function FromPtr(base: nat, t: TaskLayout): Raw {
    Raw(base, base + t.offsetS, base + t.offsetF, base + t.offsetR)
  }

  /** The largest of the four alignments. */
  function MaxAlign(header: ConstLayout, s: ConstLayout, f: ConstLayout, r: ConstLayout): U64 {
    Max(Max(header.align, s.align), Max(f.align, r.align))
  }

  /**
    A computed task layout places the scheduler at or after the end of the header, and the
    shared future/result slot at or after the end of the scheduler, the slot ending exactly at
    the end of the allocation; each part is aligned to its own (power-of-two) alignment, and the
    allocation to the largest of the four.
  */
  lemma EvalTaskLayoutPlaces(header: ConstLayout, s: ConstLayout, f: ConstLayout, r: ConstLayout)
    ensures EvalTaskLayout(header, s, f, r).Ok? ==>
      var t := EvalTaskLayout(header, s, f, r).value;
      && header.size <= t.offsetS
      && t.offsetS + s.size <= t.offsetF
      && t.offsetF + Max(f.size, r.size) == t.layout.size
      && t.layout.size <= ISIZE_MAX
    ensures EvalTaskLayout(header, s, f, r).Ok? ==>
      var t := EvalTaskLayout(header, s, f, r).value;
      && t.layout.align == MaxAlign(header, s, f, r) && IsPowerOfTwo(t.layout.align)
      && (IsPowerOfTwo(s.align) ==> t.offsetS % s.align == 0)
      && (IsPowerOfTwo(f.align) ==> t.offsetF % f.align == 0)
      && (IsPowerOfTwo(r.align) ==> t.offsetR % r.align == 0)
  {
    if EvalTaskLayout(header, s, f, r).Fail? {
      return;
    }
    var (withS, offsetS) := Extend(header, s).value;
    var u := UnionOf(f, r);
    ExtendPlacesAfter(header, s);
    ExtendPlacesAfter(withS, u);
    var t := EvalTaskLayout(header, s, f, r).value;
    var a := Max(withS.align, u.align);
    assert t.offsetF % a == 0;
    if IsPowerOfTwo(f.align) {
      PowerOfTwoDivides(f.align, a, t.offsetF);
    }
    if IsPowerOfTwo(r.align) {
      PowerOfTwoDivides(r.align, a, t.offsetR);
    }
  }

  /**
    A task layout is computed whenever every alignment is a power of two and the sizes, with one
    alignment of slack per part, stay within `isize::MAX`.
  */
  lemma EvalTaskLayoutSucceeds(header: ConstLayout, s: ConstLayout, f: ConstLayout, r: ConstLayout)
    requires IsPowerOfTwo(header.align) && IsPowerOfTwo(s.align) && IsPowerOfTwo(f.align) && IsPowerOfTwo(r.align)
    requires header.size + s.size + Max(f.size, r.size) + 3 * MaxAlign(header, s, f, r) <= ISIZE_MAX
    ensures EvalTaskLayout(header, s, f, r).Ok?
  {
    var a1 := Max(header.align, s.align);
    assert IsPowerOfTwo(a1);
    ExtendPlacesAfter(header, s);
    RoundUpIsLeast(header.size, a1);
    var (withS, offsetS) := Extend(header, s).value;
    var u := UnionOf(f, r);
    var a2 := Max(withS.align, u.align);
    assert IsPowerOfTwo(u.align);
    assert IsPowerOfTwo(a2);
    ExtendPlacesAfter(withS, u);
    RoundUpIsLeast(withS.size, a2);
  }

  /**
    `from_ptr` over a computed layout: the header at the base, the scheduler after the header,
    the future and the result at one address after the scheduler, and that slot ending at the
    end of the allocation.
  */
  lemma FromPtrPlaces(base: nat, header: ConstLayout, s: ConstLayout, f: ConstLayout, r: ConstLayout)
    ensures EvalTaskLayout(header, s, f, r).Ok? ==>
      var t := EvalTaskLayout(header, s, f, r).value;
      var raw := FromPtr(base, t);
      && raw.header == base
      && raw.header + header.size <= raw.schedule
      && raw.schedule + s.size <= raw.future
      && raw.future == raw.result
      && raw.future + Max(f.size, r.size) == base + t.layout.size
  {
    EvalTaskLayoutPlaces(header, s, f, r);
  }
}
