/**
  The yage_task task header (yage_task/src/header.rs): the 16-bit `Tag` a task carries in its
  state word, with its `u8`, `u16`, `i8`, `i16` and `()` encodings, and the header `new_in_place`
  writes when a task is created.
*/
module HeaderTag {
  import opened Outcome
  import opened Bits

  /** The ranges of Rust's `u8`, `i8` and `i16`. */
  type U8 = x: int | 0 <= x < 0x100
  type I8 = x: int | -0x80 <= x < 0x80
  type I16 = x: int | -0x8000 <= x < 0x8000

  /** A tag value of one of the five types that implement `Tag`. */
  datatype Tag =
    | TagU8(u8: U8)
    | TagU16(u16: U16)
    | TagI8(i8: I8)
    | TagI16(i16: I16)
    | TagUnit

  /** Which `Tag` implementation a header was created with: the type `from_u16` decodes into. */
  datatype TagKind = KindU8 | KindU16 | KindI8 | KindI16 | KindUnit

  function KindOf(t: Tag): TagKind {
    match t
    case TagU8(_) => KindU8
    case TagU16(_) => KindU16
    case TagI8(_) => KindI8
    case TagI16(_) => KindI16
    case TagUnit => KindUnit
  }

  /**
    `into_u16`: `self as u16`, which zero-extends an unsigned value, sign-extends a signed one
    and keeps the low 16 bits (two's complement); the unit tag is 0. The encoding agrees with
    the value modulo 2^16 and, for the one-byte types, modulo 2^8.
  */
  function IntoU16(t: Tag): (r: U16)
    ensures !t.TagUnit? ==> r % 0x100 == TagValue(t) % 0x100
    ensures t.TagI8? || t.TagI16? || t.TagU16? ==> r % 0x1_0000 == TagValue(t) % 0x1_0000
    ensures t.TagU8? ==> r < 0x100
    ensures t.TagUnit? ==> r == 0
  {
    match t
    case TagU8(x) => x
    case TagU16(x) => x
    case TagI8(x) => x % 0x1_0000
    case TagI16(x) => x % 0x1_0000
    case TagUnit => 0
  }

  /** The integer a tag holds (0 for the unit tag). */
  function TagValue(t: Tag): int {
    match t
    case TagU8(x) => x
    case TagU16(x) => x
    case TagI8(x) => x
    case TagI16(x) => x
    case TagUnit => 0
  }

  /**
    `from_u16`: `val as T`, which keeps the low 8 or 16 bits and reads them as unsigned or two's
    complement; the unit tag ignores the value. The decoded value agrees with the word modulo the
    width of its type and lies in that type's range.
  */
  function FromU16(kind: TagKind, v: U16): (t: Tag)
    ensures KindOf(t) == kind
    ensures kind == KindU8 || kind == KindI8 ==> TagValue(t) % 0x100 == v % 0x100
    ensures kind == KindU16 || kind == KindI16 ==> TagValue(t) % 0x1_0000 == v
  {
    match kind
    case KindU8 => TagU8(v % 0x100)
    case KindU16 => TagU16(v)
    case KindI8 => var b := v % 0x100; TagI8(if b >= 0x80 then b - 0x100 else b)
    case KindI16 => TagI16(if v >= 0x8000 then v - 0x1_0000 else v)
    case KindUnit => TagUnit
  }

  /** Decoding an encoded tag as its own type gives the tag back, for all five types. */
  lemma TagRoundTrip(t: Tag)
    ensures FromU16(KindOf(t), IntoU16(t)) == t
  {
    match t
    case TagU8(x) =>
    case TagU16(x) =>
    case TagI8(x) =>
      var r := IntoU16(t);
      assert r % 0x100 == (x + 0x100) % 0x100;
      if x < 0 {
        assert r == x + 0x1_0000;
        assert r % 0x100 == x + 0x100;
      }
    case TagI16(x) =>
    case TagUnit =>
  }

  /**
    Re-encoding a decoded word gives the word back exactly when the type can hold it: always for
    the 16-bit types, below 2^8 for `u8`, for the sign-extended bytes for `i8`, and only 0 for `()`.
  */
  lemma WordRoundTrip(kind: TagKind, v: U16)
    ensures IntoU16(FromU16(kind, v)) == v <==>
      match kind
      case KindU16 => true
      case KindI16 => true
      case KindU8 => v < 0x100
      case KindI8 => v < 0x80 || v >= 0x1_0000 - 0x80
      case KindUnit => v == 0
  {
    if kind == KindI8 {
      var b := v % 0x100;
      if b >= 0x80 {
        assert IntoU16(FromU16(kind, v)) == b - 0x100 + 0x1_0000;
      } else {
        assert IntoU16(FromU16(kind, v)) == b;
      }
    }
  }

  /** The two flags `new_in_place` sets; the yage_task flag module itself is not part of this model. */
  datatype HeaderFlag = Scheduled | HandleHere

  /** The yage_task state word: one reference count, a flag set and the encoded tag. */
  datatype HeaderState = HeaderState(referenceCount: nat, flags: set<HeaderFlag>, tag: U16)

  /** `Header`: the state, the awaiter slot, the vtable and the metadata. */
  datatype Header<M, V, W> = Header(state: HeaderState, awaiter: Option<W>, vtable: V, metadata: M)

  /**
    `new_in_place`: a new task's header holds one reference, is scheduled with its handle
    present, has no awaiter, keeps the vtable and metadata it was given, and carries the tag in
    a form its own type decodes back to the original.
  */
  function NewInPlace<M, V, W>(metadata: M, vtable: V, tag: Tag): (h: Header<M, V, W>)
    ensures h.state.referenceCount == 1
    ensures h.state.flags == {Scheduled, HandleHere}
    ensures h.awaiter == None
    ensures h.vtable == vtable && h.metadata == metadata
    ensures FromU16(KindOf(tag), h.state.tag) == tag
  {
    TagRoundTrip(tag);
    Header(HeaderState(1, {Scheduled, HandleHere}, IntoU16(tag)), None, vtable, metadata)
  }
}
