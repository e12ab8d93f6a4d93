/**
  Compile-time layout arithmetic (yage_task/src/layout.rs): a size and an alignment, the padding
  that brings a size up to an alignment, placing one layout after another (`extend`) and
  overlaying two (`unionize`). `usize` is 64 bits wide; the padding is computed as the source
  does, with wrapping adds and subtracts and a bit mask, and proved to be the least round-up.
*/
module Layout {
  import opened Outcome
  import opened Bits

  /** 2^64, and the largest `usize` and `isize` values. */
  const USIZE_LIMIT: nat := 0x1_0000_0000_0000_0000
  const USIZE_MAX: nat := USIZE_LIMIT - 1
  const ISIZE_MAX: nat := 0x7FFF_FFFF_FFFF_FFFF

  /** `usize` arithmetic modulo 2^64, as `wrapping_add` and `wrapping_sub` do it. */
  function Wrap(x: int): U64 {
    x % USIZE_LIMIT
  }

  /** `max` of yage_task's crate root. */
  function Max(lhs: U64, rhs: U64): (r: U64)
    ensures r >= lhs && r >= rhs
    ensures r == lhs || r == rhs
  {
    if lhs > rhs then lhs else rhs
  }

  /** `usize::is_power_of_two`: exactly one bit set (zero is not a power of two). */
  predicate IsPowerOfTwo(x: nat)
    decreases x
  {
    x == 1 || (x >= 2 && x % 2 == 0 && IsPowerOfTwo(x / 2))
  }

  /** The bit a power of two sets. */
  function Log2(x: nat): (k: nat)
    requires IsPowerOfTwo(x)
    ensures Pow2(k) == x
    decreases x
  {
    if x == 1 then 0 else 1 + Log2(x / 2)
  }

  /** `&` on unsigned integers. */
  function BitAnd(a: nat, b: nat): nat
    decreases a
  {
    if a == 0 || b == 0 then 0 else 2 * BitAnd(a / 2, b / 2) + (if a % 2 == 1 && b % 2 == 1 then 1 else 0)
  }

  /** `!` on a `usize`. */
  function BitNot(x: U64): U64 {
    USIZE_MAX - x
  }

  /** `ConstLayout`; `from_size_align_unchecked` and `new_for` store the two fields as given, and `size()` and `align()` read them. */
  datatype ConstLayout = ConstLayout(size: U64, align: U64)

  /**
    The least multiple of `a` at or above `n`, counted out one `a` at a time: the reference the
    padding is measured against.
  */
  function RoundUp(n: nat, a: nat): nat
    requires a > 0
    decreases n
  {
    if n == 0 then 0 else if n <= a then a else a + RoundUp(n - a, a)
  }

  /**
    `padding_needed_for`: round the size up with a wrapping add, clear the bits below the
    alignment with a mask, and subtract the size with a wrapping subtract.
  */
  function PaddingNeededFor(l: ConstLayout, align: U64): U64 {
    Wrap(MaskedRound(l.size, align) - l.size)
  }

  /** The first half of `padding_needed_for`: `size + align - 1`, wrapped, with the low bits masked off. */
  function MaskedRound(size: U64, align: U64): nat {
    BitAnd(Wrap(Wrap(size + align) - 1), BitNot(Wrap(align - 1)))
  }

  /** `unionize`: the larger size and the larger alignment, so either field fits in the result. */
  function Unionize(fieldOne: ConstLayout, fieldTwo: ConstLayout): (r: ConstLayout)
    ensures r.size >= fieldOne.size && r.size >= fieldTwo.size
    ensures r.align >= fieldOne.align && r.align >= fieldTwo.align
    ensures (r.size == fieldOne.size || r.size == fieldTwo.size) && (r.align == fieldOne.align || r.align == fieldTwo.align)
  {
    ConstLayout(Max(fieldOne.size, fieldTwo.size), Max(fieldOne.align, fieldTwo.align))
  }

  /**
    `extend`: the layout of `self` followed by `other`, and the offset of `other` in it. `None`
    when the padded offset or the total size overflows `usize`, when the larger alignment is not
    a power of two, or when the size exceeds `isize::MAX` less the alignment's slack.
  */
  function Extend(self: ConstLayout, other: ConstLayout): (r: Option<(ConstLayout, U64)>)
    ensures r.Some? ==> r.value.0.align == Max(self.align, other.align) && IsPowerOfTwo(r.value.0.align)
    ensures r.Some? ==> r.value.0.size == r.value.1 + other.size && r.value.0.size <= ISIZE_MAX
  {
    var newAlign := Max(self.align, other.align);
    var pad := PaddingNeededFor(self, newAlign);
    if self.size + pad > USIZE_MAX then None
    else
      var offset: U64 := self.size + pad;
      if offset + other.size > USIZE_MAX then None
      else
        var newSize: U64 := offset + other.size;
        if !IsPowerOfTwo(newAlign) || newSize > ISIZE_MAX - (newAlign - 1) then None
        else Some((ConstLayout(newSize, newAlign), offset))
  }

  // ---- Arithmetic behind the mask ----

  /** `x == d * a + c` with `0 <= c < d` determines the quotient and the remainder. */
  lemma ModUnique(x: int, d: int, a: int, c: int)
    requires d > 0 && 0 <= c < d && x == d * a + c
    ensures x % d == c && x / d == a
  {
    var t := x / d - a;
    assert d * t == c - x % d;
  }

  lemma {:induction false} Pow2Grows(j: nat, k: nat)
    requires j < k
    ensures Pow2(k) >= 2 * Pow2(j) && Pow2(k) % Pow2(j) == 0
  {
    Pow2Add(j, k - j);
    assert Pow2(k - j) >= 2;
    ProductAtLeastDouble(Pow2(j), Pow2(k - j));
    ModUnique(Pow2(k), Pow2(j), Pow2(k - j), 0);
  }

  /** A factor of at least two at least doubles. */
  lemma ProductAtLeastDouble(p: nat, q: nat)
    requires q >= 2
    ensures p * q >= 2 * p
  {
    assert p * q == 2 * p + p * (q - 2);
  }

  /** Divisibility is transitive. */
  lemma DividesTransitive(n: nat, small: nat, large: nat)
    requires small > 0 && large > 0 && large % small == 0 && n % large == 0
    ensures n % small == 0
  {
    var m := large / small;
    var q := n / large;
    ModUnique(large, small, m, 0);
    ModUnique(n, large, q, 0);
    assert n == small * (m * q);
    ModUnique(n, small, m * q, 0);
  }

  /** A smaller power of two divides a larger one, and so divides the larger one's multiples. */
  lemma PowerOfTwoDivides(small: nat, large: nat, n: nat)
    requires IsPowerOfTwo(small) && IsPowerOfTwo(large) && small <= large && n % large == 0
    ensures n % small == 0
  {
    var j := Log2(small);
    var k := Log2(large);
    if j > k {
      Pow2Grows(k, j);
    }
    if j < k {
      Pow2Grows(j, k);
      DividesTransitive(n, small, large);
    }
  }

  /** A mask of every bit below `w` leaves any smaller number alone. */
  lemma {:induction false} AllOnes(x: nat, w: nat)
    requires x < Pow2(w)
    ensures BitAnd(x, Pow2(w) - 1) == x
    decreases w
  {
    if x != 0 {
      assert w > 0;
      var m := Pow2(w) - 1;
      assert Pow2(w) == 2 * Pow2(w - 1);
      assert m % 2 == 1 && m / 2 == Pow2(w - 1) - 1;
      assert x / 2 < Pow2(w - 1);
      AllOnes(x / 2, w - 1);
      assert BitAnd(x, m) == 2 * BitAnd(x / 2, m / 2) + x % 2;
    }
  }

  /** The remainder by `2^k` in terms of the remainder of the halved number by `2^(k-1)`. */
  lemma HalveRemainder(x: nat, k: nat)
    requires k >= 1
    ensures x % Pow2(k) == 2 * ((x / 2) % Pow2(k - 1)) + x % 2
  {
    var p := Pow2(k - 1);
    var q := x / 2;
    var a := q / p;
    var b := q % p;
    assert q == p * a + b;
    assert x == 2 * p * a + (2 * b + x % 2);
    ModUnique(x, 2 * p, a, 2 * b + x % 2);
  }

  /** Masking with the bits from `k` up to `w` rounds a number below `2^w` down to a multiple of `2^k`. */
  lemma {:induction false} HighMask(x: nat, w: nat, k: nat)
    requires k <= w && x < Pow2(w) && Pow2(k) <= Pow2(w)
    ensures BitAnd(x, Pow2(w) - Pow2(k)) == x - x % Pow2(k)
    decreases k
  {
    if k == 0 {
      AllOnes(x, w);
    } else if x == 0 {
    } else if w == k {
      ModUnique(x, Pow2(k), 0, x);
    } else {
      Pow2Grows(k, w);
      var m := Pow2(w) - Pow2(k);
      assert m % 2 == 0 && m / 2 == Pow2(w - 1) - Pow2(k - 1);
      if k - 1 < w - 1 {
        Pow2Grows(k - 1, w - 1);
      }
      HighMask(x / 2, w - 1, k - 1);
      HalveRemainder(x, k);
    }
  }

  lemma Pow2Sixty4()
    ensures Pow2(64) == USIZE_LIMIT
  {
    Pow2Widths();
    Pow2Add(32, 32);
  }

  // ---- Padding ----

  /** A power of two below `2^w` sets a bit below `w`. */
  lemma {:induction false} Log2Below(x: nat, w: nat)
    requires IsPowerOfTwo(x) && x < Pow2(w)
    ensures Log2(x) < w
    decreases x
  {
    assert w > 0;
    if x > 1 {
      Log2Below(x / 2, w - 1);
    }
  }

  /**
    The number of bits of a `usize`, as a variable: proofs about masks speak of `Pow2(w)` rather
    than of `Pow2(64)`, which the verifier would otherwise evaluate step by step.
  */
  lemma WordWidth() returns (w: nat)
    ensures Pow2(w) == USIZE_LIMIT
  {
    Pow2Sixty4();
    w := 64;
  }

  /** A power-of-two `usize` is `2^k` for some `k` below the word width, and `!(align - 1)` keeps the bits from `k` up. */
  lemma AlignMask(align: U64, w: nat)
    requires IsPowerOfTwo(align) && Pow2(w) == USIZE_LIMIT
    ensures Log2(align) < w && USIZE_LIMIT % align == 0
    ensures BitNot(Wrap(align - 1)) == USIZE_LIMIT - align
  {
    Log2Below(align, w);
    Pow2Grows(Log2(align), w);
  }

  /** `len + align - 1` with wrapping adds: the true sum, or the sum less 2^64. */
  lemma WrappedSum(size: U64, align: U64)
    requires align >= 1
    ensures var n := size + align - 1;
      Wrap(Wrap(size + align) - 1) == if n < USIZE_LIMIT then n else n - USIZE_LIMIT
  {
  }

  /** Taking away the remainder leaves the quotient's multiple. */
  lemma RoundDown(v: nat, d: nat)
    requires d > 0
    ensures v - v % d == (v / d) * d
  {
    ModUnique(v, d, v / d, v % d);
  }

  /** Adding a multiple of the divisor adds to the quotient and leaves the remainder. */
  lemma ShiftByMultiple(v: nat, d: nat, m: nat)
    requires d > 0
    ensures (v + d * m) / d == v / d + m && (v + d * m) % d == v % d
  {
    var q := v / d;
    var r := v % d;
    assert v == d * q + r;
    assert v + d * m == d * (q + m) + r;
    ModUnique(v + d * m, d, q + m, r);
  }

  /** Rounding down `n - M` and adding `M` back rounds `n` down, when `M` is a multiple of the divisor. */
  lemma RoundDownShifted(n: nat, d: nat, M: nat)
    requires d > 0 && M % d == 0 && n >= M
    ensures var v := n - M; v - v % d + M == (n / d) * d
  {
    var v := n - M;
    var m := M / d;
    assert M == d * m;
    ShiftByMultiple(v, d, m);
    assert (v / d + m) * d == (v / d) * d + m * d;
    assert v == d * (v / d) + v % d;
  }

  /** `HighMask` for a word: masking with every bit from `k` up rounds a `usize` down to a multiple of `2^k`. */
  lemma WordHighMask(v: nat, mask: nat, p: nat, k: nat, w: nat)
    requires k < w && Pow2(w) == USIZE_LIMIT && v < USIZE_LIMIT && p == Pow2(k) && mask == USIZE_LIMIT - p
    ensures BitAnd(v, mask) == v - v % p
  {
    Pow2Grows(k, w);
    HighMask(v, w, k);
  }

  /** Masking with `!(align - 1)` rounds any `usize` down to a multiple of a power-of-two alignment. */
  lemma MaskRoundsDown(v: U64, align: U64)
    requires IsPowerOfTwo(align)
    ensures BitAnd(v, BitNot(Wrap(align - 1))) == v - v % align
    ensures align > 0 && USIZE_LIMIT % align == 0
  {
    var w := WordWidth();
    AlignMask(align, w);
    WordHighMask(v, BitNot(Wrap(align - 1)), align, Log2(align), w);
  }

  /** The round-up is the quotient of `n + a - 1` by `a`, times `a`. */
  lemma {:induction false} RoundUpQuotient(n: nat, a: nat)
    requires a > 0
    ensures RoundUp(n, a) == ((n + a - 1) / a) * a
    decreases n
  {
    if n == 0 {
      ModUnique(a - 1, a, 0, a - 1);
    } else if n <= a {
      ModUnique(n + a - 1, a, 1, n - 1);
    } else {
      RoundUpQuotient(n - a, a);
      ShiftByMultiple(n - 1, a, 1);
      var q := (n - 1) / a;
      assert a + q * a == (q + 1) * a;
    }
  }

  /** The rounded-up size is at or above the size and less than one alignment above it. */
  lemma {:induction false} RoundUpBounds(n: nat, a: nat)
    requires a > 0
    ensures n <= RoundUp(n, a) < n + a
    decreases n
  {
    if n > a {
      RoundUpBounds(n - a, a);
    }
  }

  /** The rounded-up size is a multiple of the alignment, at or above the size, and less than one alignment above it. */
  lemma {:induction false} RoundUpIsLeast(n: nat, a: nat)
    requires a > 0
    ensures RoundUp(n, a) % a == 0 && n <= RoundUp(n, a) < n + a
    decreases n
  {
    if n > a {
      RoundUpIsLeast(n - a, a);
      ShiftByMultiple(RoundUp(n - a, a), a, 1);
    } else if n > 0 {
      ModUnique(a, a, 1, 0);
    }
  }

  /**
    Rounding down `size + align - 1`, computed with wrapping adds, gives the round-up, less 2^64
    when the sum wrapped around.
  */
  lemma RoundedSum(size: U64, align: U64, v: nat, rounded: int)
    requires align > 0 && USIZE_LIMIT % align == 0
    requires v == Wrap(Wrap(size + align) - 1)
    requires rounded == v - v % align
    ensures rounded == RoundUp(size, align) - (if size + align - 1 < USIZE_LIMIT then 0 else USIZE_LIMIT)
  {
    WrappedSum(size, align);
    RoundUpQuotient(size, align);
    if size + align - 1 < USIZE_LIMIT {
      RoundDown(v, align);
    } else {
      RoundDownShifted(size + align - 1, align, USIZE_LIMIT);
    }
  }

  /** Masking the wrapped sum `v` rounds the size up, less 2^64 when the sum wrapped around. */
  lemma MaskedSum(size: U64, align: U64, v: U64)
    requires IsPowerOfTwo(align)
    requires v == Wrap(Wrap(size + align) - 1)
    ensures MaskedRound(size, align) ==
      RoundUp(size, align) - (if size + align - 1 < USIZE_LIMIT then 0 else USIZE_LIMIT)
  {
    MaskRoundsDown(v, align);
    RoundedSum(size, align, v, BitAnd(v, BitNot(Wrap(align - 1))));
  }

  /** A distance below the word size survives the subtraction of a whole word under `Wrap`. */
  lemma WrappedDistance(rounded: int, size: nat, target: nat, wrapped: bool)
    requires size <= target < size + USIZE_LIMIT
    requires rounded == target - (if wrapped then USIZE_LIMIT else 0)
    ensures Wrap(rounded - size) == target - size
  {
    ModUnique(rounded - size, USIZE_LIMIT, if wrapped then -1 else 0, target - size);
  }

  /** The padding arithmetic on plain numbers: the wrapped distance to the masked sum is the distance to the round-up. */
  lemma PaddingFrom(pad: int, masked: int, size: nat, up: nat, align: nat)
    requires pad == Wrap(masked - size)
    requires masked == up - (if size + align - 1 < USIZE_LIMIT then 0 else USIZE_LIMIT)
    requires size <= up < size + align && align <= USIZE_LIMIT
    ensures pad == up - size
  {
    WrappedDistance(masked, size, up, size + align - 1 >= USIZE_LIMIT);
  }

  lemma PaddingRoundsUp(l: ConstLayout, align: U64)
    requires IsPowerOfTwo(align)
    ensures PaddingNeededFor(l, align) == RoundUp(l.size, align) - l.size
  {
    MaskedSum(l.size, align, Wrap(Wrap(l.size + align) - 1));
    RoundUpBounds(l.size, align);
    PaddingFrom(PaddingNeededFor(l, align), MaskedRound(l.size, align), l.size, RoundUp(l.size, align), align);
  }

  /**
    For a power-of-two alignment, the padding is less than the alignment and brings the size
    to a multiple of it.
  */
  lemma PaddingAligns(l: ConstLayout, align: U64)
    requires IsPowerOfTwo(align)
    ensures PaddingNeededFor(l, align) < align
    ensures (l.size + PaddingNeededFor(l, align)) % align == 0
  {
    PaddingRoundsUp(l, align);
    RoundUpIsLeast(l.size, align);
  }

  // ---- extend ----

  /**
    `extend` succeeds exactly when the larger alignment is a power of two and the rounded-up
    size plus the other size stays within `isize::MAX` less the alignment's slack; the other
    field then starts at the rounded-up size: at or after the end of `self`, within one
    alignment of it, and aligned both to the new alignment and to its own.
  */
  lemma ExtendPlacesAfter(self: ConstLayout, other: ConstLayout)
    ensures var a := Max(self.align, other.align);
      Extend(self, other).Some? <==> IsPowerOfTwo(a) && RoundUp(self.size, a) + other.size <= ISIZE_MAX - (a - 1)
    ensures var a := Max(self.align, other.align);
      Extend(self, other).Some? ==>
        && Extend(self, other).value.1 == RoundUp(self.size, a)
        && self.size <= Extend(self, other).value.1 < self.size + a
        && Extend(self, other).value.1 % a == 0
        && (IsPowerOfTwo(other.align) ==> Extend(self, other).value.1 % other.align == 0)
  {
    var a := Max(self.align, other.align);
    if IsPowerOfTwo(a) {
      PaddingRoundsUp(self, a);
      RoundUpIsLeast(self.size, a);
      if IsPowerOfTwo(other.align) {
        PowerOfTwoDivides(other.align, a, RoundUp(self.size, a));
      }
    }
  }
}
