/**
  Fixed-width machine integers and their bit patterns.

  The Rust code packs counts and flag words into wider integers with `transmute` and tests flags
  with `&`, `|` and `!`. The model keeps every machine integer an ordinary bounded `int` and every
  flag word a set of bit positions, so that "bit i is set" is set membership and "mask OR flag" is
  set union. `Word` and `BitsOf` translate between the two views and are proved mutually inverse.
*/
module Bits {

  /** The ranges of Rust's `u16`, `u32` and `u64` (`usize` is 64 bits wide here). */
  type U16 = x: int | 0 <= x < 0x1_0000
  type U32 = x: int | 0 <= x < 0x1_0000_0000
  type U64 = x: int | 0 <= x < 0x1_0000_0000_0000_0000

  /** A bit position of a 32-bit word. */
  type Bit = i: nat | i < 32

  /** Two to the power `k`. */
  function Pow2(k: nat): (r: nat)
    ensures r >= 1
  {
    if k == 0 then 1 else 2 * Pow2(k - 1)
  }

  lemma {:induction false} Pow2Add(a: nat, b: nat)
    ensures Pow2(a + b) == Pow2(a) * Pow2(b)
    decreases a
  {
    if a > 0 {
      Pow2Add(a - 1, b);
      assert Pow2(a + b) == 2 * Pow2(a - 1 + b);
    }
  }

  /** The widths the model uses, as numbers. */
  lemma Pow2Widths()
    ensures Pow2(16) == 0x1_0000
    ensures Pow2(32) == 0x1_0000_0000
  {
    assert Pow2(4) == 16 by { assert Pow2(2) == 4; Pow2Add(2, 2); }
    assert Pow2(8) == 256 by { Pow2Add(4, 4); }
    assert Pow2(16) == 0x1_0000 by { Pow2Add(8, 8); }
    assert Pow2(32) == 0x1_0000_0000 by { Pow2Add(16, 16); }
  }

  /** Every position of `b`, one higher. */
  function Shift(b: set<nat>): set<nat> {
    set i | i in b :: i + 1
  }

  /** Every position of `b` but zero, one lower. */
  function Unshift(b: set<nat>): set<nat> {
    set i | i in b && i >= 1 :: (i - 1) as nat
  }

  /** A set is its zero position together with the shifted-back rest. */
  lemma ShiftUnshift(b: set<nat>)
    ensures (if 0 in b then {0} else {}) + Shift(Unshift(b)) == b
  {
    var low: set<nat> := if 0 in b then {0} else {};
    var u := Unshift(b);
    var r := low + Shift(u);
    forall i: nat | i in b ensures i in r {
      if i > 0 {
        var j: nat := i - 1;
        assert j in u;
        assert j + 1 in Shift(u);
      }
    }
    forall i: nat | i in r ensures i in b {
      if i > 0 {
        assert i in Shift(u);
        var k :| k in u && i == k + 1;
      }
    }
  }

  /** Shifting back undoes shifting, whatever is at position zero. */
  lemma UnshiftShift(low: set<nat>, b: set<nat>)
    requires low <= {0}
    ensures Unshift(low + Shift(b)) == b
  {
    var r := Unshift(low + Shift(b));
    forall i: nat | i in b ensures i in r {
      assert i + 1 in Shift(b);
      assert (i + 1 - 1) as nat == i;
    }
    forall i: nat | i in r ensures i in b {
      var k :| k in low + Shift(b) && k >= 1 && i == k - 1;
      assert k in Shift(b);
    }
  }

  /** Every position of `b` lies below `width`. */
  predicate Below(b: set<nat>, width: nat) {
    forall i :: i in b ==> i < width
  }

  /** The number of `width` bits whose set positions are `b` (positions at or above `width` are dropped). */
  function Word(b: set<nat>, width: nat): (n: nat)
    ensures n < Pow2(width)
    decreases width
  {
    if width == 0 then 0 else (if 0 in b then 1 else 0) + 2 * Word(Unshift(b), width - 1)
  }

  /** The set positions among the low `width` bits of `n`. */
  function BitsOf(n: nat, width: nat): (b: set<nat>)
    ensures Below(b, width)
  {
    if width == 0 then {} else (if n % 2 == 1 then {0} else {}) + Shift(BitsOf(n / 2, width - 1))
  }

  /** Reading back the bits of a word gives the positions it was built from. */
  lemma {:induction false} BitsOfWord(b: set<nat>, width: nat)
    requires Below(b, width)
    ensures BitsOf(Word(b, width), width) == b
    decreases width
  {
    if width == 0 {
      assert b == {};
    } else {
      var rest := Unshift(b);
      var m := Word(rest, width - 1);
      var n := Word(b, width);
      assert n % 2 == 1 <==> 0 in b;
      assert n / 2 == m;
      assert Below(rest, width - 1);
      BitsOfWord(rest, width - 1);
      ShiftUnshift(b);
    }
  }

  /** Rebuilding a word from its bits gives the word back. */
  lemma {:induction false} WordOfBits(n: nat, width: nat)
    requires n < Pow2(width)
    ensures Word(BitsOf(n, width), width) == n
  {
    if width > 0 {
      WordOfBits(n / 2, width - 1);
      UnshiftShift(if n % 2 == 1 then {0} else {}, BitsOf(n / 2, width - 1));
    }
  }

  /** The word with the single bit `k` set is `1 << k`. */
  lemma {:induction false} WordOfSingleBit(k: nat, width: nat)
    requires k < width
    ensures Word({k}, width) == Pow2(k)
    decreases k
  {
    if k == 0 {
      UnshiftShift({0}, {});
      assert {0} + Shift({}) == {0};
      WordOfEmpty(width - 1);
    } else {
      UnshiftShift({}, {k - 1});
      assert Shift({k - 1}) == {k};
      assert {} + Shift({k - 1}) == {k};
      WordOfSingleBit(k - 1, width - 1);
    }
  }

  lemma {:induction false} WordOfEmpty(width: nat)
    ensures Word({}, width) == 0
  {
    if width > 0 {
      UnshiftShift({}, {});
      assert Shift({}) == {};
      assert {} + Shift({}) == {};
      WordOfEmpty(width - 1);
    }
  }
}
