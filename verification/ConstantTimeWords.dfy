/** Branch-free comparison, selection and swapping of machine words. The `value_barrier`
    calls of the original return their argument and are left out of the expressions. */
module ConstantTimeWords {

  // ---------- 32 bits ----------

  function Msb32(a: bv32): bv32 {
    0 - (a >> 31)
  }

  function Lt32(a: bv32, b: bv32): bv32 {
    Msb32(a ^ ((a ^ b) | ((a - b) ^ b)))
  }

  function Ge32(a: bv32, b: bv32): bv32 {
    !Lt32(a, b)
  }

  function IsZero32(a: bv32): bv32 {
    Msb32(!a & (a - 1))
  }

  function Eq32(a: bv32, b: bv32): bv32 {
    IsZero32(a ^ b)
  }

  function Select32(mask: bv32, a: bv32, b: bv32): bv32 {
    (mask & a) | (!mask & b)
  }

  /** All ones for true, all zeros for false. */
  function Mask32(p: bool): bv32 {
    if p then 0xFFFF_FFFF else 0
  }

  predicate Top32(a: bv32) {
    a & 0x8000_0000 != 0
  }

  function Plus32(a: bv32, b: bv32): bv32 {
    a + b
  }

  function Minus32(a: bv32): bv32 {
    0 - a
  }

  /** Every `a` is `b` plus something, namely `a - b`. */
  lemma DifferenceReaches32(a: bv32, b: bv32)
    ensures exists d :: Plus32(b, d) == a
  {
    assert Plus32(b, a - b) == a;
  }

  lemma SumCancels32(b: bv32, d: bv32)
    ensures Plus32(b + d, 0 - d) == b
  {
  }

  lemma PlusCancels32(b: bv32, d: bv32)
    ensures Plus32(Plus32(b, d), Minus32(d)) == b
  {
    SumCancels32(b, d);
  }

  lemma AddedBack32(a: bv32, b: bv32, d: bv32)
    requires a == Plus32(b, d)
    ensures b == Plus32(a, Minus32(d))
  {
    PlusCancels32(b, d);
  }

  /** Adding something from the upper half, and staying in one's half, goes down. */
  lemma UpperHalfLowers32(b: bv32, d: bv32)
    requires Top32(d) && Top32(Plus32(b, d)) == Top32(b)
    ensures Plus32(b, d) < b
  {
  }

  lemma SumLowers32(a: bv32, b: bv32, d: bv32)
    requires a == Plus32(b, d) && Top32(d) && Top32(a) == Top32(b)
    ensures a < b
  {
    UpperHalfLowers32(b, d);
  }

  lemma MinusIsUpper32(d: bv32)
    requires d != 0 && !Top32(d)
    ensures Top32(Minus32(d))
  {
  }

  lemma NothingAdded32(a: bv32, b: bv32, d: bv32)
    requires a == Plus32(b, d) && d == 0
    ensures a == b
  {
  }

  /** Adding `d` within one half of the range went down exactly if `d` is in the upper half. */
  lemma SameHalf32(a: bv32, b: bv32, d: bv32)
    requires a == Plus32(b, d) && Top32(a) == Top32(b)
    ensures Top32(d) == (a < b)
  {
    if Top32(d) {
      SumLowers32(a, b, d);
    } else if d == 0 {
      NothingAdded32(a, b, d);
    } else {
      AddedBack32(a, b, d);
      MinusIsUpper32(d);
      SumLowers32(b, a, Minus32(d));
    }
  }

  lemma OtherHalf32(a: bv32, b: bv32)
    requires Top32(a) != Top32(b)
    ensures Top32(b) == (a < b)
  {
  }

  /** The order is decided by the top bits of the operands and of their difference. */
  lemma OrderByTops32(a: bv32, b: bv32, d: bv32)
    requires a == Plus32(b, d)
    ensures (a < b) == if Top32(a) == Top32(b) then Top32(d) else Top32(b)
  {
    if Top32(a) == Top32(b) {
      SameHalf32(a, b, d);
    } else {
      OtherHalf32(a, b);
    }
  }

  /** The expression of constant_time_lt takes that decision in its top bit. */
  lemma LtByTops32(b: bv32, d: bv32)
    ensures Lt32(b + d, b) == Mask32(if Top32(b + d) == Top32(b) then Top32(d) else Top32(b))
  {
  }

  lemma LtOfSum32(a: bv32, b: bv32, d: bv32)
    requires a == Plus32(b, d)
    ensures Lt32(a, b) == Mask32(a < b)
  {
    LtByTops32(b, d);
    OrderByTops32(a, b, d);
  }

  lemma Lt32Correct(a: bv32, b: bv32)
    ensures Lt32(a, b) == Mask32(a < b)
  {
    DifferenceReaches32(a, b);
    var d :| Plus32(b, d) == a;
    LtOfSum32(a, b, d);
  }

  lemma Complement32(less: bool)
    ensures !Mask32(less) == Mask32(!less)
  {
  }

  lemma Ge32Correct(a: bv32, b: bv32)
    ensures Ge32(a, b) == Mask32(a >= b)
  {
    Lt32Correct(a, b);
    Complement32(a < b);
  }

  lemma IsZero32Correct(a: bv32)
    ensures IsZero32(a) == Mask32(a == 0)
  {
  }

  lemma Eq32Correct(a: bv32, b: bv32)
    ensures Eq32(a, b) == Mask32(a == b)
  {
    IsZero32Correct(a ^ b);
  }

  lemma SelectFirst32(a: bv32, b: bv32)
    ensures Select32(0xFFFF_FFFF, a, b) == a
  {
  }

  lemma SelectSecond32(a: bv32, b: bv32)
    ensures Select32(0, a, b) == b
  {
  }

  lemma Select32Correct(p: bool, a: bv32, b: bv32)
    ensures Select32(Mask32(p), a, b) == if p then a else b
  {
    if p {
      SelectFirst32(a, b);
    } else {
      SelectSecond32(a, b);
    }
  }

  /** What the three exclusive ors of a conditional swap come to. */
  lemma XorSwap32(mask: bv32, a: bv32, b: bv32, xor: bv32)
    requires mask == 0 || mask == 0xFFFF_FFFF
    requires xor == (a ^ b) & mask
    ensures a ^ xor == if mask == 0 then a else b
    ensures b ^ xor == if mask == 0 then b else a
  {
  }

  /** Xor-ing `xor` into `x` gives `y`. */
  ghost predicate Turns32(xor: bv32, x: bv32, y: bv32) {
    x ^ xor == y
  }

  /** A word in memory, for pointers to point at. */
  class Word32 {
    var value: bv32

    constructor (value: bv32)
      ensures this.value == value
    {
      this.value := value;
    }

    method XorInto(xor: bv32, ghost result: bv32)
      requires Turns32(xor, value, result)
      modifies this
      ensures value == result
    {
      value := value ^ xor;
    }
  }

  method MaskedDifference32(mask: bv32, x: bv32, y: bv32) returns (xor: bv32)
    requires mask == 0 || mask == 0xFFFF_FFFF
    ensures mask == 0 ==> Turns32(xor, x, x) && Turns32(xor, y, y)
    ensures mask != 0 ==> Turns32(xor, x, y) && Turns32(xor, y, x)
  {
    xor := x ^ y;
    xor := xor & mask;
    XorSwap32(mask, x, y, xor);
  }

  /** constant_time_cond_swap_32. Both pointers may point at one word. */
  method CondSwap32(mask: bv32, a: Word32, b: Word32)
    requires mask == 0 || mask == 0xFFFF_FFFF
    modifies a, b
    ensures a.value == if mask == 0 then old(a.value) else old(b.value)
    ensures b.value == if mask == 0 then old(b.value) else old(a.value)
  {
    ghost var x, y := if mask == 0 then a.value else b.value, if mask == 0 then b.value else a.value;
    var xor := MaskedDifference32(mask, a.value, b.value);
    a.XorInto(xor, x);
    assert b.value == old(b.value);
    b.XorInto(xor, y);
  }

  // ---------- 64 bits, which is also size_t ----------

  function Msb64(a: bv64): bv64 {
    0 - (a >> 63)
  }

  function Lt64(a: bv64, b: bv64): bv64 {
    Msb64(a ^ ((a ^ b) | ((a - b) ^ b)))
  }

  function Ge64(a: bv64, b: bv64): bv64 {
    !Lt64(a, b)
  }

  function IsZero64(a: bv64): bv64 {
    Msb64(!a & (a - 1))
  }

  function Eq64(a: bv64, b: bv64): bv64 {
    IsZero64(a ^ b)
  }

  function Select64(mask: bv64, a: bv64, b: bv64): bv64 {
    (mask & a) | (!mask & b)
  }

  /** All ones for true, all zeros for false. */
  function Mask64(p: bool): bv64 {
    if p then 0xFFFF_FFFF_FFFF_FFFF else 0
  }

  predicate Top64(a: bv64) {
    a & 0x8000_0000_0000_0000 != 0
  }

  function Plus64(a: bv64, b: bv64): bv64 {
    a + b
  }

  function Minus64(a: bv64): bv64 {
    0 - a
  }

  /** Every `a` is `b` plus something, namely `a - b`. */
  lemma DifferenceReaches64(a: bv64, b: bv64)
    ensures exists d :: Plus64(b, d) == a
  {
    assert Plus64(b, a - b) == a;
  }

  lemma SumCancels64(b: bv64, d: bv64)
    ensures Plus64(b + d, 0 - d) == b
  {
  }

  lemma PlusCancels64(b: bv64, d: bv64)
    ensures Plus64(Plus64(b, d), Minus64(d)) == b
  {
    SumCancels64(b, d);
  }

  lemma AddedBack64(a: bv64, b: bv64, d: bv64)
    requires a == Plus64(b, d)
    ensures b == Plus64(a, Minus64(d))
  {
    PlusCancels64(b, d);
  }

  /** Adding something from the upper half, and staying in one's half, goes down. */
  lemma UpperHalfLowers64(b: bv64, d: bv64)
    requires Top64(d) && Top64(Plus64(b, d)) == Top64(b)
    ensures Plus64(b, d) < b
  {
  }

  lemma SumLowers64(a: bv64, b: bv64, d: bv64)
    requires a == Plus64(b, d) && Top64(d) && Top64(a) == Top64(b)
    ensures a < b
  {
    UpperHalfLowers64(b, d);
  }

  lemma MinusIsUpper64(d: bv64)
    requires d != 0 && !Top64(d)
    ensures Top64(Minus64(d))
  {
  }

  lemma NothingAdded64(a: bv64, b: bv64, d: bv64)
    requires a == Plus64(b, d) && d == 0
    ensures a == b
  {
  }

  /** Adding `d` within one half of the range went down exactly if `d` is in the upper half. */
  lemma SameHalf64(a: bv64, b: bv64, d: bv64)
    requires a == Plus64(b, d) && Top64(a) == Top64(b)
    ensures Top64(d) == (a < b)
  {
    if Top64(d) {
      SumLowers64(a, b, d);
    } else if d == 0 {
      NothingAdded64(a, b, d);
    } else {
      AddedBack64(a, b, d);
      MinusIsUpper64(d);
      SumLowers64(b, a, Minus64(d));
    }
  }

  lemma OtherHalf64(a: bv64, b: bv64)
    requires Top64(a) != Top64(b)
    ensures Top64(b) == (a < b)
  {
  }

  /** The order is decided by the top bits of the operands and of their difference. */
  lemma OrderByTops64(a: bv64, b: bv64, d: bv64)
    requires a == Plus64(b, d)
    ensures (a < b) == if Top64(a) == Top64(b) then Top64(d) else Top64(b)
  {
    if Top64(a) == Top64(b) {
      SameHalf64(a, b, d);
    } else {
      OtherHalf64(a, b);
    }
  }

  /** The expression of constant_time_lt takes that decision in its top bit. */
  lemma LtByTops64(b: bv64, d: bv64)
    ensures Lt64(b + d, b) == Mask64(if Top64(b + d) == Top64(b) then Top64(d) else Top64(b))
  {
  }

  lemma LtOfSum64(a: bv64, b: bv64, d: bv64)
    requires a == Plus64(b, d)
    ensures Lt64(a, b) == Mask64(a < b)
  {
    LtByTops64(b, d);
    OrderByTops64(a, b, d);
  }

  lemma Lt64Correct(a: bv64, b: bv64)
    ensures Lt64(a, b) == Mask64(a < b)
  {
    DifferenceReaches64(a, b);
    var d :| Plus64(b, d) == a;
    LtOfSum64(a, b, d);
  }

  lemma Complement64(less: bool)
    ensures !Mask64(less) == Mask64(!less)
  {
  }

  lemma Ge64Correct(a: bv64, b: bv64)
    ensures Ge64(a, b) == Mask64(a >= b)
  {
    Lt64Correct(a, b);
    Complement64(a < b);
  }

  lemma IsZero64Correct(a: bv64)
    ensures IsZero64(a) == Mask64(a == 0)
  {
  }

  lemma Eq64Correct(a: bv64, b: bv64)
    ensures Eq64(a, b) == Mask64(a == b)
  {
    IsZero64Correct(a ^ b);
  }

  lemma SelectFirst64(a: bv64, b: bv64)
    ensures Select64(0xFFFF_FFFF_FFFF_FFFF, a, b) == a
  {
  }

  lemma SelectSecond64(a: bv64, b: bv64)
    ensures Select64(0, a, b) == b
  {
  }

  lemma Select64Correct(p: bool, a: bv64, b: bv64)
    ensures Select64(Mask64(p), a, b) == if p then a else b
  {
    if p {
      SelectFirst64(a, b);
    } else {
      SelectSecond64(a, b);
    }
  }

  /** What the three exclusive ors of a conditional swap come to. */
  lemma XorSwap64(mask: bv64, a: bv64, b: bv64, xor: bv64)
    requires mask == 0 || mask == 0xFFFF_FFFF_FFFF_FFFF
    requires xor == (a ^ b) & mask
    ensures a ^ xor == if mask == 0 then a else b
    ensures b ^ xor == if mask == 0 then b else a
  {
  }

  /** Xor-ing `xor` into `x` gives `y`. */
  ghost predicate Turns64(xor: bv64, x: bv64, y: bv64) {
    x ^ xor == y
  }

  /** A word in memory, for pointers to point at. */
  class Word64 {
    var value: bv64

    constructor (value: bv64)
      ensures this.value == value
    {
      this.value := value;
    }

    method XorInto(xor: bv64, ghost result: bv64)
      requires Turns64(xor, value, result)
      modifies this
      ensures value == result
    {
      value := value ^ xor;
    }
  }

  method MaskedDifference64(mask: bv64, x: bv64, y: bv64) returns (xor: bv64)
    requires mask == 0 || mask == 0xFFFF_FFFF_FFFF_FFFF
    ensures mask == 0 ==> Turns64(xor, x, x) && Turns64(xor, y, y)
    ensures mask != 0 ==> Turns64(xor, x, y) && Turns64(xor, y, x)
  {
    xor := x ^ y;
    xor := xor & mask;
    XorSwap64(mask, x, y, xor);
  }

  /** constant_time_cond_swap_64. Both pointers may point at one word. */
  method CondSwap64(mask: bv64, a: Word64, b: Word64)
    requires mask == 0 || mask == 0xFFFF_FFFF_FFFF_FFFF
    modifies a, b
    ensures a.value == if mask == 0 then old(a.value) else old(b.value)
    ensures b.value == if mask == 0 then old(b.value) else old(a.value)
  {
    ghost var x, y := if mask == 0 then a.value else b.value, if mask == 0 then b.value else a.value;
    var xor := MaskedDifference64(mask, a.value, b.value);
    a.XorInto(xor, x);
    assert b.value == old(b.value);
    b.XorInto(xor, y);
  }
}
