/** Two-limb 128-bit arithmetic, updated in place. */
module Uint128 {
  import opened Basics

  /** Addition and subtraction of 64-bit words, which wrap around. */
  function Add64(a: uint64, b: uint64): (r: uint64)
    ensures r == (a + b) % TWO_TO_THE_64
  {
    if a + b < TWO_TO_THE_64 then a + b else a + b - TWO_TO_THE_64
  }

  function Sub64(a: uint64, b: uint64): (r: uint64)
    ensures r == (a - b) % TWO_TO_THE_64
  {
    if a >= b then a - b else a - b + TWO_TO_THE_64
  }

  function Number(high: uint64, low: uint64): (v: int)
    ensures 0 <= v < TWO_TO_THE_128
  {
    high * TWO_TO_THE_64 + low
  }

  function Add128(x: int, y: int): int {
    (x + y) % TWO_TO_THE_128
  }

  function Sub128(x: int, y: int): int {
    (x - y) % TWO_TO_THE_128
  }

  lemma Wrap128(v: int)
    requires -TWO_TO_THE_128 <= v < 2 * TWO_TO_THE_128
    ensures v % TWO_TO_THE_128
            == if v < 0 then v + TWO_TO_THE_128 else if v < TWO_TO_THE_128 then v else v - TWO_TO_THE_128
  {
  }

  /** The carry out of the low words is detected by their sum having wrapped. */
  lemma {:induction false} AddLimbs(h: uint64, l: uint64, h': uint64, l': uint64)
    ensures var high, low := Add64(h, h'), Add64(l, l');
            Number(if low < l then Add64(high, 1) else high, low) == Add128(Number(h, l), Number(h', l'))
  {
    Wrap128(Number(h, l) + Number(h', l'));
  }

  /** The borrow from the high word is detected by the low difference having wrapped. */
  lemma {:induction false} SubLimbs(h: uint64, l: uint64, h': uint64, l': uint64)
    ensures var high, low := Sub64(h, h'), Sub64(l, l');
            Number(if low > l then Sub64(high, 1) else high, low) == Sub128(Number(h, l), Number(h', l'))
  {
    Wrap128(Number(h, l) - Number(h', l'));
  }

  /** Subtraction undoes addition and addition undoes subtraction, whatever wrapped around. */
  lemma {:induction false} SubUndoesAdd(x: int, y: int)
    requires 0 <= x < TWO_TO_THE_128 && 0 <= y < TWO_TO_THE_128
    ensures Sub128(Add128(x, y), y) == x
    ensures Add128(Sub128(x, y), y) == x
  {
    Wrap128(x + y);
    Wrap128(Add128(x, y) - y);
    Wrap128(x - y);
    Wrap128(Sub128(x, y) + y);
  }

  class Uint128 {
    var high: uint64
    var low: uint64

    /** The number the two limbs stand for. */
    ghost function Value(): (v: int)
      reads this
      ensures 0 <= v < TWO_TO_THE_128
    {
      Number(high, low)
    }

    constructor (high: uint64, low: uint64)
      ensures this.high == high && this.low == low
      ensures Value() == Number(high, low)
    {
      this.high, this.low := high, low;
    }

    /** `other` may be this object. */
    method AddAssign(other: Uint128)
      modifies this
      ensures Value() == Add128(old(Value()), old(other.Value()))
    {
      AddLimbs(high, low, other.high, other.low);
      high := Add64(high, other.high);
      var newLow := Add64(low, other.low);
      if newLow < low { high := Add64(high, 1); }
      low := newLow;
    }

    /** `other` may be this object. */
    method SubAssign(other: Uint128)
      modifies this
      ensures Value() == Sub128(old(Value()), old(other.Value()))
    {
      SubLimbs(high, low, other.high, other.low);
      high := Sub64(high, other.high);
      var newLow := Sub64(low, other.low);
      if newLow > low { high := Sub64(high, 1); }
      low := newLow;
    }

    method Increment()
      modifies this
      ensures Value() == Add128(old(Value()), 1)
    {
      var one := new Uint128(0, 1);
      AddAssign(one);
    }

    method PostIncrement() returns (before: Uint128)
      modifies this
      ensures fresh(before) && before.Value() == old(Value())
      ensures Value() == Add128(old(Value()), 1)
    {
      before := new Uint128(high, low);
      var one := new Uint128(0, 1);
      AddAssign(one);
    }

    method Decrement()
      modifies this
      ensures Value() == Sub128(old(Value()), 1)
    {
      var one := new Uint128(0, 1);
      SubAssign(one);
    }

    method PostDecrement() returns (before: Uint128)
      modifies this
      ensures fresh(before) && before.Value() == old(Value())
      ensures Value() == Sub128(old(Value()), 1)
    {
      before := new Uint128(high, low);
      var one := new Uint128(0, 1);
      SubAssign(one);
    }
  }

  // ---- The comparisons are the integer order

  predicate Equal(a: Uint128, b: Uint128): (r: bool)
    reads a, b
    ensures r <==> a.Value() == b.Value()
  {
    a.high == b.high && a.low == b.low
  }

  predicate NotEqual(a: Uint128, b: Uint128): (r: bool)
    reads a, b
    ensures r <==> a.Value() != b.Value()
  {
    !Equal(a, b)
  }

  predicate Less(a: Uint128, b: Uint128): (r: bool)
    reads a, b
    ensures r <==> a.Value() < b.Value()
  {
    a.high < b.high || (a.high == b.high && a.low < b.low)
  }

  predicate LessOrEqual(a: Uint128, b: Uint128): (r: bool)
    reads a, b
    ensures r <==> a.Value() <= b.Value()
  {
    a.high < b.high || (a.high == b.high && a.low <= b.low)
  }

  predicate Greater(a: Uint128, b: Uint128): (r: bool)
    reads a, b
    ensures r <==> a.Value() > b.Value()
  {
    !LessOrEqual(a, b)
  }

  predicate GreaterOrEqual(a: Uint128, b: Uint128): (r: bool)
    reads a, b
    ensures r <==> a.Value() >= b.Value()
  {
    !Less(a, b)
  }
}
