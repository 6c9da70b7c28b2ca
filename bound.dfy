/** `BoundT<T>` of Primitive/Bound.hpp, instantiated with `T = Index`; `Range` (used by the
    point kd-tree) is this instantiation. */
module Bound {
  import opened Types

  /** A closed-open interval `[min_, max_)` of indices; the constructor does not check
      `min_ <= max_` (the assertion is commented out in the source). */
  datatype BoundT = BoundT(min_: Index, max_: Index)
  {
    function Size(): Index
    {
      max_ - min_
    }

    /** `min_ + static_cast<T>(Size() * 0.5)`: the size is converted to `double`, halved,
        and truncated toward zero. */
    function Center(): Index
    {
      min_ + TruncReal(RoundToBits(Size(), DOUBLE_BITS) as real * 0.5)
    }

    function Min(): Index { min_ }

    function Max(): Index { max_ }

    /** Grows the bound to take in one more value. */
    function UnionPoint(rhs: Index): (r: BoundT)
      ensures r.Min() <= Min() && r.Min() <= rhs
      ensures r.Max() >= Max() && r.Max() >= rhs
      ensures r.Min() == Min() || r.Min() == rhs
      ensures r.Max() == Max() || r.Max() == rhs
    {
      BoundT(Types.Min(min_, rhs), Types.Max(max_, rhs))
    }

    /** Grows the bound to take in another bound. */
    function Union(rhs: BoundT): (r: BoundT)
      ensures r.Min() <= Min() && r.Min() <= rhs.Min()
      ensures r.Max() >= Max() && r.Max() >= rhs.Max()
      ensures r.Min() == Min() || r.Min() == rhs.Min()
      ensures r.Max() == Max() || r.Max() == rhs.Max()
    {
      BoundT(Types.Min(min_, rhs.Min()), Types.Max(max_, rhs.Max()))
    }

    /** Splits at `min_ + static_cast<T>(length * ratio)`: the length is converted to `float`
        (`Real`), multiplied by the ratio and truncated toward zero. The source guards this
        with `assert(ratio >= 0 || ratio <= 1)`, which no real ratio fails, so none is refused
        here. The cut never falls below `Min()` for a non-negative ratio; it stays at or below
        `Max()` for ratios up to one half, and for ratios up to one while the length converts
        exactly.

        The product with the ratio is taken exactly. In `float` a ratio that is not a power
        of two can round it once more (length 31 times the `float` 0.12903225 rounds up to 4),
        so the model's cut can be one below the source's; one half never rounds again. The
        bounds above hold for the source's cut too: rounding is monotone, and the values the
        product is compared with (half the rounded length, the length up to `2^24`) are
        `float` values. */
    function Split(ratio: real): (halves: (BoundT, BoundT))
      ensures halves.0.Min() == Min() && halves.1.Max() == Max()
      ensures halves.0.Max() == halves.1.Min()
      ensures 0.0 <= ratio && Size() >= 0 ==> Min() <= halves.0.Max()
      ensures 0.0 <= ratio <= 0.5 && Size() >= 0 ==> halves.0.Max() <= Max()
      ensures 0.0 <= ratio <= 1.0 && 0 <= Size() <= FLOAT_EXACT ==> halves.0.Max() <= Max()
    {
      var length := Size();
      CutInside(length, ratio);
      var split := min_ + Cut(RoundToBits(length, FLOAT_BITS), ratio);
      (BoundT(min_, split), BoundT(split, max_))
    }
  }

  /** The offset of the cut of `Split` from `Min()`, given the length already rounded to
      `float`: times the ratio, truncated toward zero. */
  function Cut(rounded: int, ratio: real): int
  {
    TruncReal(rounded as real * ratio)
  }

  /** Where the cut of `Split` falls, measured from `Min()`: at or after it for a
      non-negative ratio, at or before `length` for a ratio up to one half, and for a ratio
      up to one while the length converts to `float` exactly. */
  lemma CutInside(length: int, ratio: real)
    ensures 0.0 <= ratio && length >= 0 ==> 0 <= Cut(RoundToBits(length, FLOAT_BITS), ratio)
    ensures 0.0 <= ratio <= 0.5 && length >= 0 ==> Cut(RoundToBits(length, FLOAT_BITS), ratio) <= length
    ensures 0.0 <= ratio <= 1.0 && 0 <= length <= FLOAT_EXACT ==> Cut(RoundToBits(length, FLOAT_BITS), ratio) <= length
  {
    if length >= 0 && 0.0 <= ratio {
      var rounded := RoundToBits(length, FLOAT_BITS);
      assert 0 <= rounded <= 2 * length by {
        RoundedBelowTwice(length);
      }
      CutNonNegative(rounded, ratio);
      if ratio <= 0.5 {
        CutWithinHalf(rounded, ratio, length);
      }
      if length <= FLOAT_EXACT && ratio <= 1.0 {
        assert rounded == length by {
          Pow2Exact();
          RoundToBitsExact(length, FLOAT_BITS);
        }
        CutWithinWhole(rounded, ratio, length);
      }
    }
  }

  /** Rounding a non-negative length to `float` at most doubles it. */
  lemma RoundedBelowTwice(length: int)
    requires 0 <= length
    ensures 0 <= RoundToBits(length, FLOAT_BITS) <= 2 * length
  {
    RoundToBitsBelowTwice(length, FLOAT_BITS);
    if length == 0 {
      Pow2Exact();
      RoundToBitsExact(0, FLOAT_BITS);
    }
  }

  /** Truncating a non-negative quantity scaled by a non-negative ratio gives at least zero. */
  lemma CutNonNegative(rounded: int, ratio: real)
    requires 0 <= rounded && 0.0 <= ratio
    ensures 0 <= Cut(rounded, ratio)
  {
    ScaleWithin(rounded as real, ratio, ratio);
  }

  /** Truncating `rounded * ratio` for a ratio up to one half stays at or below any `length`
      with `rounded <= 2 * length`. */
  lemma CutWithinHalf(rounded: int, ratio: real, length: int)
    requires 0 <= rounded <= 2 * length && 0.0 <= ratio <= 0.5
    ensures Cut(rounded, ratio) <= length
  {
    ScaleWithin(rounded as real, ratio, 0.5);
    assert rounded as real * ratio <= length as real;
  }

  /** Truncating `rounded * ratio` for a ratio up to one stays at or below any `length`
      with `rounded <= length`. */
  lemma CutWithinWhole(rounded: int, ratio: real, length: int)
    requires 0 <= rounded <= length && 0.0 <= ratio <= 1.0
    ensures Cut(rounded, ratio) <= length
  {
    ScaleWithin(rounded as real, ratio, 1.0);
    assert rounded as real * ratio <= length as real;
  }

  /** Scaling a non-negative quantity by a non-negative ratio, and by a ratio up to `low`. */
  lemma ScaleWithin(x: real, ratio: real, low: real)
    requires 0.0 <= x && 0.0 <= ratio
    ensures 0.0 <= x * ratio
    ensures ratio <= low ==> x * ratio <= x * low
  {
  }

  /** `Range` is `BoundT<Index>`. */
  type Range = BoundT

  /** The center of a well-formed bound lies inside it, strictly below the top when the bound
      is not empty. While the size converts to `double` exactly (up to `2^53`) the center is
      the lower end plus half the size, rounded down. */
  lemma CenterIsMiddle(b: BoundT)
    requires b.Size() >= 0
    ensures b.Size() <= DOUBLE_EXACT ==> b.Center() == b.Min() + b.Size() / 2
    ensures b.Min() <= b.Center() <= b.Max()
    ensures b.Size() > 0 ==> b.Center() < b.Max()
  {
    var s := b.Size();
    var rounded := RoundToBits(s, DOUBLE_BITS);
    RoundToBitsBelowTwice(s, DOUBLE_BITS);
    assert (rounded as real * 0.5).Floor == rounded / 2;
    if s <= DOUBLE_EXACT {
      Pow2Exact();
      RoundToBitsExact(s, DOUBLE_BITS);
    }
  }

  /** While the size converts to `float` exactly (up to `2^24`), splitting at one half cuts
      exactly at the center, and the two halves have sizes `Size()/2` and
      `Size() - Size()/2`: together they cover the bound with no gap and no overlap, and each
      is strictly smaller than a bound of two or more. */
  lemma HalfSplitAtCenter(b: BoundT)
    requires 0 <= b.Size() <= FLOAT_EXACT
    ensures b.Split(0.5).0 == BoundT(b.Min(), b.Center())
    ensures b.Split(0.5).1 == BoundT(b.Center(), b.Max())
    ensures b.Split(0.5).0.Size() == b.Size() / 2
    ensures b.Split(0.5).1.Size() == b.Size() - b.Size() / 2
    ensures b.Size() >= 2 ==> 0 < b.Split(0.5).0.Size() < b.Size() && 0 < b.Split(0.5).1.Size() < b.Size()
  {
    Pow2Exact();
    RoundToBitsExact(b.Size(), FLOAT_BITS);
    CenterIsMiddle(b);
  }

  /** Past `2^24` the `float` product parts from the center: a bound of 16777219 positions
      has its center at 8388609, `Split(0.5)` cuts one position higher, and `Split(1.0)`
      cuts beyond `Max()`. */
  lemma FloatSplitOffCenter()
    ensures BoundT(0, 16777219).Center() == 8388609
    ensures BoundT(0, 16777219).Split(0.5).0.Max() == 8388610
    ensures BoundT(0, 16777219).Split(1.0).0.Max() == 16777220 > BoundT(0, 16777219).Max()
  {
    DoubleKeeps16777219();
    FloatRounds16777219();
    assert TruncReal(16777219 as real * 0.5) == 8388609;
    assert TruncReal(16777220 as real * 0.5) == 8388610;
    assert TruncReal(16777220 as real * 1.0) == 16777220;
  }

  /** 16777219 converts to `double` exactly. */
  lemma DoubleKeeps16777219()
    ensures RoundToBits(16777219, DOUBLE_BITS) == 16777219
  {
    Pow2Exact();
    Pow2Mono(FLOAT_BITS, DOUBLE_BITS);
    RoundToBitsExact(16777219, DOUBLE_BITS);
  }

  /** 16777219 converts to 16777220 in `float`: the tie between 16777218 and 16777220 goes
      to the even significand. */
  lemma FloatRounds16777219()
    ensures RoundToBits(16777219, FLOAT_BITS) == 16777220
  {
    Pow2Exact();
    RoundToBitsBinade(16777219, FLOAT_BITS);
  }

  /** Past `2^53` the `double` product parts from the middle too: a bound of `2^53 + 3`
      positions has its center one position above `Min() + Size() / 2`. */
  lemma DoubleCenterOffMiddle()
    ensures BoundT(0, DOUBLE_EXACT + 3).Center() == DOUBLE_EXACT / 2 + 2
    ensures BoundT(0, DOUBLE_EXACT + 3).Center() == BoundT(0, DOUBLE_EXACT + 3).Size() / 2 + 1
  {
    Pow2Exact();
    RoundToBitsBinade(DOUBLE_EXACT + 3, DOUBLE_BITS);
  }

  /** The guard of `Split` accepts every real ratio. */
  lemma SplitGuardAcceptsAll(ratio: real)
    ensures ratio >= 0.0 || ratio <= 1.0
  {
  }
}
