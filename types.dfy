/** Common scalar types and the integer/real helpers of Primitive/Types.hpp. */
module Types {

  /** `Index` is a 64-bit signed integer in the source; the model keeps it unbounded
      (every index here stays far below 2^63). */
  type Index = int

  /** `Real` is a 32-bit `float` in the source. Coordinates are exact reals here: they are
      only compared and passed through `min`/`max`, which round nothing. Where the source
      converts an integer to `float` or `double`, the model rounds explicitly
      (`RoundToBits`). */
  type Real = real

  /** A value that may be absent: a pointer that may be null. */
  datatype Option<T> = None | Some(value: T)

  /** The sentinel for "no index", also the unset split of a tree node. */
  const INDEX_INVALID: Index := -1

  /** The `_i` literal: converts a non-negative literal to an `Index`, keeping its value. */
  function IndexLiteral(val: nat): (r: Index)
    ensures r >= 0 && r as nat == val
  {
    val
  }

  /** `min(Index b, Index a)`: note the swapped parameter names of the source; the
      first argument wins a tie. */
  function Min(b: Index, a: Index): (r: Index)
    ensures r <= a && r <= b
    ensures r == a || r == b
    ensures a == b ==> r == b
  {
    if a < b then a else b
  }

  /** `max(Index b, Index a)`; the first argument wins a tie. */
  function Max(b: Index, a: Index): (r: Index)
    ensures r >= a && r >= b
    ensures r == a || r == b
    ensures a == b ==> r == b
  {
    if a > b then a else b
  }

  /** `min(Real a, Real b)`. */
  function MinReal(a: Real, b: Real): (r: Real)
    ensures r <= a && r <= b
    ensures r == a || r == b
  {
    if a < b then a else b
  }

  /** `max(Real a, Real b)`. */
  function MaxReal(a: Real, b: Real): (r: Real)
    ensures r >= a && r >= b
    ensures r == a || r == b
  {
    if a > b then a else b
  }

  /** Signed integer division as C++ does it: the quotient is truncated toward zero,
      so the remainder takes the sign of the dividend. */
  function TruncDiv(a: int, b: int): (q: int)
    requires b != 0
    ensures a >= 0 ==> 0 <= a - q * b < (if b > 0 then b else -b)
    ensures a < 0 ==> -(if b > 0 then b else -b) < a - q * b <= 0
  {
    if a >= 0 then
      (if b > 0 then a / b else -(a / (-b)))
    else
      (if b > 0 then -((-a) / b) else (-a) / (-b))
  }

  /** `static_cast<integer>(x)` for a real `x`: truncation toward zero. */
  function TruncReal(x: real): (r: int)
    ensures x >= 0.0 ==> r as real <= x < r as real + 1.0
    ensures x < 0.0 ==> r as real - 1.0 < x <= r as real
  {
    if x >= 0.0 then x.Floor else -((-x).Floor)
  }

  // ---------------------------------------------------------------------------------
  // Powers of two, bit lengths, and integers converted to floating point

  /** `2^k`. */
  function Pow2(k: nat): (p: nat)
    ensures p >= 1
  {
    if k == 0 then 1 else 2 * Pow2(k - 1)
  }

  /** The number of significant bits of `n`. */
  function BitLength(n: nat): nat
  {
    if n == 0 then 0 else 1 + BitLength(n / 2)
  }

  lemma {:induction false} Pow2Add(a: nat, b: nat)
    ensures Pow2(a + b) == Pow2(a) * Pow2(b)
  {
    if b > 0 {
      Pow2Add(a, b - 1);
    }
  }

  lemma {:induction false} Pow2Mono(a: nat, b: nat)
    requires a <= b
    ensures Pow2(a) <= Pow2(b)
  {
    if a < b {
      Pow2Mono(a, b - 1);
    }
  }

  lemma {:induction false} BitLengthBounds(n: nat)
    ensures n < Pow2(BitLength(n))
    ensures n >= 1 ==> Pow2(BitLength(n) - 1) <= n
  {
    if n > 0 {
      BitLengthBounds(n / 2);
    }
  }

  lemma {:induction false} BitLengthAtMost(n: nat, k: nat)
    requires n < Pow2(k)
    ensures BitLength(n) <= k
  {
    if n > 0 {
      BitLengthAtMost(n / 2, k - 1);
    }
  }

  /** A value of at least `2^k` and below `2^(k+1)` has bit length `k + 1`. */
  lemma BitLengthTop(m: nat, k: nat)
    requires Pow2(k) <= m < Pow2(k + 1)
    ensures BitLength(m) == k + 1
  {
    BitLengthBounds(m);
    BitLengthAtMost(m, k + 1);
    if BitLength(m) <= k {
      Pow2Mono(BitLength(m), k);
    }
  }

  /** A value of at least `2^p` has more than `p` bits. */
  lemma BitLengthAbove(n: nat, p: nat)
    requires Pow2(p) <= n
    ensures BitLength(n) > p
  {
    BitLengthBounds(n);
    if BitLength(n) <= p {
      Pow2Mono(BitLength(n), p);
    }
  }

  /** Significand widths of `float` (`Real`) and of `double`. */
  const FLOAT_BITS: nat := 24
  const DOUBLE_BITS: nat := 53

  /** `2^24` and `2^53`: every integer of at most this size converts to `float`,
      respectively `double`, without rounding. */
  const FLOAT_EXACT: int := 0x100_0000
  const DOUBLE_EXACT: int := 0x20_0000_0000_0000

  lemma Pow2Exact()
    ensures Pow2(FLOAT_BITS) == FLOAT_EXACT && Pow2(DOUBLE_BITS) == DOUBLE_EXACT
  {
    assert Pow2(8) == 0x100;
    Pow2Add(8, 8);
    Pow2Add(16, 8);
    Pow2Add(24, 24);
    assert Pow2(5) == 32;
    Pow2Add(48, 5);
  }

  /** The value an integer `n` takes when converted to a binary floating-point type with a
      `p`-bit significand, rounding to nearest: the closest integer with at most `p`
      significant bits, a tie going to the one whose last significand bit is even. */
  function RoundToBits(n: int, p: nat): int
    requires p >= 1
    decreases if n < 0 then 1 else 0
  {
    if n < 0 then -RoundToBits(-n, p)
    else if n < Pow2(p) then n
    else
      BitLengthAbove(n, p);
      var ulp := Pow2(BitLength(n) - p);
      var q, r := n / ulp, n % ulp;
      if 2 * r < ulp || (2 * r == ulp && q % 2 == 0) then q * ulp else (q + 1) * ulp
  }

  /** Non-negative integers up to `2^p` convert exactly. */
  lemma RoundToBitsExact(n: int, p: nat)
    requires p >= 1 && 0 <= n <= Pow2(p)
    ensures RoundToBits(n, p) == n
  {
    if n == Pow2(p) {
      assert n % 2 == 0 by {
        assert n == 2 * Pow2(p - 1);
      }
      RoundToBitsBinade(n, p);
    }
  }

  /** Between `2^p` and `2^(p+1)` the representable integers are the even ones: an even
      integer converts exactly, and an odd one is a tie that goes to the neighbour whose
      significand is even, down from one past a multiple of four and up from three past. */
  lemma RoundToBitsBinade(n: int, p: nat)
    requires p >= 1 && Pow2(p) <= n < 2 * Pow2(p)
    ensures n % 2 == 0 ==> RoundToBits(n, p) == n
    ensures n % 4 == 1 ==> RoundToBits(n, p) == n - 1
    ensures n % 4 == 3 ==> RoundToBits(n, p) == n + 1
  {
    assert Pow2(BitLength(n) - p) == 2 by {
      BitLengthTop(n, p);
      assert BitLength(n) - p == 1;
    }
  }

  /** With a significand of two bits or more, converting a non-negative integer gives a
      non-negative value, below twice the integer when it is positive. */
  lemma RoundToBitsBelowTwice(n: int, p: nat)
    requires p >= 2 && n >= 0
    ensures 0 <= RoundToBits(n, p)
    ensures n >= 1 ==> RoundToBits(n, p) < 2 * n
  {
    if n >= Pow2(p) {
      BitLengthAbove(n, p);
      BitLengthBounds(n);
      var e := BitLength(n);
      var ulp := Pow2(e - p);
      Pow2Mono(e - p + 1, e - 1);
      assert 2 * ulp == Pow2(e - p + 1);
      var q, r := n / ulp, n % ulp;
      assert q * ulp + r == n && 0 <= r < ulp;
      assert q >= 0;
      assert (q + 1) * ulp == q * ulp + ulp;
    }
  }
}
