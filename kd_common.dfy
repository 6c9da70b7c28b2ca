/** What the two kd-tree builders (Acceleration/KdTree.hpp and Acceleration/PointKdTree.hpp)
    share: `size_t` arithmetic and `RoundToPower2`, the node-store capacity they reserve,
    the bound fold of `ComputeBound`, the stack entry, and the facts about partitioned
    index ranges that both construction loops rely on. */
module KdCommon {
  import opened Types
  import opened StdAlgorithm

  /** 2^64: one more than the largest `size_t`. */
  const SIZE_MODULUS: int := 0x1_0000_0000_0000_0000

  /** A 64-bit `size_t`. */
  type SizeT = x: int | 0 <= x < 0x1_0000_0000_0000_0000

  /** Number of bits in a `size_t`: `sizeof(size_t) * CHAR_BIT`. */
  const SIZE_BITS: int := 64

  // ---------------------------------------------------------------------------------
  // Powers of two, shifts and bitwise OR on naturals

  /** `x` is a power of two. */
  predicate IsPow2(x: nat)
  {
    x == 1 || (x >= 2 && x % 2 == 0 && IsPow2(x / 2))
  }

  /** `x >> c` on an unsigned value: `c` halvings. */
  function Shr(x: nat, c: nat): nat
  {
    if c == 0 then x else Shr(x / 2, c - 1)
  }

  /** `a | b` on unsigned values, bit by bit from the least significant end. */
  function Or(a: nat, b: nat): nat
    decreases a + b
  {
    if a == 0 then b
    else if b == 0 then a
    else 2 * Or(a / 2, b / 2) + (if a % 2 == 1 || b % 2 == 1 then 1 else 0)
  }

  lemma Pow2Values()
    ensures Pow2(63) == 0x8000_0000_0000_0000 && Pow2(64) == SIZE_MODULUS
  {
    Pow2Of64();
    assert Pow2(64) == 2 * Pow2(63);
  }

  lemma Pow2Of16()
    ensures Pow2(16) == 0x1_0000
  {
    assert Pow2(4) == 16;
    Pow2Add(4, 4);
    Pow2Add(8, 8);
  }

  lemma Pow2Of64()
    ensures Pow2(64) == SIZE_MODULUS
  {
    Pow2Of16();
    Pow2Add(16, 16);
    Pow2Add(32, 32);
  }

  lemma {:induction false} Pow2IsPow2(k: nat)
    ensures IsPow2(Pow2(k))
  {
    if k > 0 {
      Pow2IsPow2(k - 1);
    }
  }

  lemma PowerHalves(p: nat)
    requires IsPow2(p) && p >= 2
    ensures IsPow2(p / 2) && p == 2 * (p / 2)
  {
  }

  /** Of two powers of two, the smaller is at most half the larger. */
  lemma {:induction false} PowersOfTwoApart(p: nat, r: nat)
    requires IsPow2(p) && IsPow2(r) && p < r
    ensures p <= r / 2
    decreases r
  {
    PowerHalves(r);
    if p > 1 {
      PowerHalves(p);
      PowersOfTwoApart(p / 2, r / 2);
    }
  }

  lemma {:induction false} ShrZero(c: nat)
    ensures Shr(0, c) == 0
  {
    if c > 0 {
      ShrZero(c - 1);
    }
  }

  lemma {:induction false} ShrPow2(b: nat, c: nat)
    ensures Shr(Pow2(b), c) == if b >= c then Pow2(b - c) else 0
    decreases c
  {
    if c > 0 {
      if b == 0 {
        ShrZero(c - 1);
      } else {
        ShrPow2(b - 1, c - 1);
      }
    }
  }

  lemma {:induction false} ShrMono(x: nat, y: nat, c: nat)
    requires x <= y
    ensures Shr(x, c) <= Shr(y, c)
    decreases c
  {
    if c > 0 {
      ShrMono(x / 2, y / 2, c - 1);
    }
  }

  lemma {:induction false} ShrBelow(x: nat, b: nat, c: nat)
    requires x < Pow2(b)
    ensures b >= c ==> Shr(x, c) < Pow2(b - c)
    ensures b < c ==> Shr(x, c) == 0
    decreases c
  {
    if c > 0 {
      if b == 0 {
        ShrZero(c);
      } else {
        ShrBelow(x / 2, b - 1, c - 1);
      }
    }
  }

  /** Shifting `2^b - 2^d` right by `c <= b` places. */
  lemma ShrTopBits(x: nat, b: nat, d: nat, c: nat)
    requires d <= b && c <= b && x + Pow2(d) == Pow2(b)
    ensures Shr(x, c) == Pow2(b - c) - (if d >= c then Pow2(d - c) else 1)
  {
    if d >= c {
      ShrTopBitsAligned(x, b, d, c);
    } else {
      ShrTopBitsShort(x, b, d, c);
    }
  }

  lemma {:induction false} ShrTopBitsAligned(x: nat, b: nat, d: nat, c: nat)
    requires c <= d <= b && x + Pow2(d) == Pow2(b)
    ensures Shr(x, c) == Pow2(b - c) - Pow2(d - c)
    decreases c
  {
    if c > 0 {
      var top, low := Pow2(b - 1), Pow2(d - 1);
      assert x == 2 * (top - low);
      ShrTopBitsAligned(x / 2, b - 1, d - 1, c - 1);
    }
  }

  lemma {:induction false} ShrTopBitsShort(x: nat, b: nat, d: nat, c: nat)
    requires d < c <= b && x + Pow2(d) == Pow2(b)
    ensures Shr(x, c) == Pow2(b - c) - 1
    decreases c
  {
    var top := Pow2(b - 1);
    if d == 0 {
      ShrOnes(x, b, c);
    } else {
      var low := Pow2(d - 1);
      assert x == 2 * (top - low);
      ShrTopBitsShort(x / 2, b - 1, d - 1, c - 1);
    }
  }

  /** Shifting `2^b - 1` right by `c <= b` places. */
  lemma {:induction false} ShrOnes(x: nat, b: nat, c: nat)
    requires c <= b && x + 1 == Pow2(b)
    ensures Shr(x, c) == Pow2(b - c) - 1
    decreases c
  {
    if c > 0 {
      var top := Pow2(b - 1);
      assert x == 2 * (top - 1) + 1;
      ShrOnes(x / 2, b - 1, c - 1);
    }
  }

  lemma TopBlock(b: nat, c: nat)
    requires c <= b
    ensures (Pow2(c) - 1) * Pow2(b - c) == Pow2(b) - Pow2(b - c)
  {
    Pow2Add(c, b - c);
  }

  lemma OrUnfold(a: nat, b: nat)
    ensures Or(a, b) == 2 * Or(a / 2, b / 2) + (if a % 2 == 1 || b % 2 == 1 then 1 else 0)
  {
    if a == 0 {
      assert Or(a / 2, b / 2) == b / 2;
    } else if b == 0 {
      assert Or(a / 2, b / 2) == a / 2;
    }
  }

  /** OR of two values below `2^k` stays below `2^k`. */
  lemma {:induction false} OrBelow(a: nat, b: nat, k: nat)
    requires a < Pow2(k) && b < Pow2(k)
    ensures Or(a, b) < Pow2(k)
    decreases k
  {
    if k > 0 && a > 0 && b > 0 {
      OrBelow(a / 2, b / 2, k - 1);
    }
  }

  /** OR never clears a bit, so it is at least each operand. */
  lemma {:induction false} OrAbove(a: nat, b: nat)
    ensures Or(a, b) >= a && Or(a, b) >= b
    decreases a + b
  {
    if a > 0 && b > 0 {
      OrAbove(a / 2, b / 2);
    }
  }

  /** Bits at or above position `k` of the first operand pass through an OR with a value
      below `2^k`. */
  lemma {:induction false} OrHigh(h: nat, k: nat, t: nat, s: nat)
    requires t < Pow2(k) && s < Pow2(k)
    ensures Or(h * Pow2(k) + t, s) == h * Pow2(k) + Or(t, s)
    decreases k
  {
    if k == 0 {
      assert t == 0 && s == 0;
    } else {
      var q := Pow2(k - 1);
      var m := h * q;
      assert h * Pow2(k) == 2 * m;
      var x := 2 * m + t;
      assert x / 2 == m + t / 2 && x % 2 == t % 2;
      OrUnfold(x, s);
      OrUnfold(t, s);
      OrHigh(h, k - 1, t / 2, s / 2);
    }
  }

  function AtLeastOne(x: nat): nat { if x < 1 then 1 else x }

  /** `n` lies below `2^b`, and the top bits below `2^b` are set down to the position
      `2^b >> c` marks (all of them once that is below one). */
  ghost predicate TopFilled(n: nat, b: nat, c: nat)
  {
    n < Pow2(b) && Pow2(b) - n <= AtLeastOne(Shr(Pow2(b), c))
  }

  lemma SmearStepLow(n: nat, b: nat, c: nat)
    requires 1 <= c && b <= c && TopFilled(n, b, c)
    ensures TopFilled(Or(n, Shr(n, c)), b, 2 * c)
  {
    ShrPow2(b, c);
    ShrPow2(b, 2 * c);
    ShrBelow(n, b, c);
    assert Shr(n, c) == 0;
    assert Or(n, 0) == n;
  }

  lemma SmearStepHigh(n: nat, b: nat, c: nat)
    requires 1 <= c < b && TopFilled(n, b, c)
    ensures TopFilled(Or(n, Shr(n, c)), b, 2 * c)
  {
    var s := Shr(n, c);
    SmearHighBounds(n, b, c);
    var t := n - (Pow2(b) - Pow2(b - c));
    OrTopRun(n, b, c, t, s);
    OrBelow(t, s, b - c);
    OrAbove(t, s);
  }

  /** With the top run filled down to `2^b >> c`, `n` holds the top `c` bits of `2^b`, and
      `n >> c` is below `2^(b-c)` but at most `2^b >> 2c` short of it. */
  lemma SmearHighBounds(n: nat, b: nat, c: nat)
    requires 1 <= c < b && TopFilled(n, b, c)
    ensures Pow2(b) - Pow2(b - c) <= n
    ensures Shr(n, c) < Pow2(b - c)
    ensures Pow2(b - c) - AtLeastOne(Shr(Pow2(b), 2 * c)) <= Shr(n, c)
  {
    ShrPow2(b, c);
    ShrBelow(n, b, c);
    SmearHighShifted(n, b, c);
  }

  lemma SmearHighShifted(n: nat, b: nat, c: nat)
    requires 1 <= c < b && Pow2(b) - Pow2(b - c) <= n
    ensures Pow2(b - c) - AtLeastOne(Shr(Pow2(b), 2 * c)) <= Shr(n, c)
  {
    Pow2Mono(b - c, b);
    var m := Pow2(b) - Pow2(b - c);
    ShrMono(m, n, c);
    ShrTopBits(m, b, b - c, c);
    ShrPow2(b, 2 * c);
  }

  /** ORing a value below `2^(b-c)` into `n = 2^b - 2^(b-c) + t` leaves the top run alone. */
  lemma OrTopRun(n: nat, b: nat, c: nat, t: nat, s: nat)
    requires 1 <= c < b && n == Pow2(b) - Pow2(b - c) + t
    requires t < Pow2(b - c) && s < Pow2(b - c)
    ensures Or(n, s) == Pow2(b) - Pow2(b - c) + Or(t, s)
  {
    var h, q := Pow2(c) - 1, Pow2(b - c);
    TopBlock(b, c);
    assert n == h * q + t;
    OrHigh(h, b - c, t, s);
  }

  /** One `n |= n >> c` step doubles the run of set top bits. */
  lemma SmearStep(n: nat, b: nat, c: nat)
    requires c >= 1 && TopFilled(n, b, c)
    ensures TopFilled(Or(n, Shr(n, c)), b, 2 * c)
  {
    if b <= c {
      SmearStepLow(n, b, c);
    } else {
      SmearStepHigh(n, b, c);
    }
  }

  /** Before any step the top bit of `n` is set: `n` fills the top run down to half of
      `2^BitLength(n)`. */
  lemma SmearStart(n: nat)
    ensures TopFilled(n, BitLength(n), 1)
  {
    BitLengthBounds(n);
    ShrPow2(BitLength(n), 1);
  }

  /** After the shift by 32 the run covers every bit below `2^b`. */
  lemma SmearDone(n: nat, b: nat)
    requires b <= 64 && TopFilled(n, b, 64)
    ensures n == Pow2(b) - 1
  {
    ShrPow2(b, 64);
  }

  lemma ShiftCountBelow(j: nat)
    requires Pow2(j) < 64
    ensures j < 6
  {
    assert Pow2(6) == 64;
    if j >= 6 {
      Pow2Mono(6, j);
    }
  }

  lemma ShiftCountDone(j: nat)
    requires j <= 6 && Pow2(j) >= 64
    ensures Pow2(j) == 64
  {
    assert Pow2(6) == 64;
    if j < 6 {
      Pow2Mono(j, 5);
    }
  }

  /** A `size_t` has at most 64 significant bits, and `2^b` for such a bit length is at
      most 2^64. */
  lemma SizeBitLength(n: SizeT)
    ensures BitLength(n) <= 64 && Pow2(BitLength(n)) <= SIZE_MODULUS
  {
    Pow2Values();
    BitLengthAtMost(n, 64);
    Pow2Mono(BitLength(n), 64);
  }

  /** For `1 <= n0 <= 2^k`, `2^BitLength(n0 - 1)` is the least power of two at least
      `n0`, and it is at most `2^k`. */
  lemma RoundWithin(n0: nat, k: nat)
    requires 1 <= n0 <= Pow2(k)
    ensures Pow2(BitLength(n0 - 1)) <= Pow2(k)
    ensures IsPow2(Pow2(BitLength(n0 - 1)))
    ensures Pow2(BitLength(n0 - 1)) / 2 < n0 <= Pow2(BitLength(n0 - 1))
  {
    var b := BitLength(n0 - 1);
    BitLengthBounds(n0 - 1);
    BitLengthAtMost(n0 - 1, k);
    Pow2Mono(b, k);
    Pow2IsPow2(b);
    if b >= 1 {
      assert Pow2(b) / 2 == Pow2(b - 1);
    }
  }

  /** Incrementing `2^b - 1`, with `b` the bit length of the decremented input, gives the
      power of two the input rounds to, or wraps to zero. */
  lemma RoundFinish(n0: SizeT, b: nat)
    requires b == BitLength(if n0 == 0 then SIZE_MODULUS - 1 else n0 - 1)
    ensures 1 <= n0 <= 0x8000_0000_0000_0000 ==>
              IsPow2(Pow2(b) % SIZE_MODULUS) && (Pow2(b) % SIZE_MODULUS) / 2 < n0 <= Pow2(b) % SIZE_MODULUS
    ensures n0 == 0 || n0 > 0x8000_0000_0000_0000 ==> Pow2(b) % SIZE_MODULUS == 0
  {
    if 1 <= n0 <= 0x8000_0000_0000_0000 {
      RoundFinishInRange(n0, b);
    } else {
      RoundFinishWraps(if n0 == 0 then SIZE_MODULUS - 1 else n0 - 1, b);
    }
  }

  lemma RoundFinishInRange(n0: nat, b: nat)
    requires 1 <= n0 <= 0x8000_0000_0000_0000 && b == BitLength(n0 - 1)
    ensures Pow2(b) % SIZE_MODULUS == Pow2(b)
    ensures IsPow2(Pow2(b)) && Pow2(b) / 2 < n0 <= Pow2(b)
  {
    Pow2Values();
    RoundWithin(n0, 63);
    var p := Pow2(b);
    assert 0 <= p < SIZE_MODULUS;
  }

  lemma RoundFinishWraps(n: nat, b: nat)
    requires 0x8000_0000_0000_0000 <= n < SIZE_MODULUS && b == BitLength(n)
    ensures Pow2(b) % SIZE_MODULUS == 0
  {
    Pow2Values();
    BitLengthTop(n, 63);
    assert b == 64;
  }

  /** `RoundToPower2` on `size_t`: decrement (wrapping at zero), OR in the value shifted
      right by 1, 2, 4, ..., 32, and increment (wrapping at 2^64). For `1 <= n0 <= 2^63`
      the result is the least power of two that is at least `n0`; for `0` and for values
      above `2^63` both wrap-arounds meet and the result is `0`. */
  method RoundToPower2(n0: SizeT) returns (r: SizeT)
    ensures 1 <= n0 <= 0x8000_0000_0000_0000 ==> IsPow2(r) && r / 2 < n0 <= r
    ensures n0 == 0 || n0 > 0x8000_0000_0000_0000 ==> r == 0
  {
    var n: SizeT := if n0 == 0 then SIZE_MODULUS - 1 else n0 - 1;
    ghost var b := BitLength(n);
    SizeBitLength(n);
    SmearStart(n);
    n := SmearRight(n, b);
    RoundFinish(n0, b);
    r := (n + 1) % SIZE_MODULUS;
  }

  /** The loop of `RoundToPower2`: `n |= n >> i` for `i` = 1, 2, 4, ..., 32. Once the top
      bit of `n` is set, every bit below it is. */
  method SmearRight(n0: SizeT, ghost b: nat) returns (n: SizeT)
    requires b <= 64 && Pow2(b) <= SIZE_MODULUS && TopFilled(n0, b, 1)
    ensures n == Pow2(b) - 1
  {
    n := n0;
    var i: SizeT := 1;
    ghost var j: nat := 0;
    while i < SIZE_BITS
      invariant j <= 6 && i == Pow2(j)
      invariant TopFilled(n, b, i)
    {
      SmearRound(n, b, i, j);
      n := Or(n, Shr(n, i));
      i := i * 2;
      j := j + 1;
    }
    ShiftCountDone(j);
    SmearDone(n, b);
  }

  /** One pass of the loop of `RoundToPower2`: the OR stays a `size_t` and the run of set
      top bits doubles, as does the shift. */
  lemma SmearRound(n: nat, b: nat, i: nat, j: nat)
    requires Pow2(b) <= SIZE_MODULUS && TopFilled(n, b, i)
    requires i < 64 && i == Pow2(j)
    ensures TopFilled(Or(n, Shr(n, i)), b, 2 * i)
    ensures Or(n, Shr(n, i)) < SIZE_MODULUS
    ensures j + 1 <= 6 && 2 * i == Pow2(j + 1)
  {
    SmearStep(n, b, i);
    ShiftCountBelow(j);
  }

  /** No smaller power of two is at least `n`: the result of `RoundToPower2` is the least
      one. */
  lemma RoundToPower2IsLeast(n: nat, r: nat, p: nat)
    requires IsPow2(r) && r / 2 < n <= r
    requires IsPow2(p) && n <= p
    ensures r <= p
  {
    if p < r {
      PowersOfTwoApart(p, r);
    }
  }

  // ---------------------------------------------------------------------------------
  // Leaf threshold and node-store capacity

  /** The leaf threshold after clamping: `max_node_entries < 2 ? 2 : max_node_entries`. */
  function LeafThreshold(maxNodeEntries: SizeT): (k: SizeT)
    ensures k >= 2 && k >= maxNodeEntries
    ensures k == maxNodeEntries || maxNodeEntries < 2
  {
    if maxNodeEntries < 2 then 2 else maxNodeEntries
  }

  /** `std::min(std::max(round_power - 1, 1), 2 * num_entries - round_power / 2 - 1)`
      in `size_t` arithmetic, each operation wrapping modulo 2^64. */
  function MaxNumNodes(numEntries: SizeT, roundPower: SizeT): (r: SizeT)
    ensures r <= (if roundPower == 0 then SIZE_MODULUS - 1 else if roundPower == 1 then 1 else roundPower - 1)
  {
    var lhs := (roundPower - 1) % SIZE_MODULUS;
    var upper := if lhs < 1 then 1 else lhs;
    var rhs := ((2 * numEntries) % SIZE_MODULUS - roundPower / 2 - 1) % SIZE_MODULUS;
    if rhs < upper then rhs else upper
  }

  /** For the entry counts the builders accept nothing wraps: the capacity is the smaller
      of `round_power - 1` and `2 * num_entries - round_power / 2 - 1`. */
  lemma MaxNumNodesNoWrap(n: SizeT, p: SizeT)
    requires 2 <= n < 0x8000_0000_0000_0000
    requires p / 2 < n <= p
    ensures MaxNumNodes(n, p) == if p - 1 <= 2 * n - p / 2 - 1 then p - 1 else 2 * n - p / 2 - 1
  {
    var M := SIZE_MODULUS;
    assert (p - 1) % M == p - 1;
    assert (2 * n) % M == 2 * n;
    assert (2 * n - p / 2 - 1) % M == 2 * n - p / 2 - 1;
  }

  /** Number of nodes of a tree whose node over `s` entries is a leaf when `s <= k` and is
      otherwise split into children over `s / 2` and `s - s / 2` entries. */
  function NodeCountHalves(s: nat, k: nat): (c: nat)
    requires k >= 2
    ensures c >= 1
    decreases s
  {
    if s <= k then 1 else 1 + NodeCountHalves(s / 2, k) + NodeCountHalves(s - s / 2, k)
  }

  lemma UnfoldHalves(s: nat, k: nat)
    requires k >= 2 && s > k
    ensures NodeCountHalves(s, k) == 1 + NodeCountHalves(s / 2, k) + NodeCountHalves(s - s / 2, k)
  {
  }

  lemma NodeCountSmall(n: nat)
    requires 2 <= n <= 3
    ensures NodeCountHalves(n, 2) == 2 * n - 3
  {
  }

  /** With leaves of at most two entries, a tree over `n` entries, `p/2 < n <= p` for a
      power of two `p`, has at most `p - 1` and at most `2n - p/2 - 1` nodes. */
  lemma {:induction false} NodeCountPairBound(n: nat, p: nat)
    requires IsPow2(p) && p / 2 < n <= p && n >= 2
    ensures NodeCountHalves(n, 2) <= p - 1
    ensures NodeCountHalves(n, 2) <= 2 * n - p / 2 - 1
    decreases n, 1
  {
    if n <= 3 {
      NodeCountPairSmall(n, p);
    } else {
      NodeCountPairSplit(n, p);
    }
  }

  lemma NodeCountPairSmall(n: nat, p: nat)
    requires IsPow2(p) && p / 2 < n <= p && 2 <= n <= 3
    ensures NodeCountHalves(n, 2) <= p - 1
    ensures NodeCountHalves(n, 2) <= 2 * n - p / 2 - 1
  {
    PowerHalves(p);
    assert p == 2 * n - 2;
    NodeCountSmall(n);
  }

  lemma {:induction false} NodeCountPairSplit(n: nat, p: nat)
    requires IsPow2(p) && p / 2 < n <= p && n >= 4
    ensures NodeCountHalves(n, 2) <= p - 1
    ensures NodeCountHalves(n, 2) <= 2 * n - p / 2 - 1
    decreases n, 0
  {
    var q := p / 2;
    PowerHalves(p);
    PowerHalves(q);
    var a, b := n / 2, n - n / 2;
    UnfoldHalves(n, 2);
    NodeCountPairBound(b, q);
    if a > q / 2 {
      NodeCountPairBound(a, q);
    } else {
      NodeCountPairBound(a, q / 2);
    }
  }

  /** A larger leaf threshold never gives more nodes. */
  lemma {:induction false} NodeCountMonoInK(s: nat, k: nat)
    requires k >= 2
    ensures NodeCountHalves(s, k) <= NodeCountHalves(s, 2)
    decreases s
  {
    if s > k {
      NodeCountMonoInK(s / 2, k);
      NodeCountMonoInK(s - s / 2, k);
    }
  }

  /** More entries never give fewer nodes. */
  lemma {:induction false} NodeCountMonoInSize(s: nat, t: nat, k: nat)
    requires k >= 2 && s <= t
    ensures NodeCountHalves(s, k) <= NodeCountHalves(t, k)
    decreases t
  {
    if s > k {
      var a, b := s / 2, s - s / 2;
      var c, d := t / 2, t - t / 2;
      HalvesMono(s, t);
      NodeCountMonoInSize(a, c, k);
      NodeCountMonoInSize(b, d, k);
      UnfoldHalves(s, k);
      UnfoldHalves(t, k);
    }
  }

  /** Both halves grow with the whole. */
  lemma HalvesMono(s: nat, t: nat)
    requires s <= t
    ensures s / 2 <= t / 2 && s - s / 2 <= t - t / 2
  {
  }

  /** The capacity both builders reserve holds every node of a halving tree, for every
      leaf threshold `k >= 2`. */
  lemma NodeCountWithinCapacity(n: nat, k: nat, p: nat)
    requires 2 <= k <= n < 0x8000_0000_0000_0000
    requires IsPow2(p) && p / 2 < n <= p
    ensures NodeCountHalves(n, k) <= MaxNumNodes(n, p)
  {
    NodeCountMonoInK(n, k);
    NodeCountPairBound(n, p);
    MaxNumNodesNoWrap(n, p);
  }

  // ---------------------------------------------------------------------------------
  // Folding entries

  /** `f(...f(f(acc, xs[0]), xs[1])..., xs[|xs|-1])`. */
  function FoldLeft<T>(f: (T, T) -> T, acc: T, xs: seq<T>): T
    decreases |xs|
  {
    if |xs| == 0 then acc else FoldLeft(f, f(acc, xs[0]), xs[1..])
  }

  lemma {:induction false} FoldLeftSnoc<T>(f: (T, T) -> T, acc: T, xs: seq<T>, x: T)
    ensures FoldLeft(f, acc, xs + [x]) == f(FoldLeft(f, acc, xs), x)
    decreases |xs|
  {
    if |xs| > 0 {
      assert (xs + [x])[1..] == xs[1..] + [x];
      FoldLeftSnoc(f, f(acc, xs[0]), xs[1..], x);
    }
  }

  /** `func` never rises above either argument on any axis of `key`, as a componentwise
      minimum does. */
  ghost predicate Lowers<T(!new)>(func: (T, T) -> T, key: (T, int) -> real)
  {
    forall a, b, d :: key(func(a, b), d) <= key(a, d) && key(func(a, b), d) <= key(b, d)
  }

  /** Folding such a `func` gives a value on or below the start and every folded element,
      on every axis. */
  lemma {:induction false} FoldLeftLowers<T(!new)>(func: (T, T) -> T, key: (T, int) -> real, acc: T, xs: seq<T>)
    requires Lowers(func, key)
    ensures forall d :: key(FoldLeft(func, acc, xs), d) <= key(acc, d)
    ensures forall i, d :: 0 <= i < |xs| ==> key(FoldLeft(func, acc, xs), d) <= key(xs[i], d)
    decreases |xs|
  {
    if |xs| > 0 {
      var next := func(acc, xs[0]);
      FoldLeftLowers(func, key, next, xs[1..]);
      forall i, d | 0 <= i < |xs|
        ensures key(FoldLeft(func, acc, xs), d) <= key(xs[i], d)
      {
        if i > 0 {
          assert xs[i] == xs[1..][i - 1];
        }
      }
    }
  }

  /** On every axis of `key`, `func` returns the value of one of its arguments, as a
      componentwise minimum or maximum does. */
  ghost predicate Selects<T(!new)>(func: (T, T) -> T, key: (T, int) -> real)
  {
    forall a, b, d :: key(func(a, b), d) == key(a, d) || key(func(a, b), d) == key(b, d)
  }

  /** Folding such a `func` gives, on every axis, the value of the start or of one of the
      folded elements. */
  lemma {:induction false} FoldLeftSelects<T(!new)>(func: (T, T) -> T, key: (T, int) -> real, acc: T, xs: seq<T>, d: int)
    requires Selects(func, key)
    ensures key(FoldLeft(func, acc, xs), d) == key(acc, d) ||
            exists i :: 0 <= i < |xs| && key(FoldLeft(func, acc, xs), d) == key(xs[i], d)
    decreases |xs|
  {
    if |xs| > 0 {
      var next := func(acc, xs[0]);
      FoldLeftSelects(func, key, next, xs[1..], d);
      var r := FoldLeft(func, acc, xs);
      if key(r, d) != key(next, d) {
        var i :| 0 <= i < |xs[1..]| && key(r, d) == key(xs[1..][i], d);
        assert key(r, d) == key(xs[i + 1], d);
      } else if key(next, d) != key(acc, d) {
        assert key(r, d) == key(xs[0], d);
      }
    }
  }

  /** The loop of `ComputeBound`: starting from `init`, `bound = func(bound, entries[i])`
      for `i = from; i < to; ++i`. When `from >= to` the body never runs. */
  method FoldEntries<T>(entries: seq<T>, func: (T, T) -> T, init: T, from: int, to: int)
    returns (bound: T)
    requires 0 <= from && to <= |entries|
    ensures bound == FoldLeft(func, init, if from < to then entries[from..to] else [])
  {
    bound := init;
    var i := from;
    while i < to
      invariant from <= i && (i <= to || i == from)
      invariant bound == FoldLeft(func, init, if from < i then entries[from..i] else [])
    {
      FoldLeftSnoc(func, init, if from < i then entries[from..i] else [], entries[i]);
      assert (if from < i then entries[from..i] else []) + [entries[i]] == entries[from..i + 1];
      bound := func(bound, entries[i]);
      i := i + 1;
    }
  }

  // ---------------------------------------------------------------------------------
  // The construction stack

  /** An entry of the explicit stack: the node to process (its position in the node
      store) and the axis to split it on. */
  datatype StackEntry = StackEntry(node: nat, dimension: int)
  {
    /** `(dimension + 1) % _Dim`. For a non-negative dimension Dafny's `%` agrees with
        C++'s, whatever the sign of `_Dim`. */
    function NextDimension(dim: int): (d: int)
      requires dim != 0 && dimension >= 0
      ensures 0 <= d < (if dim > 0 then dim else -dim)
      ensures dimension + 1 < (if dim > 0 then dim else -dim) ==> d == dimension + 1
    {
      (dimension + 1) % dim
    }
  }

  // ---------------------------------------------------------------------------------
  // Partitioned index ranges

  /** The keys each axis gives the entries: `KeysOf(points, key, d)[i]` is the value the
      axis-`d` comparator orders entry `i` by. */
  function KeysOf<T>(entries: seq<T>, key: (T, int) -> real, d: int): (keys: seq<real>)
    ensures |keys| == |entries|
    ensures forall i :: 0 <= i < |entries| ==> keys[i] == key(entries[i], d)
  {
    seq(|entries|, i requires 0 <= i < |entries| => key(entries[i], d))
  }

  /** Every index at a position in `[lo, mid)` has a key at most `pivot`, and every one in
      `[mid, hi)` a key at least `pivot`. */
  ghost predicate Partitioned(s: seq<int>, lo: int, mid: int, hi: int, keys: seq<real>, pivot: real)
  {
    && 0 <= lo <= mid <= hi <= |s|
    && (forall p :: lo <= p < hi ==> 0 <= s[p] < |keys|)
    && (forall p :: lo <= p < mid ==> keys[s[p]] <= pivot)
    && (forall p :: mid <= p < hi ==> pivot <= keys[s[p]])
  }

  /** The window `[b, e)` lies inside one side of the split `[lo, mid) | [mid, hi)`, or
      outside `[lo, hi)` altogether. */
  ghost predicate WithinOneSide(b: int, e: int, lo: int, mid: int, hi: int)
  {
    (lo <= b && e <= mid) || (mid <= b && e <= hi) || e <= lo || hi <= b
  }

  /** Reordering a window that stays on one side of a partition keeps it partitioned. */
  lemma PartitionedKept(s: seq<int>, t: seq<int>, b: int, e: int, lo: int, mid: int, hi: int,
                        keys: seq<real>, pivot: real)
    requires Partitioned(s, lo, mid, hi, keys, pivot)
    requires PermutedWithin(s, t, b, e) && WithinOneSide(b, e, lo, mid, hi)
    ensures Partitioned(t, lo, mid, hi, keys, pivot)
  {
    forall p | lo <= p < hi && b <= p < e
      ensures 0 <= t[p] < |keys|
      ensures p < mid ==> keys[t[p]] <= pivot
      ensures mid <= p ==> pivot <= keys[t[p]]
    {
      PermutedWithinFrom(s, t, b, e, p);
    }
  }

  lemma PermutedWithinSymmetric(s: seq<int>, t: seq<int>, b: int, e: int)
    requires PermutedWithin(s, t, b, e)
    ensures PermutedWithin(t, s, b, e)
  {
  }

  /** Reordering a window that stays on one side of `mid` keeps a value inside
      `[mid, hi)`. */
  lemma UpperKept(s: seq<int>, t: seq<int>, b: int, e: int, lo: int, mid: int, hi: int, x: int)
    requires 0 <= lo <= mid <= hi <= |s|
    requires x in s[mid..hi]
    requires PermutedWithin(s, t, b, e) && WithinOneSide(b, e, lo, mid, hi)
    ensures x in t[mid..hi]
  {
    var q :| mid <= q < hi && s[q] == x;
    if b <= q < e {
      PermutedWithinSymmetric(s, t, b, e);
      PermutedWithinFrom(t, s, b, e, q);
      var q' :| b <= q' < e && s[q] == t[q'];
      assert t[mid..hi][q' - mid] == x;
    } else {
      assert t[mid..hi][q - mid] == x;
    }
  }
}
