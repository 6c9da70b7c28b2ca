/** The pieces of the C++ standard library the core relies on: `std::min`/`std::max`,
    `std::iota` and `std::nth_element`. `nth_element` is given by its guarantee
    (a permutation of the sub-range partitioned around the chosen position) and
    realised by a simple selection; its complexity is not modelled. */
module StdAlgorithm {

  /** `std::min(a, b)`: `(b < a) ? b : a`, so the first argument wins a tie. */
  function StdMin(a: real, b: real): (r: real)
    ensures r <= a && r <= b
    ensures r == a || r == b
  {
    if b < a then b else a
  }

  /** `std::max(a, b)`: `(a < b) ? b : a`. */
  function StdMax(a: real, b: real): (r: real)
    ensures r >= a && r >= b
    ensures r == a || r == b
  {
    if a < b then b else a
  }

  /** The values `0, 1, ..., n-1` in order. */
  function Iota(n: nat): (s: seq<int>)
    ensures |s| == n
    ensures forall i :: 0 <= i < n ==> s[i] == i
  {
    seq(n, i => i)
  }

  /** `s` holds each of `0..n-1` exactly once. */
  ghost predicate IsPermutation(s: seq<int>, n: nat)
  {
    multiset(s) == multiset(Iota(n))
  }

  /** Every value of a permutation of `0..n-1` is a valid index into `n` things, and the
      permutation has length `n`. */
  lemma PermutationValues(s: seq<int>, n: nat)
    requires IsPermutation(s, n)
    ensures |s| == n
    ensures forall p :: 0 <= p < |s| ==> 0 <= s[p] < n
  {
    assert |s| == |multiset(s)| == |multiset(Iota(n))| == n;
    forall p | 0 <= p < |s|
      ensures 0 <= s[p] < n
    {
      assert s[p] in multiset(s);
      assert s[p] in multiset(Iota(n));
      assert s[p] in Iota(n);
    }
  }

  /** `std::iota(a.begin(), a.end(), 0)`. */
  method FillIota(a: array<int>)
    modifies a
    ensures a[..] == Iota(a.Length)
  {
    var i := 0;
    while i < a.Length
      invariant 0 <= i <= a.Length
      invariant forall p :: 0 <= p < i ==> a[p] == p
    {
      a[i] := i;
      i := i + 1;
    }
  }

  /** `cur` differs from `prev` only inside `[lo, hi)`, and there only by reordering. */
  ghost predicate PermutedWithin(prev: seq<int>, cur: seq<int>, lo: int, hi: int)
  {
    && 0 <= lo <= hi <= |prev| == |cur|
    && (forall p :: 0 <= p < |prev| && !(lo <= p < hi) ==> cur[p] == prev[p])
    && multiset(cur[lo..hi]) == multiset(prev[lo..hi])
  }

  /** Reordering inside a window keeps the multiset of the whole sequence. */
  lemma PermutedWithinWhole(prev: seq<int>, cur: seq<int>, lo: int, hi: int)
    requires PermutedWithin(prev, cur, lo, hi)
    ensures multiset(cur) == multiset(prev)
  {
    assert prev == prev[..lo] + prev[lo..hi] + prev[hi..];
    assert cur == cur[..lo] + cur[lo..hi] + cur[hi..];
    assert cur[..lo] == prev[..lo];
    assert cur[hi..] == prev[hi..];
    var left, right := multiset(prev[..lo]), multiset(prev[hi..]);
    assert multiset(cur) == left + multiset(cur[lo..hi]) + right;
    assert multiset(prev) == left + multiset(prev[lo..hi]) + right;
  }

  /** A whole-sequence permutation that leaves everything outside `[lo, hi)` alone
      permutes the window. */
  lemma WholeToWindow(prev: seq<int>, cur: seq<int>, lo: int, hi: int)
    requires 0 <= lo <= hi <= |prev| == |cur|
    requires forall p :: 0 <= p < |prev| && !(lo <= p < hi) ==> cur[p] == prev[p]
    requires multiset(cur) == multiset(prev)
    ensures PermutedWithin(prev, cur, lo, hi)
  {
    assert prev == prev[..lo] + prev[lo..hi] + prev[hi..];
    assert cur == cur[..lo] + cur[lo..hi] + cur[hi..];
    assert cur[..lo] == prev[..lo];
    assert cur[hi..] == prev[hi..];
    var left, right := multiset(prev[..lo]), multiset(prev[hi..]);
    assert multiset(cur) == left + multiset(cur[lo..hi]) + right;
    assert multiset(prev) == left + multiset(prev[lo..hi]) + right;
    assert multiset(cur[lo..hi]) == multiset(cur) - left - right;
  }

  /** Each value found inside a reordered window was inside the window before. */
  lemma PermutedWithinFrom(prev: seq<int>, cur: seq<int>, lo: int, hi: int, p: int)
    requires PermutedWithin(prev, cur, lo, hi)
    requires lo <= p < hi
    ensures exists q :: lo <= q < hi && cur[p] == prev[q]
  {
    assert cur[p] == cur[lo..hi][p - lo];
    assert cur[p] in multiset(cur[lo..hi]);
    assert cur[p] in prev[lo..hi];
    var j :| 0 <= j < hi - lo && prev[lo..hi][j] == cur[p];
    assert prev[lo + j] == cur[p];
  }

  /** The position in `[lo, hi)` whose element has the least key (the first such). */
  method ArgMin(a: array<int>, lo: int, hi: int, keys: seq<real>) returns (m: int)
    requires 0 <= lo < hi <= a.Length
    requires forall p :: lo <= p < hi ==> 0 <= a[p] < |keys|
    ensures lo <= m < hi
    ensures forall q :: lo <= q < hi ==> keys[a[m]] <= keys[a[q]]
  {
    m := lo;
    var j := lo + 1;
    while j < hi
      invariant lo <= m < j <= hi
      invariant forall q :: lo <= q < j ==> keys[a[m]] <= keys[a[q]]
    {
      if keys[a[j]] < keys[a[m]] {
        m := j;
      }
      j := j + 1;
    }
  }

  /** Every element of `s[lo..hi]` is a valid index into `keys`. */
  ghost predicate IndexesInto(s: seq<int>, lo: int, hi: int, keys: seq<real>)
    requires 0 <= lo <= hi <= |s|
  {
    forall p :: lo <= p < hi ==> 0 <= s[p] < |keys|
  }

  /** Each of the positions `[lo, i)` holds an element whose key is no greater than that
      of any later element of the window `[lo, hi)`. */
  ghost predicate SelectedUpTo(s: seq<int>, lo: int, i: int, hi: int, keys: seq<real>)
    requires 0 <= lo <= i <= hi <= |s| && IndexesInto(s, lo, hi, keys)
  {
    forall p, q :: lo <= p < i && p < q < hi ==> keys[s[p]] <= keys[s[q]]
  }

  /** Swapping the least-keyed element of `[i, hi)` into `i` extends the selected
      prefix `[lo, i)` by one and keeps the multiset. */
  lemma SelectStep(before: seq<int>, s: seq<int>, t: seq<int>, lo: int, i: int, m: int, hi: int, keys: seq<real>)
    requires 0 <= lo <= i <= m < hi <= |s|
    requires t == s[i := s[m]][m := s[i]]
    requires PermutedWithin(before, s, lo, hi)
    requires IndexesInto(s, lo, hi, keys) && SelectedUpTo(s, lo, i, hi, keys)
    requires forall q :: i <= q < hi ==> keys[s[m]] <= keys[s[q]]
    ensures IndexesInto(t, lo, hi, keys) && SelectedUpTo(t, lo, i + 1, hi, keys)
    ensures PermutedWithin(before, t, lo, hi)
  {
    SwapPermutes(before, s, t, lo, i, m, hi);
    SwapSelects(s, t, lo, i, m, hi, keys);
  }

  /** A swap inside the window keeps it a reordering of what it held. */
  lemma SwapPermutes(before: seq<int>, s: seq<int>, t: seq<int>, lo: int, i: int, m: int, hi: int)
    requires 0 <= lo <= i <= m < hi <= |s|
    requires t == s[i := s[m]][m := s[i]]
    requires PermutedWithin(before, s, lo, hi)
    ensures PermutedWithin(before, t, lo, hi)
  {
    PermutedWithinWhole(before, s, lo, hi);
    assert multiset(t) == multiset(s);
    WholeToWindow(before, t, lo, hi);
  }

  /** Bringing the least key of `[i, hi)` to `i` extends the selected prefix by one. */
  lemma SwapSelects(s: seq<int>, t: seq<int>, lo: int, i: int, m: int, hi: int, keys: seq<real>)
    requires 0 <= lo <= i <= m < hi <= |s|
    requires t == s[i := s[m]][m := s[i]]
    requires IndexesInto(s, lo, hi, keys) && SelectedUpTo(s, lo, i, hi, keys)
    requires forall q :: i <= q < hi ==> keys[s[m]] <= keys[s[q]]
    ensures IndexesInto(t, lo, hi, keys) && SelectedUpTo(t, lo, i + 1, hi, keys)
  {
    forall p, q | lo <= p < i + 1 && p < q < hi
      ensures keys[t[p]] <= keys[t[q]]
    {
      if p < i {
        assert t[p] == s[p];
        assert t[q] == s[q] || t[q] == s[i] || t[q] == s[m];
      } else {
        assert t[p] == s[m];
        assert t[q] == s[q] || t[q] == s[i];
      }
    }
  }

  /** `std::nth_element(a + lo, a + mid, a + hi, cmp)` where `cmp(l, r)` is
      `keys[l] < keys[r]`: afterwards the window `[lo, hi)` is a reordering of what it
      held, nothing outside it moved, nothing before `mid` compares greater than the
      element at `mid`, and nothing after it compares less. */
  method NthElement(a: array<int>, lo: int, mid: int, hi: int, keys: seq<real>)
    requires 0 <= lo <= mid < hi <= a.Length
    requires forall p :: lo <= p < hi ==> 0 <= a[p] < |keys|
    modifies a
    ensures PermutedWithin(old(a[..]), a[..], lo, hi)
    ensures forall p :: lo <= p < hi ==> 0 <= a[p] < |keys|
    ensures forall p :: lo <= p < mid ==> keys[a[p]] <= keys[a[mid]]
    ensures forall p :: mid < p < hi ==> keys[a[mid]] <= keys[a[p]]
  {
    ghost var before := a[..];
    WholeToWindow(before, a[..], lo, hi);
    var i := lo;
    while i <= mid
      invariant lo <= i <= mid + 1
      invariant PermutedWithin(before, a[..], lo, hi)
      invariant IndexesInto(a[..], lo, hi, keys) && SelectedUpTo(a[..], lo, i, hi, keys)
    {
      var m := ArgMin(a, i, hi, keys);
      ghost var s := a[..];
      a[i], a[m] := a[m], a[i];
      SelectStep(before, s, a[..], lo, i, m, hi, keys);
      i := i + 1;
    }
  }
}
