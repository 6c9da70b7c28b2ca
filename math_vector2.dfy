/** `Vector2` of Math/Vector2.hpp: the fill constructor, component access and the free
    componentwise `min`/`max` (which use `std::min`/`std::max`). The arithmetic operators
    are not modelled. */
module MathVector2 {
  import opened Types
  import opened StdAlgorithm

  /** Two reals stored as `v[2]`; `x()` is `v[0]` and `y()` is `v[1]`. */
  datatype Vector2 = Vector2(x: Real, y: Real)
  {
    /** `operator[]`; an axis outside `{0, 1}` reads past the array in the source. */
    function At(axis: Index): Real
      requires 0 <= axis < 2
    {
      if axis == 0 then x else y
    }
  }

  /** The single-value constructor `Vector2(vv)`: every component is `vv`. */
  function Fill(vv: Real): (v: Vector2)
    ensures forall axis :: 0 <= axis < 2 ==> v.At(axis) == vv
  {
    Vector2(vv, vv)
  }

  /** `operator[](0)` and `operator[](1)` are the storage behind `x()` and `y()`. */
  lemma AtAliasesComponents(v: Vector2)
    ensures v.At(0) == v.x && v.At(1) == v.y
  {
  }

  /** Free `min`: each component is the smaller of the two matching components. */
  function Min(l: Vector2, r: Vector2): (m: Vector2)
    ensures forall axis :: 0 <= axis < 2 ==>
              && m.At(axis) <= l.At(axis) && m.At(axis) <= r.At(axis)
              && (m.At(axis) == l.At(axis) || m.At(axis) == r.At(axis))
  {
    Vector2(StdMin(l.x, r.x), StdMin(l.y, r.y))
  }

  /** Free `max`: each component is the larger of the two matching components. */
  function Max(a: Vector2, b: Vector2): (m: Vector2)
    ensures forall axis :: 0 <= axis < 2 ==>
              && m.At(axis) >= a.At(axis) && m.At(axis) >= b.At(axis)
              && (m.At(axis) == a.At(axis) || m.At(axis) == b.At(axis))
  {
    Vector2(StdMax(a.x, b.x), StdMax(a.y, b.y))
  }
}
