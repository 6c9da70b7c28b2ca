/** `Vector3` of Math/Vector3.hpp: the fill constructor, component access and the free
    componentwise `min`/`max` (which use `std::min`/`std::max`). The arithmetic operators
    are not modelled. */
module MathVector3 {
  import opened Types
  import opened StdAlgorithm

  /** Three reals stored as `xyz[3]`; `x()`, `y()`, `z()` are `xyz[0]`, `xyz[1]`, `xyz[2]`. */
  datatype Vector3 = Vector3(x: Real, y: Real, z: Real)
  {
    /** `operator[]`; an axis outside `{0, 1, 2}` reads past the array in the source. */
    function At(axis: Index): Real
      requires 0 <= axis < 3
    {
      if axis == 0 then x else if axis == 1 then y else z
    }
  }

  /** The single-value constructor `Vector3(vv)`: every component is `vv`. */
  function Fill(vv: Real): (v: Vector3)
    ensures forall axis :: 0 <= axis < 3 ==> v.At(axis) == vv
  {
    Vector3(vv, vv, vv)
  }

  /** `operator[](k)` for `k = 0, 1, 2` is the storage behind `x()`, `y()` and `z()`. */
  lemma AtAliasesComponents(v: Vector3)
    ensures v.At(0) == v.x && v.At(1) == v.y && v.At(2) == v.z
  {
  }

  /** Free `min`: each component is the smaller of the two matching components. */
  function Min(l: Vector3, r: Vector3): (m: Vector3)
    ensures forall axis :: 0 <= axis < 3 ==>
              && m.At(axis) <= l.At(axis) && m.At(axis) <= r.At(axis)
              && (m.At(axis) == l.At(axis) || m.At(axis) == r.At(axis))
  {
    Vector3(StdMin(l.x, r.x), StdMin(l.y, r.y), StdMin(l.z, r.z))
  }

  /** Free `max`: each component is the larger of the two matching components. */
  function Max(a: Vector3, b: Vector3): (m: Vector3)
    ensures forall axis :: 0 <= axis < 3 ==>
              && m.At(axis) >= a.At(axis) && m.At(axis) >= b.At(axis)
              && (m.At(axis) == a.At(axis) || m.At(axis) == b.At(axis))
  {
    Vector3(StdMax(a.x, b.x), StdMax(a.y, b.y), StdMax(a.z, b.z))
  }
}
