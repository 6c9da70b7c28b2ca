/** The comparison and policy part of `Vector2`/`Vector3` in Linear/Vector.hpp: the
    dimension, component access, the componentwise `operator<=` and the free `min`/`max`
    that the point kd-tree uses. The arithmetic operators are not modelled. */
module LinearVector {
  import opened Types

  /** Two reals stored as `xyz[2]`. */
  datatype Vector2 = Vector2(x: Real, y: Real)
  {
    static const DIM: Index := 2

    /** The single-value constructor `Vector2(vv)`. */
    static function Fill(vv: Real): (v: Vector2)
      ensures forall axis :: 0 <= axis < DIM ==> v.At(axis) == vv
    {
      Vector2(vv, vv)
    }

    /** `operator[]`; an axis outside `[0, DIM)` reads past the array in the source. */
    function At(axis: Index): Real
      requires 0 <= axis < DIM
    {
      if axis == 0 then x else y
    }

    /** `operator<=`, written as the source's early-exit comparisons; it is the
        componentwise order. */
    predicate LessEq(rhs: Vector2)
      ensures LessEq(rhs) <==> forall axis :: 0 <= axis < DIM ==> At(axis) <= rhs.At(axis)
    {
      assert At(0) == x && At(1) == y && rhs.At(0) == rhs.x && rhs.At(1) == rhs.y;
      if x > rhs.x then false else if y > rhs.y then false else true
    }
  }

  /** Three reals stored as `xyz[3]`. */
  datatype Vector3 = Vector3(x: Real, y: Real, z: Real)
  {
    static const DIM: Index := 3

    /** The single-value constructor `Vector3(vv)`. */
    static function Fill(vv: Real): (v: Vector3)
      ensures forall axis :: 0 <= axis < DIM ==> v.At(axis) == vv
    {
      Vector3(vv, vv, vv)
    }

    /** `operator[]`. */
    function At(axis: Index): Real
      requires 0 <= axis < DIM
    {
      if axis == 0 then x else if axis == 1 then y else z
    }

    /** `operator<=`: the componentwise order. */
    predicate LessEq(rhs: Vector3)
      ensures LessEq(rhs) <==> forall axis :: 0 <= axis < DIM ==> At(axis) <= rhs.At(axis)
    {
      assert At(0) == x && At(1) == y && At(2) == z;
      assert rhs.At(0) == rhs.x && rhs.At(1) == rhs.y && rhs.At(2) == rhs.z;
      if x > rhs.x then false else if y > rhs.y then false else if z > rhs.z then false else true
    }
  }

  /** Free `min` on `Vector2`: componentwise minimum. */
  function Min2(a: Vector2, b: Vector2): (r: Vector2)
    ensures forall axis :: 0 <= axis < Vector2.DIM ==>
              && r.At(axis) <= a.At(axis) && r.At(axis) <= b.At(axis)
              && (r.At(axis) == a.At(axis) || r.At(axis) == b.At(axis))
  {
    Vector2(MinReal(a.x, b.x), MinReal(a.y, b.y))
  }

  /** Free `max` on `Vector2`: componentwise maximum. */
  function Max2(a: Vector2, b: Vector2): (r: Vector2)
    ensures forall axis :: 0 <= axis < Vector2.DIM ==>
              && r.At(axis) >= a.At(axis) && r.At(axis) >= b.At(axis)
              && (r.At(axis) == a.At(axis) || r.At(axis) == b.At(axis))
  {
    Vector2(MaxReal(a.x, b.x), MaxReal(a.y, b.y))
  }

  /** Free `min` on `Vector3`. */
  function Min3(a: Vector3, b: Vector3): (r: Vector3)
    ensures forall axis :: 0 <= axis < Vector3.DIM ==>
              && r.At(axis) <= a.At(axis) && r.At(axis) <= b.At(axis)
              && (r.At(axis) == a.At(axis) || r.At(axis) == b.At(axis))
  {
    Vector3(MinReal(a.x, b.x), MinReal(a.y, b.y), MinReal(a.z, b.z))
  }

  /** Free `max` on `Vector3`. */
  function Max3(a: Vector3, b: Vector3): (r: Vector3)
    ensures forall axis :: 0 <= axis < Vector3.DIM ==>
              && r.At(axis) >= a.At(axis) && r.At(axis) >= b.At(axis)
              && (r.At(axis) == a.At(axis) || r.At(axis) == b.At(axis))
  {
    Vector3(MaxReal(a.x, b.x), MaxReal(a.y, b.y), MaxReal(a.z, b.z))
  }

  /** Under `operator<=`, `min` is the greatest lower bound and `max` the least upper
      bound of two vectors. */
  lemma MinMaxAreBounds2(a: Vector2, b: Vector2, c: Vector2)
    ensures Min2(a, b).LessEq(a) && Min2(a, b).LessEq(b)
    ensures a.LessEq(Max2(a, b)) && b.LessEq(Max2(a, b))
    ensures c.LessEq(a) && c.LessEq(b) ==> c.LessEq(Min2(a, b))
    ensures a.LessEq(c) && b.LessEq(c) ==> Max2(a, b).LessEq(c)
  {
  }

  /** The same lattice facts for `Vector3`. */
  lemma MinMaxAreBounds3(a: Vector3, b: Vector3, c: Vector3)
    ensures Min3(a, b).LessEq(a) && Min3(a, b).LessEq(b)
    ensures a.LessEq(Max3(a, b)) && b.LessEq(Max3(a, b))
    ensures c.LessEq(a) && c.LessEq(b) ==> c.LessEq(Min3(a, b))
    ensures a.LessEq(c) && b.LessEq(c) ==> Max3(a, b).LessEq(c)
  {
  }
}
