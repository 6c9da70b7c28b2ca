/** Geometry/MeshAttrib.hpp: the attribute ranks and storage tags, the `MeshAttrib` header
    every attribute carries, `TypeToStorageConverter`, and `MeshNumericAttrib<T>`, an
    attribute holding one `T` per element. */
module MeshAttrib {
  import Types

  /** `MeshAttribRank`: what one element of an attribute belongs to. */
  datatype MeshAttribRank = Point | Vertex | Polygon | Mesh

  /** `MeshAttrib::Storage`: the element type an attribute stores. */
  datatype Storage = Real | Index | Vector2 | Vector3

  /** `MeshAttrib::Access`. */
  datatype Access = Private | Public

  /** The `MeshAttrib` base: rank, storage tag and element count, all fixed at construction
      (the back-reference to the owning mesh is not part of this model). */
  datatype MeshAttrib = MeshAttrib(rank: MeshAttribRank, storage: Storage, size: Types.Index)
  {
    function GetRank(): MeshAttribRank { rank }

    function GetStorage(): Storage { storage }

    function GetSize(): Types.Index { size }
  }

  /** The element types `TypeToStorageConverter` is specialised for: `Real`, `Index`,
      `Vector2` and `Vector3`. */
  datatype NumericType = RealType | IndexType | Vector2Type | Vector3Type

  /** `TypeToStorageConverter<T>::value()`. */
  function TypeToStorage(t: NumericType): Storage
  {
    match t
    case RealType => Storage.Real
    case IndexType => Storage.Index
    case Vector2Type => Storage.Vector2
    case Vector3Type => Storage.Vector3
  }

  /** The element type a storage tag stands for. */
  function StorageType(s: Storage): NumericType
  {
    match s
    case Real => RealType
    case Index => IndexType
    case Vector2 => Vector2Type
    case Vector3 => Vector3Type
  }

  /** Every storage tag belongs to exactly one element type: the converter is a bijection
      between the specialised types and the tags. */
  lemma StorageConversionBijective(t: NumericType, s: Storage)
    ensures StorageType(TypeToStorage(t)) == t
    ensures TypeToStorage(StorageType(s)) == s
    ensures TypeToStorage(t) == s <==> t == StorageType(s)
  {
  }

  /** `MeshNumericAttrib<T>`: the header plus the vector `data` of elements, whose storage
      tag is the converter's value for `T`. A type parameter cannot be inspected, so the
      caller names `T`'s own element type as `element`; the tag is derived from it. */
  class MeshNumericAttrib<T>
  {
    const rank: MeshAttribRank
    const storage: Storage
    const size: Types.Index
    const element: NumericType
    var data: seq<T>

    /** The header agrees with the data: one element per counted slot, and the tag of `T`. */
    ghost predicate Valid()
      reads this
    {
      |data| == size && storage == TypeToStorage(element)
    }

    /** `MeshNumericAttrib(mesh, rank, size)`: `size` value-initialised elements (`zero`
        stands for `T{}`). */
    constructor Sized(rank: MeshAttribRank, element: NumericType, size: Types.Index, zero: T)
      requires size >= 0
      ensures this.rank == rank && this.element == element && this.size == size
      ensures data == seq(size, _ => zero)
      ensures Valid()
    {
      this.rank, this.element, this.size := rank, element, size;
      storage := TypeToStorage(element);
      data := seq(size, _ => zero);
    }

    /** `MeshNumericAttrib(mesh, rank, new_data)`: takes the elements over, and their count. */
    constructor FromData(rank: MeshAttribRank, element: NumericType, newData: seq<T>)
      ensures this.rank == rank && this.element == element
      ensures data == newData && size == |newData|
      ensures Valid()
    {
      this.rank, this.element, size := rank, element, |newData|;
      storage := TypeToStorage(element);
      data := newData;
    }

    /** The `MeshAttrib` base of this attribute. */
    function Header(): (header: MeshAttrib)
      reads this
      requires Valid()
      ensures header.GetSize() == |data| && header.GetStorage() == TypeToStorage(element)
      ensures header.GetRank() == rank
    {
      MeshAttrib(rank, storage, size)
    }

    /** The const `Get(i)`. */
    function Get(i: Types.Index): T
      reads this
      requires Valid() && 0 <= i < size
    {
      data[i]
    }

    /** Assigning through the non-const `Get(i)`: element `i` becomes `value`, every other
        element and the header stay as they were. */
    method Set(i: Types.Index, value: T)
      requires Valid() && 0 <= i < size
      modifies this
      ensures Valid()
      ensures data == old(data)[i := value]
      ensures Get(i) == value
      ensures forall j :: 0 <= j < size && j != i ==> Get(j) == old(Get(j))
    {
      data := data[i := value];
    }
  }
}
