/** The type universe that loleseri's templates range over, and the objects
    of those types. */
module Values {
  import opened Bytes

  /** Width of a fixed-width integer type (std::uint8_t ... std::int64_t). */
  datatype Width = W8 | W16 | W32 | W64 {
    /** sizeof of the integer type */
    function Bytes(): (n: nat)
      ensures n in {1, 2, 4, 8}
    {
      match this
      case W8 => 1
      case W16 => 2
      case W32 => 4
      case W64 => 8
    }
  }

  /** A serializable type.  A struct is described by the ordered list of the
      types of the members that its `items<T>::list()` names; members left out
      of that list are not part of the wire format and do not appear here. */
  datatype Ty =
    | Bool
    | UInt(w: Width)
    | SInt(w: Width)
    | Float
    | Double
    | StdArray(elem: Ty, n: nat)
    | CArray(elem: Ty, n: nat)
    | Struct(fields: seq<Ty>)

  /** A value of a serializable type.  Floating point values are opaque byte
      patterns (their bytes in memory); both array kinds hold their elements in
      index order; a struct value holds the values of its listed members in
      list order, one value per list position (the listed members are taken
      to be distinct objects that do not overlap). */
  datatype Val =
    | BoolV(b: bool)
    | IntV(x: int)
    | FloatV(bits: seq<byte>)
    | ArrV(elems: seq<Val>)
    | StructV(fields: seq<Val>)

  /** v conforms to t: integers are in their type's range, floating
      point patterns have sizeof bytes, arrays have exactly n elements. */
  predicate Conforms(v: Val, t: Ty)
    decreases t
  {
    match t
    case Bool => v.BoolV?
    case UInt(w) => v.IntV? && 0 <= v.x < Pow256(w.Bytes())
    case SInt(w) => v.IntV? && -(Half(w.Bytes()) as int) <= v.x < Half(w.Bytes())
    case Float => v.FloatV? && |v.bits| == 4
    case Double => v.FloatV? && |v.bits| == 8
    case StdArray(e, n) =>
      v.ArrV? && |v.elems| == n && forall i :: 0 <= i < n ==> Conforms(v.elems[i], e)
    case CArray(e, n) =>
      v.ArrV? && |v.elems| == n && forall i :: 0 <= i < n ==> Conforms(v.elems[i], e)
    case Struct(fs) =>
      v.StructV? && |v.fields| == |fs| && forall i :: 0 <= i < |fs| ==> Conforms(v.fields[i], fs[i])
  }

}
