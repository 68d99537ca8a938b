/**
  The scalar element types a pytables column can have, named as numpy
  prints them, together with the two foreign type vocabularies the converter
  maps them to: ctypes classes (for the raw buffers) and ROOT leaf type codes
  (for branch descriptors). Widths are byte counts.
 */
module DTypes {
  import opened Wrappers

  /** The numeric kind of an element, independent of its width. */
  datatype Kind = Signed | Unsigned | Float | Boolean

  datatype ScalarType =
    | Int8 | Int16 | Int32 | Int64
    | UInt8 | UInt16 | UInt32 | UInt64
    | Float32 | Float64
    | Bool

  /** The string `str(dtype)` yields for each scalar type. */
  function DTypeName(t: ScalarType): string {
    match t
    case Int8 => "int8"
    case Int16 => "int16"
    case Int32 => "int32"
    case Int64 => "int64"
    case UInt8 => "uint8"
    case UInt16 => "uint16"
    case UInt32 => "uint32"
    case UInt64 => "uint64"
    case Float32 => "float32"
    case Float64 => "float64"
    case Bool => "bool"
  }

  /** Recognises a dtype name; every other string (compound, string, float16 ...) is None. */
  function ParseDType(s: string): (r: Option<ScalarType>)
    ensures r.Some? ==> DTypeName(r.value) == s
    ensures forall t :: DTypeName(t) == s ==> r == Some(t)
  {
    if s == "int8" then Some(Int8)
    else if s == "int16" then Some(Int16)
    else if s == "int32" then Some(Int32)
    else if s == "int64" then Some(Int64)
    else if s == "uint8" then Some(UInt8)
    else if s == "uint16" then Some(UInt16)
    else if s == "uint32" then Some(UInt32)
    else if s == "uint64" then Some(UInt64)
    else if s == "float32" then Some(Float32)
    else if s == "float64" then Some(Float64)
    else if s == "bool" then Some(Bool)
    else None
  }

  function KindOf(t: ScalarType): Kind {
    match t
    case Int8 | Int16 | Int32 | Int64 => Signed
    case UInt8 | UInt16 | UInt32 | UInt64 => Unsigned
    case Float32 | Float64 => Float
    case Bool => Boolean
  }

  /** numpy's itemsize of each type. */
  function ItemSize(t: ScalarType): nat {
    match t
    case Int8 | UInt8 | Bool => 1
    case Int16 | UInt16 => 2
    case Int32 | UInt32 | Float32 => 4
    case Int64 | UInt64 | Float64 => 8
  }

  /**
    The ctypes classes the converter names. Sizes are those of the usual
    C data models (ILP32, LP64 and LLP64 agree on all of them): `int` is 4
    bytes, `short` 2, `long long` 8, and the fixed-width aliases are exact.
   */
  datatype CType =
    | CInt8 | CInt16 | CInt32 | CInt64
    | CUInt8 | CUInt16 | CUInt32 | CUInt64
    | CByte | CUByte | CShort | CUShort | CInt | CUInt | CLongLong | CULongLong
    | CFloat | CDouble | CBool

  function CKind(c: CType): Kind {
    match c
    case CInt8 | CInt16 | CInt32 | CInt64 | CByte | CShort | CInt | CLongLong => Signed
    case CUInt8 | CUInt16 | CUInt32 | CUInt64 | CUByte | CUShort | CUInt | CULongLong => Unsigned
    case CFloat | CDouble => Float
    case CBool => Boolean
  }

  function CSize(c: CType): nat {
    match c
    case CInt8 | CUInt8 | CByte | CUByte | CBool => 1
    case CInt16 | CUInt16 | CShort | CUShort => 2
    case CInt32 | CUInt32 | CInt | CUInt | CFloat => 4
    case CInt64 | CUInt64 | CLongLong | CULongLong | CDouble => 8
  }

  /**
    What a ROOT leaf type code denotes: the element kind, its width in
    memory and its width as written to the file. Only `d` (Double32_t)
    differs between the two: a 64-bit double in memory stored as a 32-bit
    float.
   */
  datatype Leaf = Leaf(kind: Kind, memoryBytes: nat, storedBytes: nat)

  /** ROOT's leaf type table (TTree::Branch documentation), for the codes the converter uses. */
  function LeafOf(code: char): Option<Leaf> {
    match code
    case 'B' => Some(Leaf(Signed, 1, 1))
    case 'b' => Some(Leaf(Unsigned, 1, 1))
    case 'S' => Some(Leaf(Signed, 2, 2))
    case 's' => Some(Leaf(Unsigned, 2, 2))
    case 'I' => Some(Leaf(Signed, 4, 4))
    case 'i' => Some(Leaf(Unsigned, 4, 4))
    case 'L' => Some(Leaf(Signed, 8, 8))
    case 'l' => Some(Leaf(Unsigned, 8, 8))
    case 'F' => Some(Leaf(Float, 4, 4))
    case 'D' => Some(Leaf(Float, 8, 8))
    case 'd' => Some(Leaf(Float, 8, 4))
    case 'O' => Some(Leaf(Boolean, 1, 1))
    case _ => None
  }

  /** The leaf a faithful mapping of `t` must produce: same kind, same width in memory and on disk. */
  function ExactLeaf(t: ScalarType): Leaf {
    Leaf(KindOf(t), ItemSize(t), ItemSize(t))
  }

  function Pow256(bytes: nat): (r: nat)
    ensures r >= 1
  {
    if bytes == 0 then 1 else 256 * Pow256(bytes - 1)
  }

  /** Half the range of a `bytes`-byte integer: its largest signed value plus one. */
  function Half(bytes: nat): (h: int)
    requires bytes > 0
    ensures h > 0 && Pow256(bytes) == 2 * h
  {
    128 * Pow256(bytes - 1)
  }

  /** Two's complement reduction of `n` into `[-h, h)`. */
  function Wrap(n: int, h: int): (r: int)
    requires h > 0
    ensures -h <= r < h
    ensures r % (2 * h) == n % (2 * h)
    ensures -h <= n < h ==> r == n
  {
    var m := 2 * h;
    var v := n % m;
    ModShift(v, m);
    if -h <= n < h then
      InRangeMod(n, m);
      n
    else if v >= h then v - m else v
  }

  /**
    The value a signed ctypes integer of `bytes` bytes holds after
    `.value = n` or construction from `n`: ctypes does no overflow check,
    so `n` is reduced to two's complement.
   */
  function CIntValue(n: int, bytes: nat): (r: int)
    requires bytes > 0
    ensures -Half(bytes) <= r < Half(bytes)
    ensures r % Pow256(bytes) == n % Pow256(bytes)
    ensures -Half(bytes) <= n < Half(bytes) ==> r == n
  {
    Wrap(n, Half(bytes))
  }

  lemma ModShift(v: int, m: int)
    requires m > 0 && 0 <= v < m
    ensures v % m == v
    ensures (v - m) % m == v
  {
  }

  lemma InRangeMod(n: int, m: int)
    requires m > 0 && -m <= n < m
    ensures n % m == n || n % m == n + m
  {
  }
}
