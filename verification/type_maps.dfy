/**
  The dtype-name lookup tables of the three converter variants. Each is a
  Python dict indexed with `str(dtype)`; a missing key raises KeyError.
 */
module TypeMaps {
  import opened Wrappers
  import opened Errors
  import opened DTypes

  /** The eleven dtype names the two maintained variants accept. */
  const RootDTypes: set<string> :=
    {"int8", "int16", "int32", "int64", "uint8", "uint16", "uint32", "uint64",
     "float32", "float64", "bool"}

  /** The nine dtype names the legacy script accepts: no float32, no bool. */
  const LegacyDTypes: set<string> :=
    {"int8", "int16", "int32", "int64", "uint8", "uint16", "uint32", "uint64", "float64"}

  function RootCode(t: ScalarType): char {
    match t
    case Int64 => 'L'
    case UInt64 => 'l'
    case Int32 => 'I'
    case UInt32 => 'i'
    case Int16 => 'S'
    case UInt16 => 's'
    case Int8 => 'B'
    case UInt8 => 'b'
    case Float64 => 'D'
    case Float32 => 'F'
    case Bool => 'O'
  }

  /** Reads a branch type code back as the scalar type the maintained map sends to it. */
  function RootCodeType(code: char): Option<ScalarType> {
    match code
    case 'L' => Some(Int64)
    case 'l' => Some(UInt64)
    case 'I' => Some(Int32)
    case 'i' => Some(UInt32)
    case 'S' => Some(Int16)
    case 's' => Some(UInt16)
    case 'B' => Some(Int8)
    case 'b' => Some(UInt8)
    case 'D' => Some(Float64)
    case 'F' => Some(Float32)
    case 'O' => Some(Bool)
    case _ => None
  }

  /** `get_root_type_descriptor` of the maintained variants. */
  function RootTypeDescriptor(dtype: string): (r: Result<char, Error>)
    ensures r.Success? <==> dtype in RootDTypes
    ensures r.Failure? ==> r.error == KeyError(dtype)
    ensures r.Success? ==> ParseDType(dtype).Some? && LeafOf(r.value) == Some(ExactLeaf(ParseDType(dtype).value))
  {
    match ParseDType(dtype)
    case None => Failure(KeyError(dtype))
    case Some(t) => Success(RootCode(t))
  }

  /** The maintained map is a bijection between its eleven dtypes and eleven codes. */
  lemma RootCodeRoundTrip(t: ScalarType, code: char)
    ensures RootCodeType(RootCode(t)) == Some(t)
    ensures RootCodeType(code) == Some(t) ==> RootCode(t) == code
  {
  }

  /** Distinct dtype names never share a branch type code. */
  lemma RootCodesDistinct(a: string, b: string)
    requires RootTypeDescriptor(a).Success? && RootTypeDescriptor(b).Success?
    requires RootTypeDescriptor(a).value == RootTypeDescriptor(b).value
    ensures a == b
  {
    var ta, tb := ParseDType(a).value, ParseDType(b).value;
    RootCodeRoundTrip(ta, RootCode(tb));
  }

  /** `get_c_type_descriptor` of convert_table.py, with fixed-width ctypes classes. */
  function CTypeDescriptor(dtype: string): (r: Result<CType, Error>)
    ensures r.Success? <==> dtype in RootDTypes
    ensures r.Failure? ==> r.error == KeyError(dtype)
    ensures r.Success? ==>
      && ParseDType(dtype).Some?
      && CKind(r.value) == KindOf(ParseDType(dtype).value)
      && CSize(r.value) == ItemSize(ParseDType(dtype).value)
  {
    match ParseDType(dtype)
    case None => Failure(KeyError(dtype))
    case Some(t) =>
      Success(match t
        case Int64 => CInt64
        case UInt64 => CUInt64
        case Int32 => CInt32
        case UInt32 => CUInt32
        case Int16 => CInt16
        case UInt16 => CUInt16
        case Int8 => CInt8
        case UInt8 => CUInt8
        case Float64 => CDouble
        case Float32 => CFloat
        case Bool => CBool)
  }

  /** `get_c_type_descriptor` of the packaged PyTables2RootTTree.py, with C-named ctypes classes. */
  function PackageCTypeDescriptor(dtype: string): (r: Result<CType, Error>)
    ensures r.Success? <==> dtype in RootDTypes
    ensures r.Failure? ==> r.error == KeyError(dtype)
    ensures r.Success? ==>
      && ParseDType(dtype).Some?
      && CKind(r.value) == KindOf(ParseDType(dtype).value)
      && CSize(r.value) == ItemSize(ParseDType(dtype).value)
  {
    match ParseDType(dtype)
    case None => Failure(KeyError(dtype))
    case Some(t) =>
      Success(match t
        case Int64 => CLongLong
        case UInt64 => CULongLong
        case Int32 => CInt
        case UInt32 => CUInt
        case Int16 => CShort
        case UInt16 => CUShort
        case Int8 => CByte
        case UInt8 => CUByte
        case Float64 => CDouble
        case Float32 => CFloat
        case Bool => CBool)
  }

  /** In both maintained variants a dtype has a branch code exactly when it has a buffer type. */
  lemma MaintainedMapsAgree(dtype: string)
    ensures RootTypeDescriptor(dtype).Success? <==> CTypeDescriptor(dtype).Success?
    ensures RootTypeDescriptor(dtype).Success? <==> PackageCTypeDescriptor(dtype).Success?
    ensures CTypeDescriptor(dtype).Success? ==>
      CSize(CTypeDescriptor(dtype).value) == CSize(PackageCTypeDescriptor(dtype).value)
  {
  }

  function LegacyRootCode(t: ScalarType): Option<char> {
    match t
    case Int64 => Some('L')
    case UInt64 => Some('l')
    case Int32 => Some('I')
    case UInt32 => Some('i')
    case Int16 => Some('S')
    case UInt16 => Some('s')
    case Int8 => Some('B')
    case UInt8 => Some('b')
    case Float64 => Some('d')
    case Float32 | Bool => None
  }

  /** Reads a branch type code back as the scalar type the legacy map sends to it. */
  function LegacyRootCodeType(code: char): Option<ScalarType> {
    match code
    case 'L' => Some(Int64)
    case 'l' => Some(UInt64)
    case 'I' => Some(Int32)
    case 'i' => Some(UInt32)
    case 'S' => Some(Int16)
    case 's' => Some(UInt16)
    case 'B' => Some(Int8)
    case 'b' => Some(UInt8)
    case 'd' => Some(Float64)
    case _ => None
  }

  /** The legacy map is a bijection between its nine dtypes and nine codes. */
  lemma LegacyRootCodeRoundTrip(t: ScalarType, code: char)
    ensures LegacyRootCode(t).Some? ==> LegacyRootCodeType(LegacyRootCode(t).value) == Some(t)
    ensures LegacyRootCodeType(code) == Some(t) ==> LegacyRootCode(t) == Some(code)
  {
  }

  /** The legacy dtype names are those of the scalar types the legacy code table covers. */
  lemma LegacyDomain(dtype: string)
    ensures dtype in LegacyDTypes <==> ParseDType(dtype).Some? && LegacyRootCode(ParseDType(dtype).value).Some?
  {
  }

  /**
    `get_root_type_descriptor` of the legacy script: float64 goes to `d`
    (Double32_t, stored with 4 bytes), float32 and bool are missing.
   */
  function LegacyRootTypeDescriptor(dtype: string): (r: Result<char, Error>)
    ensures r.Success? <==> dtype in LegacyDTypes
    ensures r.Failure? ==> r.error == KeyError(dtype)
    ensures r.Success? ==>
      && ParseDType(dtype).Some?
      && LeafOf(r.value).Some?
      && LeafOf(r.value).value.kind == KindOf(ParseDType(dtype).value)
      && LeafOf(r.value).value.memoryBytes == ItemSize(ParseDType(dtype).value)
      && (LeafOf(r.value).value.storedBytes == ItemSize(ParseDType(dtype).value) <==> ParseDType(dtype).value != Float64)
  {
    LegacyDomain(dtype);
    match ParseDType(dtype)
    case None => Failure(KeyError(dtype))
    case Some(t) =>
      match LegacyRootCode(t)
      case None => Failure(KeyError(dtype))
      case Some(c) => Success(c)
  }

  /** Distinct dtype names never share a legacy branch type code. */
  lemma LegacyRootCodesDistinct(a: string, b: string)
    requires LegacyRootTypeDescriptor(a).Success? && LegacyRootTypeDescriptor(b).Success?
    requires LegacyRootTypeDescriptor(a).value == LegacyRootTypeDescriptor(b).value
    ensures a == b
  {
  }

  /** `get_c_type_descriptor` of the legacy script: the packaged map's classes, on the nine legacy names. */
  function LegacyCTypeDescriptor(dtype: string): (r: Result<CType, Error>)
    ensures r.Success? <==> dtype in LegacyDTypes
    ensures r.Failure? ==> r.error == KeyError(dtype)
    ensures r.Success? ==>
      && ParseDType(dtype).Some?
      && CKind(r.value) == KindOf(ParseDType(dtype).value)
      && CSize(r.value) == ItemSize(ParseDType(dtype).value)
  {
    LegacyDomain(dtype);
    if dtype in LegacyDTypes then PackageCTypeDescriptor(dtype) else Failure(KeyError(dtype))
  }

  /** The legacy script's two maps have the same nine-name domain. */
  lemma LegacyMapsAgree(dtype: string)
    ensures LegacyRootTypeDescriptor(dtype).Success? <==> LegacyCTypeDescriptor(dtype).Success?
  {
  }
}
