/** `FrontendGenImpl::TypeConvert`: ONNX element type codes to MLIR element types. */
module TypeConverter {
  import opened Onnx
  import opened Ir

  predicate IsSignedInt(t: DataType) {
    t == Int8 || t == Int16 || t == Int32 || t == Int64
  }

  predicate IsUnsignedInt(t: DataType) {
    t == Uint8 || t == Uint16 || t == Uint32 || t == Uint64
  }

  predicate IsFloating(t: DataType) {
    t == Float16 || t == Float || t == Double
  }

  /** The codes that have no MLIR counterpart in this importer. */
  predicate IsUnsupported(t: DataType) {
    t == String || t == Complex64 || t == Complex128 || t == Undefined
  }

  /** The bit width an ONNX code names (BOOL is one bit; 0 for the unsupported codes). */
  function NominalBits(t: DataType): nat {
    match t
    case Bool => 1
    case Int8 | Uint8 => 8
    case Int16 | Uint16 | Float16 => 16
    case Int32 | Uint32 | Float => 32
    case Int64 | Uint64 | Double => 64
    case _ => 0
  }

  /** The bit width of an MLIR element type (0 for the null type). */
  function ElemBits(e: ElemType): nat {
    match e
    case F16 => 16
    case F32 => 32
    case F64 => 64
    case Integer(w) => w
    case Null => 0
  }

  function TypeConvert(t: DataType): (r: ElemType)
    ensures r == Null <==> IsUnsupported(t)
    ensures r.Integer? <==> IsSignedInt(t) || IsUnsignedInt(t) || t == Bool
    ensures (r == F16 || r == F32 || r == F64) <==> IsFloating(t)
    ensures ElemBits(r) == NominalBits(t)
  {
    match t
    case Float16 => F16
    case Float => F32
    case Double => F64
    case Int8 | Uint8 => Integer(8)
    case Int16 | Uint16 => Integer(16)
    case Int32 | Uint32 => Integer(32)
    case Int64 | Uint64 => Integer(64)
    case Bool => Integer(1)
    case String | Complex64 | Complex128 | Undefined => Null
  }

  /** Signed and unsigned codes of one width become the same integer type: signedness is lost. */
  lemma SignednessDropped(a: DataType, b: DataType)
    requires IsSignedInt(a) && IsUnsignedInt(b) && NominalBits(a) == NominalBits(b)
    ensures TypeConvert(a) == TypeConvert(b) == Integer(NominalBits(a))
  {
  }

  /** Apart from signedness, different codes give different element types. */
  lemma TypeConvertOnlyMergesSignedness(a: DataType, b: DataType)
    requires !IsUnsupported(a) && TypeConvert(a) == TypeConvert(b)
    ensures a == b || ((IsSignedInt(a) || IsUnsignedInt(a)) && (IsSignedInt(b) || IsUnsignedInt(b))
                       && NominalBits(a) == NominalBits(b))
  {
  }
}
