/** Column values as the storage layer holds them. Floating-point values are their IEEE bit
    patterns here; strings are byte sequences. */
module Columns {
  import opened ByteOrder

  datatype DataType =
    | TypeInt8 | TypeInt16 | TypeInt32 | TypeInt64
    | TypeFloat32 | TypeFloat64 | TypeString | TypeBinary | TypeFixedSizeList
    | OtherType(code: int)

  datatype Column =
    | Int8s(int8s: seq<int>)
    | Int16s(int16s: seq<int>)
    | Int32s(int32s: seq<Int32>)
    | Int64s(int64s: seq<Int64>)
    | Float32s(float32s: seq<Word32>)
    | Float64s(float64s: seq<Word64>)
    | Strings(strings: seq<seq<Byte>>)
    | Binaries(binaries: seq<seq<Byte>>)

  function Length(c: Column): nat {
    match c
    case Int8s(v) => |v|
    case Int16s(v) => |v|
    case Int32s(v) => |v|
    case Int64s(v) => |v|
    case Float32s(v) => |v|
    case Float64s(v) => |v|
    case Strings(v) => |v|
    case Binaries(v) => |v|
  }

  /** The column is a slice of the Go type the data type stands for. */
  predicate HasType(c: Column, t: DataType) {
    match t
    case TypeInt8 => c.Int8s?
    case TypeInt16 => c.Int16s?
    case TypeInt32 => c.Int32s?
    case TypeInt64 => c.Int64s?
    case TypeFloat32 => c.Float32s?
    case TypeFixedSizeList => c.Float32s?
    case TypeFloat64 => c.Float64s?
    case TypeString => c.Strings?
    case TypeBinary => c.Binaries?
    case OtherType(_) => false
  }

  /** The types the page codec can store. */
  predicate Encodable(t: DataType) {
    !t.TypeInt8? && !t.TypeInt16? && !t.OtherType?
  }
}
