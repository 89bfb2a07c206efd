/** The tagged value every runtime kernel reads and writes. */
module Values {
  import opened Machine
  import opened Doubles

  datatype Option<+T> = None | Some(value: T)

  /** A string or bytes payload is the span's contents; `Other` stands for the kinds whose payload is
      only a reference (lists, maps, messages, types, optionals). */
  datatype Value =
    | Null
    | Bool(b: bool)
    | Int(i: Int64)
    | Uint(u: UInt64)
    | Dbl(d: Double)
    | Str(text: seq<Byte>)
    | Bytes(octets: seq<Byte>)
    | Duration(seconds: Int64, nanos: int)
    | Timestamp(seconds: Int64, nanos: int)
    | Ip(family: nat, addr: seq<Byte>)
    | Cidr(family: nat, prefix: nat, addr: seq<Byte>)
    | Other(kind: nat, ref: UInt32)
    | Unknown(unk: UInt32)
    | Error(err: UInt32)

  const ERR_OVERFLOW: UInt32 := 10
  const ERR_DIVIDE_BY_ZERO: UInt32 := 11
  const ERR_MODULUS_BY_ZERO: UInt32 := 12
  const ERR_TYPE_MISMATCH: UInt32 := 13
  const ERR_DUPLICATE_KEY: UInt32 := 16
  const ERR_INVALID_ARGUMENT: UInt32 := 18

  /** Errors and unknowns pass through a unary kernel unchanged. */
  predicate Absorbed(v: Value) {
    v.Error? || v.Unknown?
  }

  predicate IsNumeric(v: Value) {
    v.Int? || v.Uint? || v.Dbl?
  }

  /** The number a numeric value denotes, on the extended real line. */
  function NumberOf(v: Value): Extended
    requires IsNumeric(v)
  {
    match v
    case Int(i) => Finite(i as real)
    case Uint(u) => Finite(u as real)
    case Dbl(d) => d
  }

  /** The number after conversion to double. */
  function ImageOf(v: Value): Double
    requires IsNumeric(v)
  {
    match v
    case Int(i) => IntToDouble(i)
    case Uint(u) => IntToDouble(u)
    case Dbl(d) => d
  }
}
