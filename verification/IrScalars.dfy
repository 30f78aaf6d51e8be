/** Typed scalars of the op and expression vocabularies. */
module IrScalars {
  import opened Unicode

  datatype IrScalar =
    | Null
    | Bool(b: bool)
    | Int(i: int)
    | Int64(i: int)
    | Decimal(text: string)
    | Str(s: string)
    | Bytes(payload: seq<Byte>)
}
