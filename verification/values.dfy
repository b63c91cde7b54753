/** The shapes of value the encoder is driven with. In the source a value
    reveals its shape by calling one `serialize_*` method of the encoder; here
    that choice is a constructor of a closed datatype. Names of structs,
    variants and fields are Rust `&'static str`s, modelled as strings. */
module Values {
  import opened Bytes

  datatype IntWidth = I8 | I16 | I32 | I64 | U8 | U16 | U32 | U64 {

    function Min(): int {
      match this
      case I8 => -0x80
      case I16 => -0x8000
      case I32 => -0x8000_0000
      case I64 => -0x8000_0000_0000_0000
      case _ => 0
    }

    function Max(): int {
      match this
      case I8 => 0x7F
      case I16 => 0x7FFF
      case I32 => 0x7FFF_FFFF
      case I64 => 0x7FFF_FFFF_FFFF_FFFF
      case U8 => 0xFF
      case U16 => 0xFFFF
      case U32 => 0xFFFF_FFFF
      case U64 => 0xFFFF_FFFF_FFFF_FFFF
    }
  }

  datatype Int = Int(width: IntWidth, n: int) {
    predicate InRange() {
      width.Min() <= n <= width.Max()
    }
  }

  /** A Rust integer of one of the widths `i8` .. `u64`. */
  type RustInt = i: Int | i.InRange() witness Int(U8, 0)

  datatype FloatWidth = F32 | F64

  datatype Value =
    | Bool(b: bool)
    | Integer(i: RustInt)
      /** A float, carrying the text Rust's `Display` prints for it. */
    | Float(width: FloatWidth, shown: string)
    | Char(c: char)
    | Str(s: string)
      /** A raw byte array (`serialize_bytes`). */
    | ByteArray(raw: bytes)
      /** Rust's `None`. */
    | Absent
      /** Rust's `Some(inner)`. */
    | Present(inner: Value)
    | Unit
    | UnitStruct(name: string)
    | UnitVariant(name: string, variant: string)
    | NewtypeStruct(name: string, inner: Value)
    | NewtypeVariant(name: string, variant: string, inner: Value)
    | Seq(items: seq<Value>)
    | Tuple(items: seq<Value>)
    | TupleStruct(name: string, items: seq<Value>)
    | TupleVariant(name: string, variant: string, items: seq<Value>)
      /** A map, as its entries in the map's own iteration order. */
    | Map(entries: seq<Entry>)
      /** A struct, as its fields in declaration order. */
    | Struct(name: string, fields: seq<Field>)
    | StructVariant(name: string, variant: string, fields: seq<Field>)
      /** A value whose own serialization logic reports an error through
          `ser::Error::custom(message)`. */
    | Rejecting(message: string)

  datatype Entry = Entry(key: Value, value: Value)

  /** A struct field as the struct's serializer presents it: written, or
      skipped (`skip_field`). */
  datatype Field =
    | Field(name: string, value: Value)
    | Skipped(name: string)
}
