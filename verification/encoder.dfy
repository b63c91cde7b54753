/** The encoder as pure functions: the value dispatcher (`impl Serializer for
    &Encoder`), the key encoder (`impl Serializer for &KeyEncoder`), and the
    list and dictionary encoders they hand composites to. Each function
    returns the text the source appends to its buffer for one value; the
    buffer itself is modelled in module Session. */
module Encoder {
  import opened Bytes
  import opened Errors
  import opened Values

  /** The bencode string framing `<length>:<text>`, length in bytes. */
  function StrFrame(text: bytes): bytes {
    Decimal(|text|) + [COLON] + text
  }

  /** The bencode integer framing `i<decimal>e`. */
  function IntFrame(n: int): bytes {
    [LOWER_I] + Decimal(n) + [LOWER_E]
  }

  /** The text `format!("{}", b)` prints for a boolean. */
  function BoolText(b: bool): bytes {
    if b then Utf8Str("true") else Utf8Str("false")
  }

  /** The first byte of a bencoded value: an integer, list or dictionary
      marker, or a digit of a string's length. */
  predicate TagByte(b: byte) {
    b == LOWER_I || b == LOWER_L || b == LOWER_D || IsDigit(b)
  }

  /** The value dispatcher: the text written for `v` in value position. */
  function Encode(v: Value): Result<bytes>
    decreases v
  {
    match v
    case Bool(b) => Ok(IntFrame(if b then 1 else 0))
    case Integer(i) => Ok(IntFrame(i.n))
    case Float(_, _) => Fail(Error(FloatNotSupported))
    case Char(c) => Ok(Decimal(1) + [COLON] + Utf8Char(c))
    case Str(s) => Ok(StrFrame(Utf8Str(s)))
    case ByteArray(_) => Fail(Error(NotSupported))
    case Absent => Ok([])
    case Present(inner) => Encode(inner)
    case Unit => Ok([])
    case UnitStruct(name) => Ok(StrFrame(Utf8Str(name)))
    case UnitVariant(name, variant) =>
      Ok(Decimal(|Utf8Str(name)| + |Utf8Str(variant)|) + [COLON] + Utf8Str(name) + Utf8Str(variant))
    case NewtypeStruct(_, _) => Fail(Unimplemented)
    case NewtypeVariant(_, _, _) => Fail(Unimplemented)
    case Seq(items) =>
      var body :- EncodeItems(items);
      Ok([LOWER_L] + body + [LOWER_E])
    case Tuple(_) => Fail(Unimplemented)
    case TupleStruct(_, _) => Fail(Unimplemented)
    case TupleVariant(_, _, _) => Fail(Unimplemented)
    case Map(entries) =>
      var body :- EncodeEntries(entries);
      Ok([LOWER_D] + body + [LOWER_E])
    case Struct(_, fields) =>
      var body :- EncodeFields(fields);
      Ok([LOWER_D] + body + [LOWER_E])
    case StructVariant(_, _, _) => Fail(Unimplemented)
    case Rejecting(message) => Fail(Error(Custom(message)))
  }

  /** The list encoder's elements, each through the value dispatcher, in
      order; the first failure ends the list. */
  function EncodeItems(items: seq<Value>): Result<bytes>
    decreases items
  {
    if |items| == 0 then Ok([])
    else
      var head :- Encode(items[0]);
      var tail :- EncodeItems(items[1..]);
      Ok(head + tail)
  }

  /** A map's entries, entry after entry, in the map's iteration order. */
  function EncodeEntries(entries: seq<Entry>): Result<bytes>
    decreases entries
  {
    if |entries| == 0 then Ok([])
    else
      var head :- EncodeEntry(entries[0]);
      var tail :- EncodeEntries(entries[1..]);
      Ok(head + tail)
  }

  /** One map entry (`serialize_key`, then `serialize_value`): the key through
      the key encoder, then the value through the value dispatcher. */
  function EncodeEntry(entry: Entry): Result<bytes>
    decreases entry
  {
    var key :- EncodeKey(entry.key);
    var value :- Encode(entry.value);
    Ok(key + value)
  }

  /** A struct's fields: the raw field name, then the value through the
      value dispatcher. A skipped field reaches `skip_field`, a `todo!()`. */
  function EncodeFields(fields: seq<Field>): Result<bytes>
    decreases fields
  {
    if |fields| == 0 then Ok([])
    else
      var head :- EncodeField(fields[0]);
      var tail :- EncodeFields(fields[1..]);
      Ok(head + tail)
  }

  /** One struct field (`DictEncoder::add_field`): the raw name, then the
      value; a skipped field (`skip_field`) is a `todo!()`. */
  function EncodeField(field: Field): Result<bytes>
    decreases field
  {
    match field
    case Skipped(_) => Fail(Unimplemented)
    case Field(name, value) =>
      var text :- Encode(value);
      Ok(Utf8Str(name) + text)
  }

  /** The key encoder: scalars as raw text without a length prefix;
      composite shapes and byte arrays are refused. */
  function EncodeKey(k: Value): Result<bytes>
    decreases k
  {
    match k
    case Bool(b) => Ok(BoolText(b))
    case Integer(i) => Ok(Decimal(i.n))
    case Float(_, shown) => Ok(Utf8Str(shown))
    case Char(c) => Ok(Utf8Char(c))
    case Str(s) => Ok(Utf8Str(s))
    case ByteArray(_) => Fail(Error(NotSupported))
    case Absent => Ok([])
    case Present(inner) => EncodeKey(inner)
    case Unit => Ok([])
    case UnitStruct(name) => Ok(Utf8Str(name))
    case UnitVariant(name, variant) => Ok(Utf8Str(name) + Utf8Str(variant))
    case NewtypeStruct(_, _) => Fail(Unimplemented)
    case NewtypeVariant(_, _, _) => Fail(Unimplemented)
    case Seq(_) => Fail(Error(NotSupported))
    case Tuple(_) => Fail(Error(NotSupported))
    case TupleStruct(_, _) => Fail(Error(NotSupported))
    case TupleVariant(_, _, _) => Fail(Error(NotSupported))
    case Map(_) => Fail(Error(NotSupported))
    case Struct(_, _) => Fail(Error(NotSupported))
    case StructVariant(_, _, _) => Fail(Error(NotSupported))
    case Rejecting(message) => Fail(Error(Custom(message)))
  }
}
