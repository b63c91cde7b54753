# Bencode value encoder

A model of the serde-based bencode encoder of the `bencode` crate
(`src/encoder.rs`). The crate turns a Rust value into bencoding, the format of
the "bencoding" section of BEP 3 (The BitTorrent Protocol Specification):
integers `i<n>e`, strings `<length>:<bytes>`, lists `l...e` and dictionaries
`d...e`.

The encoder has four parts, and each one is modelled:

- **The value dispatcher** (`impl Serializer for &Encoder`). It picks the
  framing from the value's shape.
- **The key encoder** (`impl Serializer for &KeyEncoder`). It writes map keys
  as raw text and refuses composite keys.
- **The dictionary encoder** (`DictEncoder`). It writes structs and maps as
  `d...e`.
- **The list encoder** (`ListEncoder`). It writes sequences as `l...e`.

Modules:

- `Bytes`. Bytes, the UTF-8 encoding of Rust strings, and the decimal text
  that `format!("{}", n)` prints for an integer.
- `Errors`. `EncoderError` (`FloatNotSupported`, `NotSupported`,
  `Custom(message)`) and the result type.
  - A failure is either a returned `Error(e)` or `Unimplemented`.
  - `Unimplemented` stands for the `todo!()` placeholders. These panic
    instead of returning.
- `Values`. A closed datatype of the value shapes that serde presents to a
  serializer. In the source a value picks one `serialize_*` method; here it
  is a constructor.
  - Maps are sequences of entries in their iteration order.
  - Structs are sequences of fields in declaration order.
  - A field can be `Skipped`, which reaches `skip_field`.
  - `Rejecting(message)` is a value whose own serialization reports
    `ser::Error::custom(message)`.
- `Encoder`. The dispatcher, the key encoder and the composite encoders as
  pure functions. Each returns the text that the source appends for one value.
- `Session`. The same operations with the buffer threaded through them:
  - `ExtendBuffer` is `Encoder::extend_buffer`.
  - `ListNew`/`ListEnd` and `DictNew`/`EndDict` open and close frames.
  - `SerializeField` is `add_field` (or `skip_field`).
  - `SerializeEntry` is `serialize_key` followed by `serialize_value`.
  - `ToString` is `to_string`.

  Lemmas prove that the threaded form and the pure form agree.
- `Properties`. Statements against definitions that do not follow the
  encoder's control flow:
  - which values encode at all;
  - which values produce no text;
  - how a composite's text is laid out from its parts;
  - how errors travel outward;
  - how key text relates to value text.
- `Bencode` and `RoundTrip`. A reader for BEP 3 bencoding, used as an
  independent reference, and what it makes of the encoder's output:
  - It reads back the text of booleans, integers, ASCII chars, strings,
    `None`, `Some` of such a value, `()`, unit structs, unit variants, and
    sequences of these.
  - Keys are written raw. The reader refuses a dictionary whose first key
    text starts with neither a digit nor `e`, and misreads one whose key
    text looks like a bencode string.
  - Raw keys make two different structs produce the same text.
- `ExampleTexts` and `Examples`. The outputs expected by the crate's unit
  tests, proved of `ToString`.

Three unfinished places in the code are modelled as written:

- **Unimplemented shapes.** Tuples, newtypes, struct variants and
  `skip_field` end in `todo!()`. The model gives them the outcome
  `Unimplemented`, which is distinct from a returned `NotSupported`.
- **Byte-array keys.** The key encoder refuses a byte array with
  `NotSupported`.
- **`serialize_tuple`** writes `l` before its `todo!()`. That buffer is
  abandoned when the session panics, so the model does not represent it.

## Model

| member | source | states |
|---|---|---|
| Encoder.Encode | src/encoder.rs:33-219 | the value dispatcher as a pure function. Its text is what the buffer-threading form appends (`Session.SerializeIsEncode`). It succeeds exactly on the shapes `Properties.EncodeSucceedsIff` names, and its text opens with a type tag (`Properties.EncodeOpensWithTag`) |
| Encoder.EncodeKey | src/encoder.rs:234-414 | the key encoder as a pure function. It agrees with the threaded form (`Session.SerializeKeyIsEncodeKey`). It succeeds exactly on scalar keys (`Properties.KeySucceedsIff`), and it answers `NotSupported` exactly for byte arrays and composite shapes (`Properties.KeyNotSupportedIff`); newtype keys are unimplemented and a `Rejecting` key fails with `Custom` |
| Encoder.EncodeItems | src/encoder.rs:503-509 | a list body: the element texts concatenated in order (`Properties.ItemsAreConcat`, `Properties.ItemsAppend`), and the first failing element's failure otherwise (`Properties.ItemFailurePropagates`) |
| Encoder.EncodeEntries | src/encoder.rs:465-487 | a map body: the entry texts concatenated in iteration order (`Properties.EntriesAreConcat`, `Properties.EntriesAppend`), and the first failure otherwise (`Properties.EntryFailurePropagates`) |
| Encoder.EncodeEntry | src/encoder.rs:468-482 | one entry: the key encoder's text, then the dispatcher's text for the value (`Session.SerializeEntryIsEncodeEntry`); keys are written without the framing their values get (`Properties.StringKeyIsUnframed`, `Properties.IntegerKeyIsUnframed`) |
| Encoder.EncodeFields | src/encoder.rs:444-462 | a struct body: the field texts concatenated in declaration order (`Properties.FieldsAreConcat`, `Properties.FieldsAppend`), and the first failing or skipped field's failure otherwise (`Properties.FieldFailurePropagates`) |
| Encoder.EncodeField | src/encoder.rs:430-436 | one field: the raw name, then the value's text; a skipped field is unimplemented (`Session.SerializeFieldIsEncodeField`) |
| Session.ExtendBuffer | src/encoder.rs:12-15 | appending keeps everything already written as a prefix and adds exactly the given text after it |
| Session.ListNew | src/encoder.rs:494-495 | `ListEncoder::new` keeps the buffer as a prefix and appends exactly one `l` |
| Session.ListEnd | src/encoder.rs:511-513 | the list's `end` keeps the buffer as a prefix and appends exactly one `e` |
| Session.DictNew | src/encoder.rs:422-423 | `DictEncoder::new` keeps the buffer as a prefix and appends exactly one `d` |
| Session.EndDict | src/encoder.rs:438-441 | `end_dict` keeps the buffer as a prefix and appends exactly one `e` |
| Session.Serialize | src/encoder.rs:33-219 | the buffer is append-only: when the value dispatcher succeeds, the text written before it is a prefix of the result |
| Session.SerializeElements | src/encoder.rs:503-509 | serializing list elements one after another never rewrites earlier output |
| Session.SerializeEntries | src/encoder.rs:465-487 | serializing map entries one after another never rewrites earlier output |
| Session.SerializeEntry | src/encoder.rs:468-482 | a key followed by its value only appends to the buffer |
| Session.SerializeFields | src/encoder.rs:444-457 | serializing struct fields one after another never rewrites earlier output |
| Session.SerializeField | src/encoder.rs:430-436 | a field name followed by its value only appends to the buffer |
| Session.SerializeKey | src/encoder.rs:234-414 | the key encoder only appends to the buffer |
| Session.ToString | src/encoder.rs:26-31 | `to_string` returns exactly the dispatcher's text for the value, or its failure instead of any partial text |
| Session.SerializeIsEncode | src/encoder.rs:33-219 | serializing into any buffer appends exactly the value's encoding, and a failure is the same failure whatever the buffer holds |
| Session.SerializeScalarIsEncode | src/encoder.rs:54-178 | each non-composite shape appends its encoding to any buffer, or fails with the encoding's failure |
| Session.SerializeListIsEncode | src/encoder.rs:180-182 | `ListEncoder::new`, the elements, then `end` append `l`, the body and `e` as one text |
| Session.SerializeMapIsEncode | src/encoder.rs:207-209 | `DictEncoder::new`, the entries, then `end` append `d`, the body and `e` as one text |
| Session.SerializeStructIsEncode | src/encoder.rs:211-218 | a struct goes through the dictionary encoder and appends its `d...e` text |
| Session.SerializeElementsIsEncodeItems | src/encoder.rs:503-509 | threading the buffer through the elements appends the concatenated element texts, and the first failure ends the list |
| Session.SerializeEntriesIsEncodeEntries | src/encoder.rs:465-487 | threading the buffer through the entries appends the concatenated entry texts, and the first failure ends the map |
| Session.SerializeEntryIsEncodeEntry | src/encoder.rs:468-482 | `serialize_key` then `serialize_value` append the key encoder's text followed by the dispatcher's text |
| Session.SerializeFieldsIsEncodeFields | src/encoder.rs:444-462 | threading the buffer through the fields appends the concatenated field texts, and the first failure ends the struct |
| Session.SerializeFieldIsEncodeField | src/encoder.rs:430-436 | `add_field` appends the raw name and then the value's text, and `skip_field` is unimplemented |
| Session.SerializeKeyIsEncodeKey | src/encoder.rs:246-413 | serializing a key into any buffer appends exactly the key encoder's text, or fails with its failure |
| Properties.EncodeSucceedsIff | src/encoder.rs:33-219 | the dispatcher succeeds exactly when every nested value has a supported shape for its position (value or key) |
| Properties.ItemsSucceedIff | src/encoder.rs:503-509 | a list body encodes exactly when every element is encodable |
| Properties.EntriesSucceedIff | src/encoder.rs:465-482 | a map body encodes exactly when every key is a scalar and every value is encodable |
| Properties.FieldsSucceedIff | src/encoder.rs:444-462 | a struct body encodes exactly when no field is skipped and every field value is encodable |
| Properties.KeySucceedsIff | src/encoder.rs:246-413 | the key encoder succeeds exactly on scalar keys (booleans, integers, floats, chars, strings, none, unit, unit structs and unit variants, under any number of `Some`) |
| Properties.KeyNotSupportedIff | src/encoder.rs:246-413 | the key encoder answers `NotSupported` exactly for byte arrays and composite shapes, possibly under `Some` |
| Properties.EncodeEmptyIff | src/encoder.rs:125-138 | exactly `None`, `()` and `Some` of these produce no text |
| Properties.RejectedScalars | src/encoder.rs:101-123 | a float at the top of a value position fails with `FloatNotSupported`, and a byte array there with `NotSupported`; as map keys floats are written (`KeySucceedsIff`), and inside a composite the first failing element decides the error (`ItemFailurePropagates`) |
| Properties.EncodeOpensWithTag | src/encoder.rs:33-219 | every non-empty text the dispatcher writes starts with a bencode type tag: `i`, `l`, `d`, or a digit of a string's length |
| Properties.ItemsAppend | src/encoder.rs:503-509 | the elements of `a + b` encode to the text of `a` followed by that of `b`, and the first failure wins |
| Properties.EntriesAppend | src/encoder.rs:465-482 | map entries keep their iteration order: the entries of `a + b` encode to the text of `a` followed by that of `b` |
| Properties.FieldsAppend | src/encoder.rs:444-453 | struct fields keep declaration order: the fields of `a + b` encode to the text of `a` followed by that of `b` |
| Properties.ListLayout | src/encoder.rs:494-515 | a list is `l`, then the element texts in order, then `e`, so an empty list is `le` |
| Properties.ItemsAreConcat | src/encoder.rs:503-509 | a list body is the concatenation of its element texts |
| Properties.StructLayout | src/encoder.rs:416-457 | a struct is `d`, then each raw field name followed by its value text in declaration order, then `e` |
| Properties.FieldsAreConcat | src/encoder.rs:430-436 | a struct body is the concatenation of name-plus-value texts |
| Properties.MapLayout | src/encoder.rs:465-487 | a map is `d`, then each key-encoder text followed by its value text in iteration order, then `e` |
| Properties.EntriesAreConcat | src/encoder.rs:468-482 | a map body is the concatenation of key-plus-value texts |
| Properties.ItemFailurePropagates | src/encoder.rs:503-509 | the first failing element's failure is the whole list's failure, unchanged |
| Properties.FieldFailurePropagates | src/encoder.rs:444-462 | the first failing or skipped field decides the struct's failure, unchanged |
| Properties.EntryFailurePropagates | src/encoder.rs:465-482 | the first failing key, or failing value after a good key, decides the map's failure, unchanged |
| Properties.StringKeyIsUnframed | src/encoder.rs:109-160 | for strings, unit structs, unit variants and ASCII chars, the value text is the key text behind a byte-length prefix |
| Properties.IntegerKeyIsUnframed | src/encoder.rs:54-99 | an integer value is its key text inside `i...e`, while booleans are `i1e`/`i0e` as values and `true`/`false` as keys |
| Properties.SomeIsTransparent | src/encoder.rs:131-133 | any number of `Some` layers leaves both the dispatcher's and the key encoder's text unchanged |
| Bytes.NatDigits | src/encoder.rs:61-99 | the decimal text of a natural number is non-empty, all digits, and starts with `0` exactly when the number is zero (so no leading zeros) |
| Bytes.Decimal | src/encoder.rs:61-99 | `{}` of a non-negative integer is canonical digits; of a negative one it is `-` then canonical digits not starting with `0`, so `-0` is never written |
| Bytes.DigitsValueOfNatDigits | src/encoder.rs:61-99 | the decimal digits written for a number read back as that number |
| Bytes.Utf8Char | src/encoder.rs:109-112 | a char's bytes are well-formed UTF-8: 1, 2, 3 or 4 bytes exactly for code points below 0x80, 0x800, 0x10000 and above; a single byte is the code point itself; the lead byte lies in 0xC2-0xDF, 0xE0-0xEF or 0xF0-0xF4 for 2, 3 or 4 bytes; every later byte is a continuation byte 0x80-0xBF |
| Bytes.Utf8CharDecodes | src/encoder.rs:109-112 | decoding a char's bytes by their UTF-8 payload bits gives back the char's code point |
| Bytes.Utf8Str | src/encoder.rs:114-117 | a string's bytes are its chars' UTF-8 encodings in order, at least one byte per char |
| Bytes.Utf8StrLength | src/encoder.rs:114-117 | the byte length that `s.len()` reports equals the number of chars exactly when every char is ASCII |
| Bytes.Utf8StrAppend | src/encoder.rs:153-158 | the bytes of `name` followed by those of `variant` are the bytes of the concatenated string |
| RoundTrip.IntegerReadsBack | src/encoder.rs:61-99 | a BEP 3 reader gets back every integer that `i{}e` wrote, with no leading zeros and no `-0`, and stops right after `e` |
| RoundTrip.StringReadsBack | src/encoder.rs:114-117 | a BEP 3 reader gets back the exact bytes of every string frame, because the prefix counts bytes |
| RoundTrip.EncodeThenParse | src/encoder.rs:33-219 | every value built only from booleans, integers, ASCII chars, strings, `None`, `Some` of such a value, `()`, unit structs, unit variants, and sequences of these encodes, and a BEP 3 reader reads its text back as the value it stands for |
| RoundTrip.ScalarThenParse | src/encoder.rs:54-160 | a BEP 3 reader reads each scalar's text back as its integer or string |
| RoundTrip.IntegerThenParse | src/encoder.rs:54-99 | booleans and integers read back as the integer they are written as, and reading stops right after the frame |
| RoundTrip.TextThenParse | src/encoder.rs:109-160 | ASCII chars, strings, unit structs and unit variants read back as the byte string they are written as |
| RoundTrip.CharThenParse | src/encoder.rs:109-112 | an ASCII char reads back as its one-byte string |
| RoundTrip.SeqThenParse | src/encoder.rs:180-182 | a list whose body reads back is read back as a list |
| RoundTrip.ItemsThenParse | src/encoder.rs:503-515 | the elements are read back in order up to the closing `e`, and zero-width elements leave no item |
| RoundTrip.EncodedTextParses | src/encoder.rs:26-31 | the complete output of such a value parses, with nothing left over, to what the value stands for |
| RoundTrip.EncodeInjectiveOnDecodable | src/encoder.rs:33-219 | two such values with the same text stand for the same bencode value |
| RoundTrip.CharMatchesStringIff | src/encoder.rs:109-117 | a char is written as the one-character string exactly when it is ASCII, because the `1:` prefix counts chars and the string prefix counts bytes |
| RoundTrip.NonAsciiCharMisread | src/encoder.rs:109-112 | for a non-ASCII char, a BEP 3 reader takes only its first UTF-8 byte as the string |
| RoundTrip.StructTextRefused | src/encoder.rs:430-436 | a struct whose first field name starts with neither a digit nor `e` (any Rust identifier not starting with `e`) is not bencoding, because the name is written raw |
| RoundTrip.MapTextRefused | src/encoder.rs:468-474 | a map whose first key text starts with neither a digit nor `e` is not bencoding |
| RoundTrip.MapKeyMisread | src/encoder.rs:468-474 | a key whose raw text looks like a bencode string is misread: `{"1:a": "b"}` is written as `d1:a1:be`, which a BEP 3 reader accepts as `{"a": "b"}` |
| RoundTrip.RawKeysAmbiguous | src/encoder.rs:430-436 | a field `a` holding `"b"` and a field `a1:b` holding `()` produce the same struct text |
| Examples.AsciiStringText | src/encoder.rs:114-117 | an ASCII string is written as its number of chars, a colon and its ASCII bytes |
| Examples.StringExample | src/lib.rs:10-12 | `"helloworld"` is written as `10:helloworld` |
| Examples.NumberExample | src/lib.rs:15-22 | ten, as i8, i16, i32, u8, u16 or u32, is written as `i10e` |
| Examples.VecExample | src/lib.rs:25-28 | the vector `[0, 1, 2, 3]` is written as `li0ei1ei2ei3ee` |
| Examples.MapExample | src/lib.rs:31-37 | the map `{"a": "ok", "b": "test"}` is written as `da2:okb4:teste` when `a` is iterated first, and as `db4:testa2:oke` otherwise |
| Examples.StructExample | src/lib.rs:40-50 | `Person { name: "john", surname: "doe" }` is written as `dname4:johnsurname3:doee` |

## Left out

- **serde plumbing.** The generic `Serialize`/`Serializer` traits, the
  `Impossible` associated types and the visitor callbacks are replaced by
  the closed `Value` datatype and recursive functions.
- **Ignored parameters.** `_variant_index` and `_len` are not modelled,
  because the source ignores them.
- **The buffer's representation.** The `RefCell<Option<String>>` buffer,
  `borrow_mut` and `take().unwrap()` become a byte sequence threaded through
  `Session`. Neither the borrow nor the unwrap can fail in the source.
- **Partial text after a failure.** The model does not represent what a failed
  step leaves in the buffer: in the source the `d` of `DictEncoder::new` and a
  written key stay there when the value fails. `to_string` discards that buffer
  through its `?`, so its result is unaffected.
- **`todo!()` paths.** These are newtype structs and variants, tuples,
  tuple structs and variants, struct variants and `skip_field`. Each is
  modelled as the single outcome `Unimplemented`, with no claim about
  output. The `l` that `serialize_tuple` writes before its `todo!()` is
  not represented.
- **Float formatting.** Rust's `Display` text for a float key cannot be
  computed here. A float value carries that text as data: the key encoder
  writes it, and the dispatcher refuses the float.
- **`HashMap` iteration order.** This order is not modelled. A map is its
  entries in iteration order, and no sortedness is claimed.
  `Examples.MapExample` proves the output for both orders of the test's map.
- **Error messages.** The `Display`, `std::error::Error` and
  `ser::Error::custom` implementations (`src/errors.rs:10-25`) are left
  out; only the enum is kept. A custom error enters through a `Rejecting`
  value.
- **Integer widths.** Each width is a range restriction on the integer
  (`RustInt`). `format!` prints the exact value, so nothing wraps around.
- RoundTrip.EncodeThenParse: covers only values built from booleans,
  integers, ASCII chars, strings, `None`, `Some`, `()`, unit structs, unit
  variants and sequences. Floats, byte arrays, `Rejecting` values and the
  unimplemented shapes produce no text at all. Maps, structs and non-ASCII
  chars produce text that is not their bencoding:
  - The encoder writes dictionary keys without a length prefix, so a BEP 3
    reader refuses or misreads their text. `StructTextRefused`,
    `MapTextRefused`, `MapKeyMisread` and `RawKeysAmbiguous` state this.
  - A non-ASCII char gets a `1:` prefix that counts chars, not bytes.
    `NonAsciiCharMisread` states this.
- **The reference reader** (`Bencode`) does not check that dictionary keys
  are sorted. It is used only to judge the encoder's output.
- **`ExampleTexts.Ascii`** maps characters outside ASCII to 0. None of the
  expected outputs contains one.
