/** The expected outputs of the repository's unit tests (src/lib.rs), stated
    of `to_string`. Each proof builds the text from the encodings of the
    parts, spelled out byte by byte. */
module Examples {
  import opened Bytes
  import opened Errors
  import opened Values
  import opened Encoder
  import opened Session
  import opened ExampleTexts

  /** A list body is its first element's text followed by the rest's. */
  lemma ItemsCons(x: Value, rest: seq<Value>, head: bytes, tail: bytes)
    requires Encode(x) == Ok(head) && EncodeItems(rest) == Ok(tail)
    ensures EncodeItems([x] + rest) == Ok(head + tail)
  {
    assert ([x] + rest)[0] == x && ([x] + rest)[1..] == rest;
  }

  /** A map body is the first entry's key and value text followed by the rest's. */
  lemma EntriesCons(k: Value, v: Value, rest: seq<Entry>, key: bytes, value: bytes, tail: bytes)
    requires EncodeKey(k) == Ok(key) && Encode(v) == Ok(value) && EncodeEntries(rest) == Ok(tail)
    ensures EncodeEntries([Entry(k, v)] + rest) == Ok(key + value + tail)
  {
    assert ([Entry(k, v)] + rest)[0] == Entry(k, v) && ([Entry(k, v)] + rest)[1..] == rest;
  }

  /** A struct body is the first field's name and value text followed by the rest's. */
  lemma FieldsCons(name: string, v: Value, rest: seq<Field>, text: bytes, tail: bytes)
    requires Encode(v) == Ok(text) && EncodeFields(rest) == Ok(tail)
    ensures EncodeFields([Field(name, v)] + rest) == Ok(Utf8Str(name) + text + tail)
  {
    assert ([Field(name, v)] + rest)[0] == Field(name, v) && ([Field(name, v)] + rest)[1..] == rest;
  }

  /** An ASCII string is written as its number of characters, a colon and
      its ASCII bytes: for the examples' strings the byte-level texts below
      are the tests' expected strings. */
  lemma AsciiStringText(s: string)
    requires forall i | 0 <= i < |s| :: s[i] as int < 0x80
    ensures ToString(Str(s)) == Ok(Decimal(|s|) + [COLON] + Ascii(s))
  {
    AsciiIsUtf8(s);
  }

  /** `"helloworld"` is written as `10:helloworld`. */
  lemma StringExample(hello: string)
    requires hello == "helloworld"
    ensures ToString(Str(hello)) == Ok(Ascii("10:helloworld"))
  {
    HelloworldText(hello);
    assert Decimal(10) == [49, 48];
    HelloworldFrameText();
  }

  /** Ten of every integer width the test exercises is written as `i10e`. */
  lemma NumberExample(w: IntWidth)
    requires w in {I8, I16, I32, U8, U16, U32}
    ensures ToString(Integer(Int(w, 10))) == Ok(Ascii("i10e"))
  {
    assert Decimal(10) == [49, 48];
    assert IntFrame(10) == [105, 49, 48, 101];
    assert Ascii("i10e") == [105, 49, 48, 101];
  }

  /** A two-element list body is the two element texts in order. */
  lemma TwoItems(x0: Value, x1: Value, t0: bytes, t1: bytes)
    requires Encode(x0) == Ok(t0) && Encode(x1) == Ok(t1)
    ensures EncodeItems([x0, x1]) == Ok(t0 + t1)
  {
    ItemsCons(x1, [], t1, []);
    assert [x1] + [] == [x1] && t1 + [] == t1;
    ItemsCons(x0, [x1], t0, t1);
    assert [x0] + [x1] == [x0, x1];
  }

  /** A three-element list body is the three element texts in order. */
  lemma ThreeItems(x0: Value, x1: Value, x2: Value, t0: bytes, t1: bytes, t2: bytes)
    requires Encode(x0) == Ok(t0) && Encode(x1) == Ok(t1) && Encode(x2) == Ok(t2)
    ensures EncodeItems([x0, x1, x2]) == Ok(t0 + (t1 + t2))
  {
    TwoItems(x1, x2, t1, t2);
    ItemsCons(x0, [x1, x2], t0, t1 + t2);
    assert [x0] + [x1, x2] == [x0, x1, x2];
  }

  /** A four-element list body is the four element texts in order. */
  lemma FourItems(x0: Value, x1: Value, x2: Value, x3: Value, t0: bytes, t1: bytes, t2: bytes, t3: bytes)
    requires Encode(x0) == Ok(t0) && Encode(x1) == Ok(t1) && Encode(x2) == Ok(t2) && Encode(x3) == Ok(t3)
    ensures EncodeItems([x0, x1, x2, x3]) == Ok(t0 + (t1 + (t2 + t3)))
  {
    ThreeItems(x1, x2, x3, t1, t2, t3);
    ItemsCons(x0, [x1, x2, x3], t0, t1 + (t2 + t3));
    assert [x0] + [x1, x2, x3] == [x0, x1, x2, x3];
  }

  /** The vector `[0, 1, 2, 3]` is written as `li0ei1ei2ei3ee`. */
  lemma VecExample()
    ensures ToString(Seq([Integer(Int(I32, 0)), Integer(Int(I32, 1)), Integer(Int(I32, 2)), Integer(Int(I32, 3))]))
         == Ok(Ascii("li0ei1ei2ei3ee"))
  {
    var x0, x1, x2, x3 := Integer(Int(I32, 0)), Integer(Int(I32, 1)), Integer(Int(I32, 2)), Integer(Int(I32, 3));
    assert Decimal(0) == [48] && Decimal(1) == [49] && Decimal(2) == [50] && Decimal(3) == [51];
    assert IntFrame(0) == [105, 48, 101] && IntFrame(1) == [105, 49, 101];
    assert IntFrame(2) == [105, 50, 101] && IntFrame(3) == [105, 51, 101];
    FourItems(x0, x1, x2, x3, [105, 48, 101], [105, 49, 101], [105, 50, 101], [105, 51, 101]);
    VecText();
  }

  /** A two-entry map body is each entry's key text then value text, in order. */
  lemma TwoEntries(a: Entry, b: Entry, ka: bytes, va: bytes, kb: bytes, vb: bytes)
    requires EncodeKey(a.key) == Ok(ka) && Encode(a.value) == Ok(va)
    requires EncodeKey(b.key) == Ok(kb) && Encode(b.value) == Ok(vb)
    ensures EncodeEntries([a, b]) == Ok(ka + va + (kb + vb + []))
  {
    EntriesCons(b.key, b.value, [], kb, vb, []);
    assert [b] + [] == [b];
    EntriesCons(a.key, a.value, [b], ka, va, kb + vb + []);
    assert [a] + [b] == [a, b];
  }

  /** The texts of the map example's keys and values. */
  lemma MapEntryTexts()
    ensures EncodeKey(Str("a")) == Ok([97]) && Encode(Str("ok")) == Ok([50, 58, 111, 107])
    ensures EncodeKey(Str("b")) == Ok([98]) && Encode(Str("test")) == Ok([52, 58, 116, 101, 115, 116])
  {
    AText();
    BText();
    OkText();
    TestText();
    assert Decimal(2) == [50] && Decimal(4) == [52];
    assert StrFrame([111, 107]) == [50, 58, 111, 107];
    assert StrFrame([116, 101, 115, 116]) == [52, 58, 116, 101, 115, 116];
  }

  /** The map `{"a": "ok", "b": "test"}` is written in its iteration order:
      `da2:okb4:teste` when `a` comes first (the order the test expects),
      `db4:testa2:oke` when `b` does. */
  lemma MapExample()
    ensures ToString(Map([Entry(Str("a"), Str("ok")), Entry(Str("b"), Str("test"))]))
         == Ok(Ascii("da2:okb4:teste"))
    ensures ToString(Map([Entry(Str("b"), Str("test")), Entry(Str("a"), Str("ok"))]))
         == Ok(Ascii("db4:testa2:oke"))
  {
    var a, b := Entry(Str("a"), Str("ok")), Entry(Str("b"), Str("test"));
    MapEntryTexts();
    TwoEntries(a, b, [97], [50, 58, 111, 107], [98], [52, 58, 116, 101, 115, 116]);
    TwoEntries(b, a, [98], [52, 58, 116, 101, 115, 116], [97], [50, 58, 111, 107]);
    MapTextAB();
    MapTextBA();
  }

  /** A two-field struct body is each raw field name then its value's text. */
  lemma TwoFields(first: Field, second: Field, t1: bytes, t2: bytes)
    requires first.Field? && second.Field?
    requires Encode(first.value) == Ok(t1) && Encode(second.value) == Ok(t2)
    ensures EncodeFields([first, second]) == Ok(Utf8Str(first.name) + t1 + (Utf8Str(second.name) + t2 + []))
  {
    FieldsCons(second.name, second.value, [], t2, []);
    assert [second] + [] == [second];
    FieldsCons(first.name, first.value, [second], t1, Utf8Str(second.name) + t2 + []);
    assert [first] + [second] == [first, second];
  }

  /** The texts of the person example's two field values. */
  lemma PersonValueTexts()
    ensures Encode(Str("john")) == Ok([52, 58, 106, 111, 104, 110])
    ensures Encode(Str("doe")) == Ok([51, 58, 100, 111, 101])
  {
    JohnText();
    DoeText();
    assert Decimal(4) == [52] && Decimal(3) == [51];
    assert StrFrame([106, 111, 104, 110]) == [52, 58, 106, 111, 104, 110];
    assert StrFrame([100, 111, 101]) == [51, 58, 100, 111, 101];
  }

  /** `Person { name: "john", surname: "doe" }` is written as
      `dname4:johnsurname3:doee`: raw field names, values as strings. */
  lemma StructExample(person: Value)
    requires person == Struct("Person", [Field("name", Str("john")), Field("surname", Str("doe"))])
    ensures ToString(person) == Ok(Ascii("dname4:johnsurname3:doee"))
  {
    var body: bytes := [110, 97, 109, 101] + [52, 58, 106, 111, 104, 110] + ([115, 117, 114, 110, 97, 109, 101] + [51, 58, 100, 111, 101] + []);
    PersonFieldsText();
    assert Encode(person) == Ok([LOWER_D] + body + [LOWER_E]);
    PersonText();
  }

  /** The person's struct body: each raw field name, then its value's text. */
  lemma PersonFieldsText()
    ensures EncodeFields([Field("name", Str("john")), Field("surname", Str("doe"))])
         == Ok([110, 97, 109, 101] + [52, 58, 106, 111, 104, 110] + ([115, 117, 114, 110, 97, 109, 101] + [51, 58, 100, 111, 101] + []))
  {
    var first, second := Field("name", Str("john")), Field("surname", Str("doe"));
    PersonValueTexts();
    NameText();
    SurnameText();
    TwoFields(first, second, [52, 58, 106, 111, 104, 110], [51, 58, 100, 111, 101]);
  }
}
