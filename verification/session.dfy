/** The encoder as the source runs it: one append-only buffer threaded through
    every step (`Encoder::extend_buffer`), the list and dictionary encoders as
    open / element / close steps on that buffer, and `to_string`, which runs a
    session from an empty buffer and hands back its contents. The lemmas here
    show that this agrees with the pure functions of module Encoder. */
module Session {
  import opened Bytes
  import opened Errors
  import opened Values
  import opened Encoder

  /** The encoding session's output so far. */
  type Buffer = bytes

  /** `Encoder::extend_buffer`: append text; nothing already written changes. */
  function ExtendBuffer(buf: Buffer, s: bytes): (r: Buffer)
    ensures |r| == |buf| + |s|
    ensures r[..|buf|] == buf && r[|buf|..] == s
  {
    buf + s
  }

  /** `ListEncoder::new` opens the list frame. */
  function ListNew(buf: Buffer): (r: Buffer)
    ensures |r| == |buf| + 1 && r[..|buf|] == buf && r[|buf|] == LOWER_L
  {
    ExtendBuffer(buf, [LOWER_L])
  }

  /** `SerializeSeq::end` for `ListEncoder` closes the list frame. */
  function ListEnd(buf: Buffer): (r: Buffer)
    ensures |r| == |buf| + 1 && r[..|buf|] == buf && r[|buf|] == LOWER_E
  {
    ExtendBuffer(buf, [LOWER_E])
  }

  /** `DictEncoder::new` opens the dictionary frame. */
  function DictNew(buf: Buffer): (r: Buffer)
    ensures |r| == |buf| + 1 && r[..|buf|] == buf && r[|buf|] == LOWER_D
  {
    ExtendBuffer(buf, [LOWER_D])
  }

  /** `DictEncoder::end_dict` closes the dictionary frame. */
  function EndDict(buf: Buffer): (r: Buffer)
    ensures |r| == |buf| + 1 && r[..|buf|] == buf && r[|buf|] == LOWER_E
  {
    ExtendBuffer(buf, [LOWER_E])
  }

  /** `impl Serializer for &Encoder`: serialize `v` into the session whose
      buffer holds `buf`. A failure carries no buffer: the text a failed
      step leaves behind is not represented, since `to_string` discards it. */
  function Serialize(buf: Buffer, v: Value): (r: Result<Buffer>)
    ensures r.Ok? ==> buf <= r.value
    decreases v
  {
    match v
    case Bool(b) => Ok(ExtendBuffer(buf, IntFrame(if b then 1 else 0)))
    case Integer(i) => Ok(ExtendBuffer(buf, IntFrame(i.n)))
    case Float(_, _) => Fail(Error(FloatNotSupported))
    case Char(c) => Ok(ExtendBuffer(buf, Decimal(1) + [COLON] + Utf8Char(c)))
    case Str(s) => Ok(ExtendBuffer(buf, StrFrame(Utf8Str(s))))
    case ByteArray(_) => Fail(Error(NotSupported))
    case Absent => Ok(buf)
    case Present(inner) => Serialize(buf, inner)
    case Unit => Ok(buf)
    case UnitStruct(name) => Ok(ExtendBuffer(buf, StrFrame(Utf8Str(name))))
    case UnitVariant(name, variant) =>
      Ok(ExtendBuffer(buf, Decimal(|Utf8Str(name)| + |Utf8Str(variant)|) + [COLON] + Utf8Str(name) + Utf8Str(variant)))
    case NewtypeStruct(_, _) => Fail(Unimplemented)
    case NewtypeVariant(_, _, _) => Fail(Unimplemented)
    case Seq(items) =>
      var full :- SerializeElements(ListNew(buf), items);
      Ok(ListEnd(full))
    // serialize_tuple writes the opening "l" before its todo!(); the
    // panicking session's buffer is never read
    case Tuple(_) => Fail(Unimplemented)
    case TupleStruct(_, _) => Fail(Unimplemented)
    case TupleVariant(_, _, _) => Fail(Unimplemented)
    case Map(entries) =>
      var full :- SerializeEntries(DictNew(buf), entries);
      Ok(EndDict(full))
    case Struct(_, fields) =>
      var full :- SerializeFields(DictNew(buf), fields);
      Ok(EndDict(full))
    case StructVariant(_, _, _) => Fail(Unimplemented)
    case Rejecting(message) => Fail(Error(Custom(message)))
  }

  /** `SerializeSeq::serialize_element` for each element in turn. */
  function SerializeElements(buf: Buffer, items: seq<Value>): (r: Result<Buffer>)
    ensures r.Ok? ==> buf <= r.value
    decreases items
  {
    if |items| == 0 then Ok(buf)
    else
      var next :- Serialize(buf, items[0]);
      SerializeElements(next, items[1..])
  }

  /** Each entry of a map in turn. */
  function SerializeEntries(buf: Buffer, entries: seq<Entry>): (r: Result<Buffer>)
    ensures r.Ok? ==> buf <= r.value
    decreases entries
  {
    if |entries| == 0 then Ok(buf)
    else
      var next :- SerializeEntry(buf, entries[0]);
      SerializeEntries(next, entries[1..])
  }

  /** `SerializeMap::serialize_key` then `serialize_value` for one entry. */
  function SerializeEntry(buf: Buffer, entry: Entry): (r: Result<Buffer>)
    ensures r.Ok? ==> buf <= r.value
    decreases entry
  {
    var afterKey :- SerializeKey(buf, entry.key);
    Serialize(afterKey, entry.value)
  }

  /** `SerializeStruct::serialize_field` (`DictEncoder::add_field`) for each
      field; a skipped field reaches `skip_field`. */
  function SerializeFields(buf: Buffer, fields: seq<Field>): (r: Result<Buffer>)
    ensures r.Ok? ==> buf <= r.value
    decreases fields
  {
    if |fields| == 0 then Ok(buf)
    else
      var next :- SerializeField(buf, fields[0]);
      SerializeFields(next, fields[1..])
  }

  /** `DictEncoder::add_field` for one field, or `skip_field` for a skipped one. */
  function SerializeField(buf: Buffer, field: Field): (r: Result<Buffer>)
    ensures r.Ok? ==> buf <= r.value
    decreases field
  {
    match field
    case Skipped(_) => Fail(Unimplemented)
    case Field(name, value) => Serialize(ExtendBuffer(buf, Utf8Str(name)), value)
  }

  /** `impl Serializer for &KeyEncoder`: serialize a map key into the session. */
  function SerializeKey(buf: Buffer, k: Value): (r: Result<Buffer>)
    ensures r.Ok? ==> buf <= r.value
    decreases k
  {
    match k
    case Bool(b) => Ok(ExtendBuffer(buf, BoolText(b)))
    case Integer(i) => Ok(ExtendBuffer(buf, Decimal(i.n)))
    case Float(_, shown) => Ok(ExtendBuffer(buf, Utf8Str(shown)))
    case Char(c) => Ok(ExtendBuffer(buf, Utf8Char(c)))
    case Str(s) => Ok(ExtendBuffer(buf, Utf8Str(s)))
    case Absent => Ok(buf)
    case Present(inner) => SerializeKey(buf, inner)
    case Unit => Ok(buf)
    case UnitStruct(name) => Ok(ExtendBuffer(buf, Utf8Str(name)))
    case UnitVariant(name, variant) => Ok(ExtendBuffer(buf, Utf8Str(name) + Utf8Str(variant)))
    case NewtypeStruct(_, _) => Fail(Unimplemented)
    case NewtypeVariant(_, _, _) => Fail(Unimplemented)
    case Rejecting(message) => Fail(Error(Custom(message)))
    case _ => Fail(Error(NotSupported))
  }

  /** `to_string`: serialize into a fresh session and take its buffer. The
      result is exactly what the value dispatcher writes for `v`, and a
      failure is returned instead of any partial text. */
  function ToString(v: Value): (r: Result<bytes>)
    ensures r == Encode(v)
  {
    SerializeIsEncode([], v);
    assert Encode(v).Ok? ==> [] + Encode(v).value == Encode(v).value;
    var buf :- Serialize([], v);
    Ok(buf)
  }

  /** Serializing into a buffer appends exactly what Encode produces, whatever
      the buffer already holds; on failure both report the same failure. */
  lemma {:induction false} SerializeIsEncode(buf: Buffer, v: Value)
    ensures Encode(v).Ok? ==> Serialize(buf, v) == Ok(buf + Encode(v).value)
    ensures Encode(v).Fail? ==> Serialize(buf, v) == Fail(Encode(v).failure)
    decreases v, 1
  {
    match v
    case Present(inner) => SerializeIsEncode(buf, inner);
    case Seq(items) => SerializeListIsEncode(buf, items);
    case Map(entries) => SerializeMapIsEncode(buf, entries);
    case Struct(name, fields) => SerializeStructIsEncode(buf, name, fields);
    case _ => SerializeScalarIsEncode(buf, v);
  }

  /** Opening a frame, writing its body and closing it appends the framed text. */
  lemma FrameAppend(buf: Buffer, open: byte, body: bytes)
    ensures buf + [open] + body + [LOWER_E] == buf + ([open] + body + [LOWER_E])
  {
  }

  /** The cases that append one piece of text, or fail, without recursion. */
  lemma SerializeScalarIsEncode(buf: Buffer, v: Value)
    requires !v.Present? && !v.Seq? && !v.Map? && !v.Struct?
    ensures Encode(v).Ok? ==> Serialize(buf, v) == Ok(buf + Encode(v).value)
    ensures Encode(v).Fail? ==> Serialize(buf, v) == Fail(Encode(v).failure)
  {
    assert buf + [] == buf;
  }

  lemma {:induction false} SerializeListIsEncode(buf: Buffer, items: seq<Value>)
    ensures Encode(Seq(items)).Ok? ==> Serialize(buf, Seq(items)) == Ok(buf + Encode(Seq(items)).value)
    ensures Encode(Seq(items)).Fail? ==> Serialize(buf, Seq(items)) == Fail(Encode(Seq(items)).failure)
    decreases Seq(items), 0
  {
    SerializeElementsIsEncodeItems(ListNew(buf), items);
    if EncodeItems(items).Ok? {
      var body := EncodeItems(items).value;
      assert Encode(Seq(items)) == Ok([LOWER_L] + body + [LOWER_E]);
      assert Serialize(buf, Seq(items)) == Ok(ListEnd(ListNew(buf) + body));
      FrameAppend(buf, LOWER_L, body);
    } else {
      assert Encode(Seq(items)) == Fail(EncodeItems(items).failure);
    }
  }

  lemma {:induction false} SerializeMapIsEncode(buf: Buffer, entries: seq<Entry>)
    ensures Encode(Map(entries)).Ok? ==> Serialize(buf, Map(entries)) == Ok(buf + Encode(Map(entries)).value)
    ensures Encode(Map(entries)).Fail? ==> Serialize(buf, Map(entries)) == Fail(Encode(Map(entries)).failure)
    decreases Map(entries), 0
  {
    SerializeEntriesIsEncodeEntries(DictNew(buf), entries);
    if EncodeEntries(entries).Ok? {
      var body := EncodeEntries(entries).value;
      assert Encode(Map(entries)) == Ok([LOWER_D] + body + [LOWER_E]);
      assert Serialize(buf, Map(entries)) == Ok(EndDict(DictNew(buf) + body));
      FrameAppend(buf, LOWER_D, body);
    } else {
      assert Encode(Map(entries)) == Fail(EncodeEntries(entries).failure);
    }
  }

  lemma {:induction false} SerializeStructIsEncode(buf: Buffer, name: string, fields: seq<Field>)
    ensures Encode(Struct(name, fields)).Ok? ==> Serialize(buf, Struct(name, fields)) == Ok(buf + Encode(Struct(name, fields)).value)
    ensures Encode(Struct(name, fields)).Fail? ==> Serialize(buf, Struct(name, fields)) == Fail(Encode(Struct(name, fields)).failure)
    decreases Struct(name, fields), 0
  {
    SerializeFieldsIsEncodeFields(DictNew(buf), fields);
    if EncodeFields(fields).Ok? {
      var body := EncodeFields(fields).value;
      assert Encode(Struct(name, fields)) == Ok([LOWER_D] + body + [LOWER_E]);
      assert Serialize(buf, Struct(name, fields)) == Ok(EndDict(DictNew(buf) + body));
      FrameAppend(buf, LOWER_D, body);
    } else {
      assert Encode(Struct(name, fields)) == Fail(EncodeFields(fields).failure);
    }
  }

  lemma {:induction false} SerializeElementsIsEncodeItems(buf: Buffer, items: seq<Value>)
    ensures EncodeItems(items).Ok? ==> SerializeElements(buf, items) == Ok(buf + EncodeItems(items).value)
    ensures EncodeItems(items).Fail? ==> SerializeElements(buf, items) == Fail(EncodeItems(items).failure)
    decreases items
  {
    if |items| == 0 {
      assert buf + [] == buf;
    } else {
      SerializeIsEncode(buf, items[0]);
      if Encode(items[0]).Ok? {
        var head := Encode(items[0]).value;
        SerializeElementsCons(buf, items, buf + head);
        EncodeItemsCons(items, head);
        SerializeElementsIsEncodeItems(buf + head, items[1..]);
        AppendStep(buf, head, SerializeElements(buf + head, items[1..]), EncodeItems(items[1..]));
      } else {
        ElementsStepFail(buf, items);
      }
    }
  }

  /** One step of the session through an element that succeeds. */
  lemma SerializeElementsCons(buf: Buffer, items: seq<Value>, next: Buffer)
    requires |items| > 0 && Serialize(buf, items[0]) == Ok(next)
    ensures SerializeElements(buf, items) == SerializeElements(next, items[1..])
  {
  }

  /** One step of the pure encoder through an element that succeeds. */
  lemma EncodeItemsCons(items: seq<Value>, head: bytes)
    requires |items| > 0 && Encode(items[0]) == Ok(head)
    ensures EncodeItems(items[1..]).Ok? ==> EncodeItems(items) == Ok(head + EncodeItems(items[1..]).value)
    ensures EncodeItems(items[1..]).Fail? ==> EncodeItems(items) == Fail(EncodeItems(items[1..]).failure)
  {
  }

  /** The buffer bookkeeping of a successful step: once `head` is written,
      the rest written after it is the concatenated text after `buf`. */
  lemma AppendStep(buf: Buffer, head: bytes, rest: Result<Buffer>, text: Result<bytes>)
    requires text.Ok? ==> rest == Ok(buf + head + text.value)
    ensures text.Ok? ==> rest == Ok(buf + (head + text.value))
  {
    if text.Ok? {
      assert buf + head + text.value == buf + (head + text.value);
    }
  }

  /** A list step whose first element fails: the list fails with it. */
  lemma ElementsStepFail(buf: Buffer, items: seq<Value>)
    requires |items| > 0
    requires Encode(items[0]).Fail? && Serialize(buf, items[0]) == Fail(Encode(items[0]).failure)
    ensures EncodeItems(items) == Fail(Encode(items[0]).failure)
    ensures SerializeElements(buf, items) == Fail(Encode(items[0]).failure)
  {
  }

  lemma {:induction false} SerializeEntriesIsEncodeEntries(buf: Buffer, entries: seq<Entry>)
    ensures EncodeEntries(entries).Ok? ==> SerializeEntries(buf, entries) == Ok(buf + EncodeEntries(entries).value)
    ensures EncodeEntries(entries).Fail? ==> SerializeEntries(buf, entries) == Fail(EncodeEntries(entries).failure)
    decreases entries
  {
    if |entries| == 0 {
      assert buf + [] == buf;
    } else {
      SerializeEntryIsEncodeEntry(buf, entries[0]);
      if EncodeEntry(entries[0]).Ok? {
        var head := EncodeEntry(entries[0]).value;
        SerializeEntriesCons(buf, entries, buf + head);
        EncodeEntriesCons(entries, head);
        SerializeEntriesIsEncodeEntries(buf + head, entries[1..]);
        AppendStep(buf, head, SerializeEntries(buf + head, entries[1..]), EncodeEntries(entries[1..]));
      } else {
        EntriesStepFail(buf, entries);
      }
    }
  }

  /** One step of the session through an entry that succeeds. */
  lemma SerializeEntriesCons(buf: Buffer, entries: seq<Entry>, next: Buffer)
    requires |entries| > 0 && SerializeEntry(buf, entries[0]) == Ok(next)
    ensures SerializeEntries(buf, entries) == SerializeEntries(next, entries[1..])
  {
  }

  /** One step of the pure encoder through an entry that succeeds. */
  lemma EncodeEntriesCons(entries: seq<Entry>, head: bytes)
    requires |entries| > 0 && EncodeEntry(entries[0]) == Ok(head)
    ensures EncodeEntries(entries[1..]).Ok? ==> EncodeEntries(entries) == Ok(head + EncodeEntries(entries[1..]).value)
    ensures EncodeEntries(entries[1..]).Fail? ==> EncodeEntries(entries) == Fail(EncodeEntries(entries[1..]).failure)
  {
  }

  /** A map step whose first entry fails: the map fails with it. */
  lemma EntriesStepFail(buf: Buffer, entries: seq<Entry>)
    requires |entries| > 0
    requires EncodeEntry(entries[0]).Fail? && SerializeEntry(buf, entries[0]) == Fail(EncodeEntry(entries[0]).failure)
    ensures EncodeEntries(entries) == Fail(EncodeEntry(entries[0]).failure)
    ensures SerializeEntries(buf, entries) == Fail(EncodeEntry(entries[0]).failure)
  {
  }

  lemma {:induction false} SerializeEntryIsEncodeEntry(buf: Buffer, entry: Entry)
    ensures EncodeEntry(entry).Ok? ==> SerializeEntry(buf, entry) == Ok(buf + EncodeEntry(entry).value)
    ensures EncodeEntry(entry).Fail? ==> SerializeEntry(buf, entry) == Fail(EncodeEntry(entry).failure)
    decreases entry
  {
    SerializeKeyIsEncodeKey(buf, entry.key);
    if EncodeKey(entry.key).Ok? {
      var key := EncodeKey(entry.key).value;
      assert SerializeEntry(buf, entry) == Serialize(buf + key, entry.value);
      SerializeIsEncode(buf + key, entry.value);
      if Encode(entry.value).Ok? {
        var value := Encode(entry.value).value;
        assert EncodeEntry(entry) == Ok(key + value);
        assert buf + key + value == buf + (key + value);
      } else {
        assert EncodeEntry(entry) == Fail(Encode(entry.value).failure);
      }
    } else {
      assert EncodeEntry(entry) == Fail(EncodeKey(entry.key).failure);
    }
  }

  lemma {:induction false} SerializeFieldsIsEncodeFields(buf: Buffer, fields: seq<Field>)
    ensures EncodeFields(fields).Ok? ==> SerializeFields(buf, fields) == Ok(buf + EncodeFields(fields).value)
    ensures EncodeFields(fields).Fail? ==> SerializeFields(buf, fields) == Fail(EncodeFields(fields).failure)
    decreases fields
  {
    if |fields| == 0 {
      assert buf + [] == buf;
    } else {
      SerializeFieldIsEncodeField(buf, fields[0]);
      if EncodeField(fields[0]).Ok? {
        var head := EncodeField(fields[0]).value;
        SerializeFieldsCons(buf, fields, buf + head);
        EncodeFieldsCons(fields, head);
        SerializeFieldsIsEncodeFields(buf + head, fields[1..]);
        AppendStep(buf, head, SerializeFields(buf + head, fields[1..]), EncodeFields(fields[1..]));
      } else {
        FieldsStepFail(buf, fields);
      }
    }
  }

  /** One step of the session through a field that succeeds. */
  lemma SerializeFieldsCons(buf: Buffer, fields: seq<Field>, next: Buffer)
    requires |fields| > 0 && SerializeField(buf, fields[0]) == Ok(next)
    ensures SerializeFields(buf, fields) == SerializeFields(next, fields[1..])
  {
  }

  /** One step of the pure encoder through a field that succeeds. */
  lemma EncodeFieldsCons(fields: seq<Field>, head: bytes)
    requires |fields| > 0 && EncodeField(fields[0]) == Ok(head)
    ensures EncodeFields(fields[1..]).Ok? ==> EncodeFields(fields) == Ok(head + EncodeFields(fields[1..]).value)
    ensures EncodeFields(fields[1..]).Fail? ==> EncodeFields(fields) == Fail(EncodeFields(fields[1..]).failure)
  {
  }

  /** A struct step whose first field fails: the struct fails with it. */
  lemma FieldsStepFail(buf: Buffer, fields: seq<Field>)
    requires |fields| > 0
    requires EncodeField(fields[0]).Fail? && SerializeField(buf, fields[0]) == Fail(EncodeField(fields[0]).failure)
    ensures EncodeFields(fields) == Fail(EncodeField(fields[0]).failure)
    ensures SerializeFields(buf, fields) == Fail(EncodeField(fields[0]).failure)
  {
  }

  lemma {:induction false} SerializeFieldIsEncodeField(buf: Buffer, field: Field)
    ensures EncodeField(field).Ok? ==> SerializeField(buf, field) == Ok(buf + EncodeField(field).value)
    ensures EncodeField(field).Fail? ==> SerializeField(buf, field) == Fail(EncodeField(field).failure)
    decreases field
  {
    match field
    case Skipped(_) =>
    case Field(name, value) =>
      var key := Utf8Str(name);
      SerializeIsEncode(buf + key, value);
      if Encode(value).Ok? {
        var text := Encode(value).value;
        assert EncodeField(field) == Ok(key + text);
        assert buf + key + text == buf + (key + text);
      } else {
        assert EncodeField(field) == Fail(Encode(value).failure);
      }
  }

  lemma {:induction false} SerializeKeyIsEncodeKey(buf: Buffer, k: Value)
    ensures EncodeKey(k).Ok? ==> SerializeKey(buf, k) == Ok(buf + EncodeKey(k).value)
    ensures EncodeKey(k).Fail? ==> SerializeKey(buf, k) == Fail(EncodeKey(k).failure)
    decreases k
  {
    assert buf + [] == buf;
    match k
    case Present(inner) => SerializeKeyIsEncodeKey(buf, inner);
    case UnitVariant(name, variant) =>
    case _ =>
  }
}
