/** What the encoder promises, stated against definitions that do not follow
    its control flow: which values encode at all, which produce no text, how a
    composite's text is laid out from its parts, how errors travel outward,
    and how the key encoder's text relates to the value dispatcher's. */
module Properties {
  import opened Bytes
  import opened Errors
  import opened Values
  import opened Encoder

  /** Shapes the value dispatcher accepts, checked everywhere inside `v`. */
  predicate Encodable(v: Value)
    decreases v
  {
    match v
    case Bool(_) => true
    case Integer(_) => true
    case Char(_) => true
    case Str(_) => true
    case Absent => true
    case Present(inner) => Encodable(inner)
    case Unit => true
    case UnitStruct(_) => true
    case UnitVariant(_, _) => true
    case Seq(items) => forall i | 0 <= i < |items| :: Encodable(items[i])
    case Map(entries) => forall i | 0 <= i < |entries| :: EntryEncodable(entries[i])
    case Struct(_, fields) => forall i | 0 <= i < |fields| :: FieldEncodable(fields[i])
    case _ => false
  }

  predicate EntryEncodable(e: Entry)
    decreases e
  {
    KeyScalar(e.key) && Encodable(e.value)
  }

  predicate FieldEncodable(f: Field)
    decreases f
  {
    f.Field? && Encodable(f.value)
  }

  /** Shapes the key encoder accepts: scalars, possibly under `Some`. */
  predicate KeyScalar(k: Value)
    decreases k
  {
    match k
    case Bool(_) => true
    case Integer(_) => true
    case Float(_, _) => true
    case Char(_) => true
    case Str(_) => true
    case Absent => true
    case Present(inner) => KeyScalar(inner)
    case Unit => true
    case UnitStruct(_) => true
    case UnitVariant(_, _) => true
    case _ => false
  }

  /** Shapes the key encoder refuses with `NotSupported`: composites and byte
      arrays, possibly under `Some`. */
  predicate KeyRefused(k: Value)
    decreases k
  {
    match k
    case ByteArray(_) => true
    case Seq(_) => true
    case Tuple(_) => true
    case TupleStruct(_, _) => true
    case TupleVariant(_, _, _) => true
    case Map(_) => true
    case Struct(_, _) => true
    case StructVariant(_, _, _) => true
    case Present(inner) => KeyRefused(inner)
    case _ => false
  }

  /** `None`, `()`, or `Some` of such: values with a zero-width encoding. */
  predicate Silent(v: Value)
    decreases v
  {
    match v
    case Absent => true
    case Unit => true
    case Present(inner) => Silent(inner)
    case _ => false
  }

  /** Byte strings joined end to end, in order. */
  function Concat(parts: seq<bytes>): (r: bytes)
    decreases |parts|
  {
    if |parts| == 0 then [] else Concat(parts[..|parts| - 1]) + parts[|parts| - 1]
  }

  /** Encoding succeeds exactly when every nested value has a supported shape
      for its position. */
  lemma {:induction false} EncodeSucceedsIff(v: Value)
    ensures Encode(v).Ok? <==> Encodable(v)
    decreases v
  {
    match v
    case Present(inner) => EncodeSucceedsIff(inner);
    case Seq(items) => ItemsSucceedIff(items);
    case Map(entries) => EntriesSucceedIff(entries);
    case Struct(_, fields) => FieldsSucceedIff(fields);
    case _ =>
  }

  lemma {:induction false} ItemsSucceedIff(items: seq<Value>)
    ensures EncodeItems(items).Ok? <==> forall i | 0 <= i < |items| :: Encodable(items[i])
    decreases items
  {
    if |items| > 0 {
      EncodeSucceedsIff(items[0]);
      ItemsSucceedIff(items[1..]);
      assert forall i | 1 <= i < |items| :: items[i] == items[1..][i - 1];
    }
  }

  lemma {:induction false} EntriesSucceedIff(entries: seq<Entry>)
    ensures EncodeEntries(entries).Ok? <==> forall i | 0 <= i < |entries| :: EntryEncodable(entries[i])
    decreases entries
  {
    if |entries| > 0 {
      var entry := entries[0];
      assert entry in entries && entry.value < entry;
      KeySucceedsIff(entry.key);
      EncodeSucceedsIff(entry.value);
      EntriesSucceedIff(entries[1..]);
      assert forall i | 1 <= i < |entries| :: entries[i] == entries[1..][i - 1];
    }
  }

  lemma {:induction false} FieldsSucceedIff(fields: seq<Field>)
    ensures EncodeFields(fields).Ok? <==> forall i | 0 <= i < |fields| :: FieldEncodable(fields[i])
    decreases fields
  {
    if |fields| > 0 {
      if fields[0].Field? {
        EncodeSucceedsIff(fields[0].value);
      }
      FieldsSucceedIff(fields[1..]);
      assert forall i | 1 <= i < |fields| :: fields[i] == fields[1..][i - 1];
    }
  }

  /** The key encoder succeeds exactly on scalar keys. */
  lemma {:induction false} KeySucceedsIff(k: Value)
    ensures EncodeKey(k).Ok? <==> KeyScalar(k)
    decreases k
  {
    match k
    case Present(inner) => KeySucceedsIff(inner);
    case _ =>
  }

  /** The key encoder answers `NotSupported` exactly for composite keys and
      byte arrays. */
  lemma {:induction false} KeyNotSupportedIff(k: Value)
    ensures EncodeKey(k) == Fail(Error(NotSupported)) <==> KeyRefused(k)
    decreases k
  {
    match k
    case Present(inner) => KeyNotSupportedIff(inner);
    case _ =>
  }

  /** Exactly `None`, `()` and `Some` of those append nothing. */
  lemma {:induction false} EncodeEmptyIff(v: Value)
    ensures Encode(v) == Ok([]) <==> Silent(v)
    decreases v
  {
    match v
    case Present(inner) => EncodeEmptyIff(inner);
    case Str(s) => assert |StrFrame(Utf8Str(s))| > 0;
    case UnitStruct(name) => assert |StrFrame(Utf8Str(name))| > 0;
    case Seq(items) =>
    case Map(entries) =>
    case Struct(_, fields) =>
    case _ =>
  }

  /** Any text the value dispatcher writes opens with a bencode type tag:
      `i`, `l`, `d`, or the first digit of a string's length. */
  lemma {:induction false} EncodeOpensWithTag(v: Value)
    ensures Encode(v).Ok? && |Encode(v).value| > 0 ==> TagByte(Encode(v).value[0])
    decreases v
  {
    match v
    case Present(inner) => EncodeOpensWithTag(inner);
    case Char(c) => StringTagIsDigit(Decimal(1), [COLON] + Utf8Char(c));
    case Str(s) => StringTagIsDigit(Decimal(|Utf8Str(s)|), [COLON] + Utf8Str(s));
    case UnitStruct(name) => StringTagIsDigit(Decimal(|Utf8Str(name)|), [COLON] + Utf8Str(name));
    case UnitVariant(name, variant) =>
      StringTagIsDigit(Decimal(|Utf8Str(name)| + |Utf8Str(variant)|), [COLON] + Utf8Str(name) + Utf8Str(variant));
    case _ =>
  }

  /** A string frame opens with the first digit of its length. */
  lemma StringTagIsDigit(length: bytes, rest: bytes)
    requires CanonicalDigits(length)
    ensures TagByte((length + rest)[0])
  {
    assert (length + rest)[0] == length[0];
  }

  /** A float at the top of a value position is refused with
      `FloatNotSupported`, and a raw byte array there with `NotSupported`.
      Inside a list, map or struct the first failing element decides the
      error (the `...FailurePropagates` lemmas); as a map key a float is
      written, not refused (`KeySucceedsIff`). */
  lemma RejectedScalars(w: FloatWidth, shown: string, raw: bytes)
    ensures Encode(Float(w, shown)) == Fail(Error(FloatNotSupported))
    ensures Encode(ByteArray(raw)) == Fail(Error(NotSupported))
    ensures !Encodable(Float(w, shown)) && !Encodable(ByteArray(raw))
  {
  }

  /** Text `x` followed by text `y`; the first failure, if any, wins. */
  function Then(x: Result<bytes>, y: Result<bytes>): (r: Result<bytes>)
    ensures r.Ok? <==> x.Ok? && y.Ok?
  {
    var p :- x;
    var q :- y;
    Ok(p + q)
  }

  lemma ThenAssociative(x: Result<bytes>, y: Result<bytes>, z: Result<bytes>)
    ensures Then(Then(x, y), z) == Then(x, Then(y, z))
  {
    if x.Ok? && y.Ok? && z.Ok? {
      assert x.value + y.value + z.value == x.value + (y.value + z.value);
    }
  }

  lemma ThenEmpty(y: Result<bytes>)
    ensures Then(Ok([]), y) == y
  {
    if y.Ok? {
      assert [] + y.value == y.value;
    }
  }

  /** One step of the list encoder: the head's text, then the rest's. */
  lemma ItemsUnfold(items: seq<Value>)
    requires |items| > 0
    ensures EncodeItems(items) == Then(Encode(items[0]), EncodeItems(items[1..]))
  {
  }

  lemma EntriesUnfold(entries: seq<Entry>)
    requires |entries| > 0
    ensures EncodeEntries(entries) == Then(EncodeEntry(entries[0]), EncodeEntries(entries[1..]))
  {
  }

  lemma FieldsUnfold(fields: seq<Field>)
    requires |fields| > 0 && fields[0].Field?
    ensures EncodeFields(fields)
         == Then(Then(Ok(Utf8Str(fields[0].name)), Encode(fields[0].value)), EncodeFields(fields[1..]))
  {
  }

  /** The list encoder is a homomorphism: the elements of `a + b` encode to
      the text of `a` followed by that of `b`, and the first failure wins. */
  lemma {:induction false} ItemsAppend(a: seq<Value>, b: seq<Value>)
    ensures EncodeItems(a + b) == Then(EncodeItems(a), EncodeItems(b))
    decreases |a|
  {
    if |a| == 0 {
      assert a + b == b;
      ThenEmpty(EncodeItems(b));
    } else {
      var ab := a + b;
      assert ab[0] == a[0] && ab[1..] == a[1..] + b;
      ItemsAppend(a[1..], b);
      ItemsUnfold(a);
      ItemsUnfold(ab);
      ThenAssociative(Encode(a[0]), EncodeItems(a[1..]), EncodeItems(b));
    }
  }

  /** Map entries of `a + b` encode to the text of `a`'s entries followed by
      that of `b`'s: the encoder keeps the given entry order. */
  lemma {:induction false} EntriesAppend(a: seq<Entry>, b: seq<Entry>)
    ensures EncodeEntries(a + b) == Then(EncodeEntries(a), EncodeEntries(b))
    decreases |a|
  {
    if |a| == 0 {
      assert a + b == b;
      ThenEmpty(EncodeEntries(b));
    } else {
      var ab := a + b;
      assert ab[0] == a[0] && ab[1..] == a[1..] + b;
      EntriesAppend(a[1..], b);
      EntriesUnfold(a);
      EntriesUnfold(ab);
      ThenAssociative(EncodeEntry(a[0]), EncodeEntries(a[1..]), EncodeEntries(b));
    }
  }

  /** Struct fields of `a + b` encode to the text of `a`'s fields followed by
      that of `b`'s: the encoder keeps declaration order. */
  lemma {:induction false} FieldsAppend(a: seq<Field>, b: seq<Field>)
    ensures EncodeFields(a + b) == Then(EncodeFields(a), EncodeFields(b))
    decreases |a|
  {
    if |a| == 0 {
      assert a + b == b;
      ThenEmpty(EncodeFields(b));
    } else {
      var ab := a + b;
      assert ab[0] == a[0] && ab[1..] == a[1..] + b;
      FieldsAppend(a[1..], b);
      if a[0].Skipped? {
        assert EncodeFields(a) == Fail(Unimplemented);
        assert EncodeFields(ab) == Fail(Unimplemented);
      } else {
        FieldsUnfold(a);
        FieldsUnfold(ab);
        ThenAssociative(Then(Ok(Utf8Str(a[0].name)), Encode(a[0].value)), EncodeFields(a[1..]), EncodeFields(b));
      }
    }
  }

  /** Each element's text, for a list whose elements all encode. */
  function ItemTexts(items: seq<Value>): (r: seq<bytes>)
    requires forall i | 0 <= i < |items| :: Encode(items[i]).Ok?
    ensures |r| == |items|
  {
    seq(|items|, i requires 0 <= i < |items| => Encode(items[i]).value)
  }

  /** Each field's text, raw name then value, for a struct whose fields all
      encode. */
  function FieldTexts(fields: seq<Field>): (r: seq<bytes>)
    requires forall i | 0 <= i < |fields| :: fields[i].Field? && Encode(fields[i].value).Ok?
    ensures |r| == |fields|
  {
    seq(|fields|, i requires 0 <= i < |fields| => Utf8Str(fields[i].name) + Encode(fields[i].value).value)
  }

  /** Each entry's text, key-encoder text then value text, for a map whose
      entries all encode. */
  function EntryTexts(entries: seq<Entry>): (r: seq<bytes>)
    requires forall i | 0 <= i < |entries| :: EncodeKey(entries[i].key).Ok? && Encode(entries[i].value).Ok?
    ensures |r| == |entries|
  {
    seq(|entries|, i requires 0 <= i < |entries| => EncodeKey(entries[i].key).value + Encode(entries[i].value).value)
  }

  /** A list is `l`, its elements' texts in order, then `e`. */
  lemma {:induction false} ListLayout(items: seq<Value>)
    requires forall i | 0 <= i < |items| :: Encode(items[i]).Ok?
    ensures Encode(Seq(items)) == Ok([LOWER_L] + Concat(ItemTexts(items)) + [LOWER_E])
    decreases |items|
  {
    ItemsAreConcat(items);
  }

  lemma {:induction false} ItemsAreConcat(items: seq<Value>)
    requires forall i | 0 <= i < |items| :: Encode(items[i]).Ok?
    ensures EncodeItems(items) == Ok(Concat(ItemTexts(items)))
    decreases |items|
  {
    if |items| > 0 {
      var n := |items| - 1;
      var init := items[..n];
      assert items == init + [items[n]];
      ItemsAreConcat(init);
      assert ItemTexts(items)[..n] == ItemTexts(init);
      assert [items[n]][1..] == [];
      assert EncodeItems([items[n]]) == Ok(Encode(items[n]).value + []);
      ItemsAppend(init, [items[n]]);
      assert Encode(items[n]).value + [] == Encode(items[n]).value;
    }
  }

  /** A struct is `d`, each field's raw name and value text in declaration
      order, then `e`. */
  lemma {:induction false} StructLayout(name: string, fields: seq<Field>)
    requires forall i | 0 <= i < |fields| :: fields[i].Field? && Encode(fields[i].value).Ok?
    ensures Encode(Struct(name, fields)) == Ok([LOWER_D] + Concat(FieldTexts(fields)) + [LOWER_E])
  {
    FieldsAreConcat(fields);
  }

  lemma {:induction false} FieldsAreConcat(fields: seq<Field>)
    requires forall i | 0 <= i < |fields| :: fields[i].Field? && Encode(fields[i].value).Ok?
    ensures EncodeFields(fields) == Ok(Concat(FieldTexts(fields)))
    decreases |fields|
  {
    if |fields| > 0 {
      var n := |fields| - 1;
      var init := fields[..n];
      var last := fields[n];
      assert fields == init + [last];
      FieldsAreConcat(init);
      assert FieldTexts(fields)[..n] == FieldTexts(init);
      SingleFieldText(last);
      FieldsAppend(init, [last]);
    }
  }

  /** A one-field struct body is the raw name followed by the value text. */
  lemma SingleFieldText(field: Field)
    requires field.Field? && Encode(field.value).Ok?
    ensures EncodeFields([field]) == Ok(Utf8Str(field.name) + Encode(field.value).value)
  {
    var text := Utf8Str(field.name) + Encode(field.value).value;
    assert [field][1..] == [];
    assert EncodeField(field) == Ok(text);
    assert text + [] == text;
  }

  /** A map is `d`, each entry's key text and value text in the map's
      iteration order, then `e`; no reordering takes place. */
  lemma {:induction false} MapLayout(entries: seq<Entry>)
    requires forall i | 0 <= i < |entries| :: EncodeKey(entries[i].key).Ok? && Encode(entries[i].value).Ok?
    ensures Encode(Map(entries)) == Ok([LOWER_D] + Concat(EntryTexts(entries)) + [LOWER_E])
  {
    EntriesAreConcat(entries);
  }

  lemma {:induction false} EntriesAreConcat(entries: seq<Entry>)
    requires forall i | 0 <= i < |entries| :: EncodeKey(entries[i].key).Ok? && Encode(entries[i].value).Ok?
    ensures EncodeEntries(entries) == Ok(Concat(EntryTexts(entries)))
    decreases |entries|
  {
    if |entries| > 0 {
      var n := |entries| - 1;
      var init := entries[..n];
      var last := entries[n];
      assert entries == init + [last];
      EntriesAreConcat(init);
      assert EntryTexts(entries)[..n] == EntryTexts(init);
      SingleEntryText(last);
      EntriesAppend(init, [last]);
    }
  }

  /** A one-entry map body is the key text followed by the value text. */
  lemma SingleEntryText(entry: Entry)
    requires EncodeKey(entry.key).Ok? && Encode(entry.value).Ok?
    ensures EncodeEntries([entry]) == Ok(EncodeKey(entry.key).value + Encode(entry.value).value)
  {
    var text := EncodeKey(entry.key).value + Encode(entry.value).value;
    assert [entry][1..] == [];
    assert EncodeEntry(entry) == Ok(text);
    assert text + [] == text;
  }

  /** A failing element ends the list with its failure, unchanged, when all
      elements before it encode. */
  lemma ItemFailurePropagates(items: seq<Value>, i: nat)
    requires i < |items|
    requires forall j | 0 <= j < i :: Encode(items[j]).Ok?
    requires Encode(items[i]).Fail?
    ensures Encode(Seq(items)) == Fail(Encode(items[i]).failure)
  {
    var before := items[..i];
    var after := items[i..];
    assert items == before + after;
    ItemsAreConcat(before);
    assert after[0] == items[i];
    ItemsAppend(before, after);
  }

  /** A failing field ends the struct with its failure, unchanged, when all
      fields before it encode; a skipped field ends it as unimplemented. */
  lemma FieldFailurePropagates(name: string, fields: seq<Field>, i: nat)
    requires i < |fields|
    requires forall j | 0 <= j < i :: fields[j].Field? && Encode(fields[j].value).Ok?
    requires fields[i].Skipped? || Encode(fields[i].value).Fail?
    ensures fields[i].Skipped? ==> Encode(Struct(name, fields)) == Fail(Unimplemented)
    ensures fields[i].Field? ==> Encode(Struct(name, fields)) == Fail(Encode(fields[i].value).failure)
  {
    var before := fields[..i];
    var after := fields[i..];
    assert fields == before + after;
    FieldsAreConcat(before);
    assert after[0] == fields[i];
    FieldsAppend(before, after);
  }

  /** A failing key, or failing value after a good key, ends the map with
      that failure, unchanged, when all entries before it encode. */
  lemma EntryFailurePropagates(entries: seq<Entry>, i: nat)
    requires i < |entries|
    requires forall j | 0 <= j < i :: EncodeKey(entries[j].key).Ok? && Encode(entries[j].value).Ok?
    requires EncodeKey(entries[i].key).Fail? || Encode(entries[i].value).Fail?
    ensures EncodeKey(entries[i].key).Fail? ==>
              Encode(Map(entries)) == Fail(EncodeKey(entries[i].key).failure)
    ensures EncodeKey(entries[i].key).Ok? ==>
              Encode(Map(entries)) == Fail(Encode(entries[i].value).failure)
  {
    var before := entries[..i];
    var after := entries[i..];
    assert entries == before + after;
    EntriesAreConcat(before);
    assert after[0] == entries[i];
    EntriesAppend(before, after);
  }

  /** For string-like scalars, the value dispatcher writes the key encoder's
      text behind a byte-length prefix; as a key it has no prefix. */
  lemma StringKeyIsUnframed(v: Value)
    requires v.Str? || v.UnitStruct? || v.UnitVariant? || (v.Char? && v.c as int < 0x80)
    ensures EncodeKey(v).Ok?
    ensures Encode(v) == Ok(StrFrame(EncodeKey(v).value))
  {
    if v.UnitVariant? {
      assert Decimal(|Utf8Str(v.name)| + |Utf8Str(v.variant)|) + [COLON] + Utf8Str(v.name) + Utf8Str(v.variant)
          == StrFrame(Utf8Str(v.name) + Utf8Str(v.variant));
    }
  }

  /** For integers, the value dispatcher writes the key encoder's text inside
      `i...e`; booleans differ: `i1e`/`i0e` as values, `true`/`false` as keys. */
  lemma IntegerKeyIsUnframed(i: RustInt, b: bool)
    ensures Encode(Integer(i)) == Ok([LOWER_I] + EncodeKey(Integer(i)).value + [LOWER_E])
    ensures Encode(Bool(b)) == Ok(IntFrame(if b then 1 else 0))
    ensures EncodeKey(Bool(b)) == Ok(if b then Utf8Str("true") else Utf8Str("false"))
  {
  }

  /** `v` under `n` layers of `Some`. */
  function Wrap(n: nat, v: Value): Value
    decreases n
  {
    if n == 0 then v else Present(Wrap(n - 1, v))
  }

  /** `Some` is transparent: however deeply `v` is wrapped, both the value
      dispatcher and the key encoder write exactly what they write for `v`. */
  lemma {:induction false} SomeIsTransparent(n: nat, v: Value)
    ensures Encode(Wrap(n, v)) == Encode(v)
    ensures EncodeKey(Wrap(n, v)) == EncodeKey(v)
    decreases n
  {
    if n > 0 {
      SomeIsTransparent(n - 1, v);
    }
  }
}
