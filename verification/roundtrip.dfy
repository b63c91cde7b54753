/** The encoder's output judged by the BEP 3 reader of module Bencode.
    Lists and scalars come back as the bencode values they denote. Two
    behaviours of the encoder fall outside the format, and the lemmas at the
    end exhibit each: a non-ASCII `char` gets a length prefix of 1 although
    its text is longer; and dictionary keys are written without a length
    prefix, so a BEP 3 reader refuses struct and map text whose first key
    text starts with neither a digit nor `e`, misreads map text whose key
    looks like a bencode string, and cannot tell some distinct structs
    apart. */
module RoundTrip {
  import opened Bytes
  import opened Errors
  import opened Values
  import opened Encoder
  import opened Bencode

  /** Values whose text is well-formed bencoding: no dictionaries anywhere,
      only ASCII characters, and no shape the dispatcher refuses. */
  predicate Decodable(v: Value)
    decreases v
  {
    match v
    case Bool(_) => true
    case Integer(_) => true
    case Char(c) => c as int < 0x80
    case Str(_) => true
    case Absent => true
    case Present(inner) => Decodable(inner)
    case Unit => true
    case UnitStruct(_) => true
    case UnitVariant(_, _) => true
    case Seq(items) => forall i | 0 <= i < |items| :: Decodable(items[i])
    case _ => false
  }

  /** The bencode value a value stands for; `None` for zero-width values. */
  function Denote(v: Value): Option<BValue>
    decreases v
  {
    match v
    case Bool(b) => Some(BInt(if b then 1 else 0))
    case Integer(i) => Some(BInt(i.n))
    case Char(c) => Some(BStr(Utf8Char(c)))
    case Str(s) => Some(BStr(Utf8Str(s)))
    case Present(inner) => Denote(inner)
    case UnitStruct(name) => Some(BStr(Utf8Str(name)))
    case UnitVariant(name, variant) => Some(BStr(Utf8Str(name + variant)))
    case Seq(items) => Some(BList(DenoteItems(items)))
    case _ => None
  }

  /** The list a sequence stands for: zero-width elements leave no item. */
  function DenoteItems(items: seq<Value>): seq<BValue>
    decreases items
  {
    if |items| == 0 then []
    else
      match Denote(items[0])
      case Some(b) => [b] + DenoteItems(items[1..])
      case None => DenoteItems(items[1..])
  }

  lemma {:induction false} SpanOfDigitsThenOther(d: bytes, t: bytes)
    requires AllDigits(d)
    requires |t| > 0 && !IsDigit(t[0])
    ensures SpanDigits(d + t) == |d|
    decreases |d|
  {
    if |d| == 0 {
      assert d + t == t;
    } else {
      assert (d + t)[0] == d[0];
      assert (d + t)[1..] == d[1..] + t;
      SpanOfDigitsThenOther(d[1..], t);
    }
  }

  /** The reader gets back every integer `format!` wrote, and stops right
      after its `e`. */
  lemma IntegerReadsBack(n: int, rest: bytes)
    ensures ParseInt(Decimal(n) + [LOWER_E] + rest) == Some((BInt(n), rest))
  {
    if n < 0 {
      NegativeReadsBack(-n, rest);
    } else {
      NaturalReadsBack(n, rest);
    }
  }

  lemma NaturalReadsBack(n: nat, rest: bytes)
    ensures ParseInt(NatDigits(n) + [LOWER_E] + rest) == Some((BInt(n), rest))
  {
    var digits := NatDigits(n);
    var s := digits + [LOWER_E] + rest;
    assert s == digits + ([LOWER_E] + rest);
    assert s[0] != MINUS;
    assert s[0..] == s;
    SpanOfDigitsThenOther(digits, [LOWER_E] + rest);
    assert s[0..|digits|] == digits;
    assert s[|digits| + 1..] == rest;
    DigitsValueOfNatDigits(n);
  }

  lemma NegativeReadsBack(m: nat, rest: bytes)
    requires m > 0
    ensures ParseInt([MINUS] + NatDigits(m) + [LOWER_E] + rest) == Some((BInt(-(m as int)), rest))
  {
    var digits := NatDigits(m);
    var s := [MINUS] + digits + [LOWER_E] + rest;
    assert s[0] == MINUS;
    assert s[1..] == digits + ([LOWER_E] + rest);
    SpanOfDigitsThenOther(digits, [LOWER_E] + rest);
    assert s[1..1 + |digits|] == digits;
    assert digits != [ZERO];
    assert s[1 + |digits| + 1..] == rest;
    DigitsValueOfNatDigits(m);
  }

  /** The reader gets back the text of every string frame. */
  lemma StringReadsBack(text: bytes, rest: bytes)
    ensures ParseString(StrFrame(text) + rest) == Some((text, rest))
  {
    var s := StrFrame(text) + rest;
    var digits := NatDigits(|text|);
    assert s == digits + ([COLON] + text + rest);
    SpanOfDigitsThenOther(digits, [COLON] + text + rest);
    assert s[..|digits|] == digits;
    DigitsValueOfNatDigits(|text|);
    var n := |digits|;
    assert s[n + 1..n + 1 + |text|] == text;
    assert s[n + 1 + |text|..] == rest;
  }

  /** Every decodable value encodes, and a BEP 3 reader reads its text back
      as the bencode value it denotes, leaving what follows untouched;
      zero-width values write nothing. */
  lemma {:induction false} EncodeThenParse(v: Value, rest: bytes)
    requires Decodable(v)
    ensures Encode(v).Ok?
    ensures Denote(v).None? ==> Encode(v).value == []
    ensures Denote(v).Some? ==> ParseValue(Encode(v).value + rest) == Some((Denote(v).value, rest))
    decreases v, 1
  {
    match v
    case Present(inner) =>
      EncodeThenParse(inner, rest);
    case Seq(items) =>
      ItemsThenParse(items, rest);
      SeqThenParse(items, rest);
    case Absent =>
    case Unit =>
    case _ =>
      ScalarThenParse(v, rest);
  }

  /** The scalar cases of EncodeThenParse. */
  lemma ScalarThenParse(v: Value, rest: bytes)
    requires v.Bool? || v.Integer? || (v.Char? && v.c as int < 0x80) || v.Str? || v.UnitStruct? || v.UnitVariant?
    ensures Encode(v).Ok? && Denote(v).Some?
    ensures ParseValue(Encode(v).value + rest) == Some((Denote(v).value, rest))
  {
    if v.Bool? || v.Integer? {
      IntegerThenParse(v, rest);
    } else {
      TextThenParse(v, rest);
    }
  }

  /** Booleans and integers read back as the integer they are written as. */
  lemma IntegerThenParse(v: Value, rest: bytes)
    requires v.Bool? || v.Integer?
    ensures Encode(v).Ok? && Denote(v).Some?
    ensures ParseValue(Encode(v).value + rest) == Some((Denote(v).value, rest))
  {
    match v
    case Bool(b) =>
      IntFrameReadsBack(if b then 1 else 0, rest);
    case Integer(i) =>
      IntFrameReadsBack(i.n, rest);
  }

  /** ASCII chars, strings, unit structs and unit variants read back as the
      byte string they are written as. */
  lemma TextThenParse(v: Value, rest: bytes)
    requires (v.Char? && v.c as int < 0x80) || v.Str? || v.UnitStruct? || v.UnitVariant?
    ensures Encode(v).Ok? && Denote(v).Some?
    ensures ParseValue(Encode(v).value + rest) == Some((Denote(v).value, rest))
  {
    match v
    case Char(c) =>
      CharThenParse(c, rest);
    case Str(s) =>
      StrFrameReadsBack(Utf8Str(s), rest);
    case UnitStruct(name) =>
      StrFrameReadsBack(Utf8Str(name), rest);
    case UnitVariant(name, variant) =>
      Utf8StrAppend(name, variant);
      assert Encode(v).value == StrFrame(Utf8Str(name + variant));
      StrFrameReadsBack(Utf8Str(name + variant), rest);
  }

  /** An ASCII char reads back as its one-byte string. */
  lemma CharThenParse(c: char, rest: bytes)
    requires c as int < 0x80
    ensures Encode(Char(c)).Ok? && Denote(Char(c)).Some?
    ensures ParseValue(Encode(Char(c)).value + rest) == Some((Denote(Char(c)).value, rest))
  {
    assert Encode(Char(c)).value == StrFrame(Utf8Char(c));
    StrFrameReadsBack(Utf8Char(c), rest);
  }

  /** The list case of EncodeThenParse, given the items' case. */
  lemma SeqThenParse(items: seq<Value>, rest: bytes)
    requires EncodeItems(items).Ok?
    requires ParseItems(EncodeItems(items).value + [LOWER_E] + rest) == Some((DenoteItems(items), rest))
    ensures Encode(Seq(items)).Ok?
    ensures ParseValue(Encode(Seq(items)).value + rest) == Some((BList(DenoteItems(items)), rest))
  {
    var body := EncodeItems(items).value;
    assert Encode(Seq(items)) == Ok([LOWER_L] + body + [LOWER_E]);
    ListTextReadsBack(body, DenoteItems(items), rest);
  }

  lemma ListTextReadsBack(body: bytes, xs: seq<BValue>, rest: bytes)
    requires ParseItems(body + [LOWER_E] + rest) == Some((xs, rest))
    ensures ParseValue([LOWER_L] + body + [LOWER_E] + rest) == Some((BList(xs), rest))
  {
    var s := [LOWER_L] + body + [LOWER_E] + rest;
    assert s[0] == LOWER_L;
    assert s[1..] == body + [LOWER_E] + rest;
  }

  lemma IntFrameReadsBack(n: int, rest: bytes)
    ensures ParseValue(IntFrame(n) + rest) == Some((BInt(n), rest))
  {
    var s := IntFrame(n) + rest;
    assert s[1..] == Decimal(n) + [LOWER_E] + rest;
    IntegerReadsBack(n, rest);
  }

  lemma StrFrameReadsBack(text: bytes, rest: bytes)
    ensures ParseValue(StrFrame(text) + rest) == Some((BStr(text), rest))
  {
    var s := StrFrame(text) + rest;
    assert s[0] == NatDigits(|text|)[0];
    StringReadsBack(text, rest);
  }

  lemma {:induction false} ItemsThenParse(items: seq<Value>, rest: bytes)
    requires forall i | 0 <= i < |items| :: Decodable(items[i])
    ensures EncodeItems(items).Ok?
    ensures ParseItems(EncodeItems(items).value + [LOWER_E] + rest) == Some((DenoteItems(items), rest))
    decreases items, 0
  {
    if |items| == 0 {
      assert EncodeItems(items).value + [LOWER_E] + rest == [LOWER_E] + rest;
    } else {
      var tailItems := items[1..];
      assert forall i | 0 <= i < |tailItems| :: tailItems[i] == items[i + 1];
      ItemsThenParse(tailItems, rest);
      var tail := EncodeItems(tailItems).value;
      var after := tail + [LOWER_E] + rest;
      EncodeThenParse(items[0], after);
      var head := Encode(items[0]).value;
      assert EncodeItems(items).value == head + tail;
      assert head + tail + [LOWER_E] + rest == head + after;
      if Denote(items[0]).Some? {
        ParseItemsCons(head + after, Denote(items[0]).value, after, DenoteItems(tailItems), rest);
      } else {
        assert head + after == after;
      }
    }
  }

  /** The reader's list step: an item that parses, then the rest of the list. */
  lemma ParseItemsCons(s: bytes, item: BValue, after: bytes, xs: seq<BValue>, rest: bytes)
    requires ParseValue(s) == Some((item, after))
    requires ParseItems(after) == Some((xs, rest))
    ensures ParseItems(s) == Some(([item] + xs, rest))
  {
    assert s[0] != LOWER_E;
  }

  /** A complete text of a decodable value parses to what the value denotes. */
  lemma EncodedTextParses(v: Value)
    requires Decodable(v) && Denote(v).Some?
    ensures Encode(v).Ok? && Parse(Encode(v).value) == Denote(v)
  {
    EncodeThenParse(v, []);
    assert Encode(v).value + [] == Encode(v).value;
  }

  /** Decodable values with equal text denote the same bencode value: the
      encoding loses nothing of what it writes. */
  lemma EncodeInjectiveOnDecodable(v: Value, w: Value)
    requires Decodable(v) && Decodable(w)
    requires Encode(v) == Encode(w)
    ensures Denote(v) == Denote(w)
  {
    EncodeThenParse(v, []);
    EncodeThenParse(w, []);
    assert Encode(v).value + [] == Encode(v).value;
    assert Encode(w).value + [] == Encode(w).value;
  }

  /** A `char` is written as the one-character string would be exactly when
      it is ASCII: the prefix is always 1, the text is its UTF-8 bytes. */
  lemma CharMatchesStringIff(c: char)
    ensures Encode(Char(c)) == Encode(Str([c])) <==> c as int < 0x80
  {
    Utf8StrSingleton(c);
    var u := Utf8Char(c);
    if c as int >= 0x80 {
      assert NatDigits(|u|) == [DigitByte(|u|)];
      assert Encode(Char(c)).value[0] != Encode(Str([c])).value[0];
    }
  }

  /** For a non-ASCII `char`, a BEP 3 reader takes only the first UTF-8 byte
      as the string and leaves the remaining bytes as stray input. */
  lemma NonAsciiCharMisread(c: char, rest: bytes)
    requires c as int >= 0x80
    ensures var u := Utf8Char(c);
            ParseValue(Encode(Char(c)).value + rest) == Some((BStr(u[..1]), u[1..] + rest))
  {
    var u := Utf8Char(c);
    assert Encode(Char(c)).value + rest == StrFrame(u[..1]) + (u[1..] + rest);
    StrFrameReadsBack(u[..1], u[1..] + rest);
  }

  /** A dictionary whose first key text does not start with a digit (or `e`)
      is refused by a BEP 3 reader, which expects a length-prefixed key. */
  lemma DictTextRefused(body: bytes, rest: bytes)
    requires |body| > 0 && !IsDigit(body[0]) && body[0] != LOWER_E
    ensures ParseValue([LOWER_D] + body + rest) == None
  {
    var s := [LOWER_D] + body + rest;
    assert s[1..] == body + rest;
    assert SpanDigits(s[1..]) == 0;
  }

  /** The text of a struct whose first field name starts with anything but a
      digit or `e` (every Rust identifier but `e...`) is not bencoding. */
  lemma StructTextRefused(name: string, fields: seq<Field>, rest: bytes)
    requires Encode(Struct(name, fields)).Ok?
    requires |fields| > 0
    requires var k := Utf8Str(fields[0].name); |k| > 0 && !IsDigit(k[0]) && k[0] != LOWER_E
    ensures ParseValue(Encode(Struct(name, fields)).value + rest) == None
  {
    var k := Utf8Str(fields[0].name);
    var head := EncodeField(fields[0]).value;
    var body := EncodeFields(fields).value;
    assert head[0] == k[0];
    assert body[0] == head[0];
    assert Encode(Struct(name, fields)).value + rest == [LOWER_D] + body + ([LOWER_E] + rest);
    DictTextRefused(body, [LOWER_E] + rest);
  }

  /** The text of a map whose first key text starts with anything but a digit
      or `e` is not bencoding. */
  lemma MapTextRefused(entries: seq<Entry>, rest: bytes)
    requires Encode(Map(entries)).Ok?
    requires |entries| > 0
    requires var k := EncodeKey(entries[0].key); k.Ok? && |k.value| > 0 && !IsDigit(k.value[0]) && k.value[0] != LOWER_E
    ensures ParseValue(Encode(Map(entries)).value + rest) == None
  {
    var k := EncodeKey(entries[0].key).value;
    var head := EncodeEntry(entries[0]).value;
    var body := EncodeEntries(entries).value;
    assert head[0] == k[0];
    assert body[0] == head[0];
    assert Encode(Map(entries)).value + rest == [LOWER_D] + body + ([LOWER_E] + rest);
    DictTextRefused(body, [LOWER_E] + rest);
  }

  /** Keys without a length prefix make struct text ambiguous: a field `a`
      holding the string `b` and a field `a1:b` holding `()` give one text. */
  lemma RawKeysAmbiguous()
    ensures Encode(Struct("S", [Field("a", Str("b"))])).Ok?
    ensures Encode(Struct("S", [Field("a", Str("b"))])) == Encode(Struct("S", [Field("a1:b", Unit)]))
  {
    var left := [Field("a", Str("b"))];
    var right := [Field("a1:b", Unit)];
    assert left[1..] == [] && right[1..] == [];
    var text: bytes := [97, 49, 58, 98];
    assert Utf8Str("a1:b") == text;
    assert Utf8Str("a") + StrFrame(Utf8Str("b")) == text;
    assert EncodeFields(left) == Ok(Utf8Str("a") + StrFrame(Utf8Str("b")) + []);
    assert EncodeFields(right) == Ok(Utf8Str("a1:b") + [] + []);
    assert Utf8Str("a") + StrFrame(Utf8Str("b")) + [] == text;
    assert Utf8Str("a1:b") + [] + [] == text;
  }

  /** A map key whose raw text looks like a bencode string is misread: the
      map `{"1:a": "b"}` is written as `d1:a1:be`, which a BEP 3 reader
      accepts as the different dictionary `{"a": "b"}`. */
  lemma MapKeyMisread(m: Value)
    requires m == Map([Entry(Str("1:a"), Str("b"))])
    ensures Encode(m).Ok?
    ensures Parse(Encode(m).value) == Some(BDict([BEntry([97], BStr([98]))]))
  {
    var text: bytes := [100, 49, 58, 97, 49, 58, 98, 101];
    MisreadMapText(m);
    MisreadTextParses(text);
  }

  /** The encoder's text for `{"1:a": "b"}`: `d1:a1:be`. */
  lemma MisreadMapText(m: Value)
    requires m == Map([Entry(Str("1:a"), Str("b"))])
    ensures Encode(m) == Ok([100, 49, 58, 97, 49, 58, 98, 101])
  {
    var entries := [Entry(Str("1:a"), Str("b"))];
    assert Utf8Str("1:a") == [49, 58, 97];
    assert Utf8Str("b") == [98];
    assert Decimal(1) == [49];
    assert StrFrame([98]) == [49, 58, 98];
    assert EncodeKey(Str("1:a")) == Ok([49, 58, 97]);
    assert Encode(Str("b")) == Ok([49, 58, 98]);
    assert entries[1..] == [];
    assert EncodeEntries(entries) == Ok([49, 58, 97] + [49, 58, 98] + []);
    assert Encode(m) == Ok([LOWER_D] + ([49, 58, 97] + [49, 58, 98] + []) + [LOWER_E]);
    assert [LOWER_D] + ([49, 58, 97] + [49, 58, 98] + []) + [LOWER_E] == [100, 49, 58, 97, 49, 58, 98, 101];
  }

  /** `d1:a1:be` reads as the dictionary `{"a": "b"}`. */
  lemma MisreadTextParses(text: bytes)
    requires text == [100, 49, 58, 97, 49, 58, 98, 101]
    ensures Parse(text) == Some(BDict([BEntry([97], BStr([98]))]))
  {
    assert Decimal(1) == [49];
    assert StrFrame([97]) == [49, 58, 97] && StrFrame([98]) == [49, 58, 98];
    var afterKey: bytes := [49, 58, 98, 101];
    assert text[1..] == StrFrame([97]) + afterKey;
    StringReadsBack([97], afterKey);
    assert afterKey == StrFrame([98]) + [LOWER_E];
    StrFrameReadsBack([98], [LOWER_E]);
    assert ParseEntries([LOWER_E]) == Some(([], []));
    assert ParseEntries(text[1..]) == Some(([BEntry([97], BStr([98]))] + [], []));
    assert [BEntry([97], BStr([98]))] + [] == [BEntry([97], BStr([98]))];
    assert text[0] == LOWER_D;
    assert ParseValue(text) == Some((BDict([BEntry([97], BStr([98]))]), []));
  }
}
