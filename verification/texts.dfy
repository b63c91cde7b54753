/** The texts of the repository's unit-test examples, as bytes: the ASCII
    spelling of each expected output and of each string the examples hold. */
module ExampleTexts {
  import opened Bytes

  /** The bytes of ASCII text: one per character, the character's code
      (a character outside ASCII, which no example uses, becomes 0). */
  function Ascii(s: string): (r: bytes)
    ensures |r| == |s|
  {
    seq(|s|, i requires 0 <= i < |s| => if s[i] as int < 0x80 then s[i] as int as byte else 0)
  }

  /** For ASCII text, the UTF-8 bytes of the Rust string are its ASCII bytes,
      so the expected outputs below are the tests' expected strings. */
  lemma {:induction false} AsciiIsUtf8(s: string)
    requires forall i | 0 <= i < |s| :: s[i] as int < 0x80
    ensures Utf8Str(s) == Ascii(s)
    decreases |s|
  {
    if |s| > 0 {
      AsciiIsUtf8(s[1..]);
    }
  }

  // The bytes of each string the examples' values hold.
  lemma HelloworldText(s: string)
    requires s == "helloworld"
    ensures Utf8Str(s) == [104, 101, 108, 108, 111, 119, 111, 114, 108, 100]
  {
    assert s == "hello" + "world";
    Utf8StrAppend("hello", "world");
    HelloText();
    WorldText();
  }

  lemma HelloText()
    ensures Utf8Str("hello") == [104, 101, 108, 108, 111]
  {
  }

  lemma WorldText()
    ensures Utf8Str("world") == [119, 111, 114, 108, 100]
  {
  }

  lemma AText()
    ensures Utf8Str("a") == [97]
  {
  }

  lemma BText()
    ensures Utf8Str("b") == [98]
  {
  }

  lemma OkText()
    ensures Utf8Str("ok") == [111, 107]
  {
  }

  lemma TestText()
    ensures Utf8Str("test") == [116, 101, 115, 116]
  {
  }

  lemma NameText()
    ensures Utf8Str("name") == [110, 97, 109, 101]
  {
  }

  lemma SurnameText()
    ensures Utf8Str("surname") == [115, 117, 114, 110, 97, 109, 101]
  {
  }

  lemma JohnText()
    ensures Utf8Str("john") == [106, 111, 104, 110]
  {
  }

  lemma DoeText()
    ensures Utf8Str("doe") == [100, 111, 101]
  {
  }

  /** The string frame around `helloworld` spells `10:helloworld`. */
  lemma HelloworldFrameText()
    ensures [49, 48] + [COLON] + [104, 101, 108, 108, 111, 119, 111, 114, 108, 100] == Ascii("10:helloworld")
  {
    assert Ascii("10:helloworld") == [49, 48, 58, 104, 101, 108, 108, 111, 119, 111, 114, 108, 100];
  }

  /** The list frame around the vector's body spells `li0ei1ei2ei3ee`. */
  lemma VecText()
    ensures [LOWER_L] + ([105, 48, 101] + ([105, 49, 101] + ([105, 50, 101] + [105, 51, 101]))) + [LOWER_E] == Ascii("li0ei1ei2ei3ee")
  {
    assert Ascii("li0ei1ei2ei3ee") == [108, 105, 48, 101, 105, 49, 101, 105, 50, 101, 105, 51, 101, 101];
  }

  /** The dictionary frame around the body with `a` first spells `da2:okb4:teste`. */
  lemma MapTextAB()
    ensures [LOWER_D] + ([97] + [50, 58, 111, 107] + ([98] + [52, 58, 116, 101, 115, 116] + [])) + [LOWER_E] == Ascii("da2:okb4:teste")
  {
    assert Ascii("da2:okb4:teste") == [100, 97, 50, 58, 111, 107, 98, 52, 58, 116, 101, 115, 116, 101];
  }

  /** The dictionary frame around the body with `b` first spells `db4:testa2:oke`. */
  lemma MapTextBA()
    ensures [LOWER_D] + ([98] + [52, 58, 116, 101, 115, 116] + ([97] + [50, 58, 111, 107] + [])) + [LOWER_E] == Ascii("db4:testa2:oke")
  {
    assert Ascii("db4:testa2:oke") == [100, 98, 52, 58, 116, 101, 115, 116, 97, 50, 58, 111, 107, 101];
  }

  /** ASCII spelling distributes over concatenation. */
  lemma AsciiAppend(s: string, t: string)
    ensures Ascii(s + t) == Ascii(s) + Ascii(t)
  {
    assert forall i | 0 <= i < |s + t| :: (s + t)[i] == if i < |s| then s[i] else t[i - |s|];
  }

  /** The dictionary frame around the person's body spells `dname4:johnsurname3:doee`. */
  lemma PersonText()
    ensures [LOWER_D] + ([110, 97, 109, 101] + [52, 58, 106, 111, 104, 110] + ([115, 117, 114, 110, 97, 109, 101] + [51, 58, 100, 111, 101] + [])) + [LOWER_E] == Ascii("dname4:johnsurname3:doee")
  {
    var left: bytes, right: bytes := [110, 97, 109, 101] + [52, 58, 106, 111, 104, 110], [115, 117, 114, 110, 97, 109, 101] + [51, 58, 100, 111, 101] + [];
    assert [LOWER_D] + (left + right) + [LOWER_E] == ([LOWER_D] + left) + (right + [LOWER_E]);
    PersonTextHalves();
    assert "dname4:johnsurname3:doee" == "dname4:john" + "surname3:doee";
    AsciiAppend("dname4:john", "surname3:doee");
  }

  /** The two halves of the person's text, `dname4:john` and `surname3:doee`. */
  lemma PersonTextHalves()
    ensures [LOWER_D] + ([110, 97, 109, 101] + [52, 58, 106, 111, 104, 110]) == Ascii("dname4:john")
    ensures [115, 117, 114, 110, 97, 109, 101] + [51, 58, 100, 111, 101] + [] + [LOWER_E] == Ascii("surname3:doee")
  {
    assert Ascii("dname4:john") == [100, 110, 97, 109, 101, 52, 58, 106, 111, 104, 110];
    assert Ascii("surname3:doee") == [115, 117, 114, 110, 97, 109, 101, 51, 58, 100, 111, 101, 101];
  }
}
