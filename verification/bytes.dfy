/** Bytes and the two textual renderings the encoder writes into its buffer:
    UTF-8 text (what a Rust `String` holds) and base-ten integers (what
    Rust's `Display` prints for an integer). */
module Bytes {

  newtype byte = x: int | 0 <= x < 256
  type bytes = seq<byte>

  const ZERO: byte := 48      // '0'
  const NINE: byte := 57      // '9'
  const MINUS: byte := 45     // '-'
  const COLON: byte := 58     // ':'
  const LOWER_D: byte := 100  // 'd'
  const LOWER_E: byte := 101  // 'e'
  const LOWER_I: byte := 105  // 'i'
  const LOWER_L: byte := 108  // 'l'

  predicate IsDigit(b: byte) {
    ZERO <= b <= NINE
  }

  predicate AllDigits(s: bytes) {
    forall i | 0 <= i < |s| :: IsDigit(s[i])
  }

  /** Non-empty base-ten digits with no superfluous leading zero. */
  predicate CanonicalDigits(s: bytes) {
    |s| > 0 && AllDigits(s) && (s[0] == ZERO ==> |s| == 1)
  }

  function DigitByte(d: int): (b: byte)
    requires 0 <= d < 10
    ensures IsDigit(b)
    ensures b as int - ZERO as int == d
  {
    (ZERO as int + d) as byte
  }

  /** The value of a string of decimal digits, most significant first. */
  function DigitsValue(s: bytes): nat
    requires AllDigits(s)
    decreases |s|
  {
    if |s| == 0 then 0
    else 10 * DigitsValue(s[..|s| - 1]) + (s[|s| - 1] as int - ZERO as int)
  }

  /** The digits Rust's `Display` prints for a natural number. */
  function NatDigits(n: nat): (r: bytes)
    ensures CanonicalDigits(r)
    ensures r[0] == ZERO <==> n == 0
    decreases n
  {
    if n < 10 then [DigitByte(n)]
    else NatDigits(n / 10) + [DigitByte(n % 10)]
  }

  /** `format!("{}", n)` for any Rust integer `n`: a minus sign for negatives,
      then the canonical digits of the magnitude. */
  function Decimal(n: int): (r: bytes)
    ensures n >= 0 ==> CanonicalDigits(r)
    ensures n < 0 ==> |r| > 1 && r[0] == MINUS && CanonicalDigits(r[1..]) && r[1] != ZERO
  {
    if n < 0 then [MINUS] + NatDigits(-n) else NatDigits(n)
  }

  /** Reading the digits back gives the number: the rendering loses nothing. */
  lemma {:induction false} DigitsValueOfNatDigits(n: nat)
    ensures DigitsValue(NatDigits(n)) == n
    decreases n
  {
    if n >= 10 {
      var p := NatDigits(n / 10);
      var r := p + [DigitByte(n % 10)];
      assert NatDigits(n) == r;
      assert r[..|r| - 1] == p;
      DigitsValueOfNatDigits(n / 10);
    }
  }

  /** The UTF-8 encoding of one Unicode scalar value (a Rust `char`). */
  function Utf8Char(c: char): (r: bytes)
    ensures 1 <= |r| <= 4
    ensures |r| == 1 <==> c as int < 0x80
    ensures |r| == 2 <==> 0x80 <= c as int < 0x800
    ensures |r| == 3 <==> 0x800 <= c as int < 0x1_0000
    ensures |r| == 4 <==> 0x1_0000 <= c as int
    ensures |r| == 1 ==> r[0] as int == c as int
    ensures |r| == 2 ==> 0xC2 <= r[0] <= 0xDF
    ensures |r| == 3 ==> 0xE0 <= r[0] <= 0xEF
    ensures |r| == 4 ==> 0xF0 <= r[0] <= 0xF4
    ensures forall i | 1 <= i < |r| :: 0x80 <= r[i] < 0xC0
  {
    var n := c as int;
    if n < 0x80 then
      [n as byte]
    else if n < 0x800 then
      [(0xC0 + n / 0x40) as byte, (0x80 + n % 0x40) as byte]
    else if n < 0x1_0000 then
      [(0xE0 + n / 0x1000) as byte, (0x80 + (n / 0x40) % 0x40) as byte, (0x80 + n % 0x40) as byte]
    else
      [(0xF0 + n / 0x4_0000) as byte, (0x80 + (n / 0x1000) % 0x40) as byte,
       (0x80 + (n / 0x40) % 0x40) as byte, (0x80 + n % 0x40) as byte]
  }

  /** The scalar value a well-formed UTF-8 sequence of one to four bytes
      stands for: the payload bits of the lead byte, then six bits from each
      continuation byte. */
  function Utf8Decode(r: bytes): int
    requires 1 <= |r| <= 4
  {
    if |r| == 1 then r[0] as int
    else if |r| == 2 then (r[0] as int - 0xC0) * 0x40 + (r[1] as int - 0x80)
    else if |r| == 3 then
      ((r[0] as int - 0xE0) * 0x40 + (r[1] as int - 0x80)) * 0x40 + (r[2] as int - 0x80)
    else
      (((r[0] as int - 0xF0) * 0x40 + (r[1] as int - 0x80)) * 0x40 + (r[2] as int - 0x80)) * 0x40
        + (r[3] as int - 0x80)
  }

  /** Decoding the bytes written for a char gives the char back. */
  lemma Utf8CharDecodes(c: char)
    ensures Utf8Decode(Utf8Char(c)) == c as int
  {
    var n := c as int;
    if n >= 0x1_0000 {
      SixBitGroups(n);
    } else if n >= 0x800 {
      SixBitGroups(n);
    } else if n >= 0x80 {
      assert n == (n / 0x40) * 0x40 + n % 0x40;
    }
  }

  /** A natural number split into its low three groups of six bits and the
      rest, as the multi-byte UTF-8 forms lay them out. */
  lemma SixBitGroups(n: int)
    requires 0 <= n
    ensures n == (n / 0x1000 * 0x40 + (n / 0x40) % 0x40) * 0x40 + n % 0x40
    ensures n == ((n / 0x4_0000 * 0x40 + (n / 0x1000) % 0x40) * 0x40 + (n / 0x40) % 0x40) * 0x40 + n % 0x40
  {
    var a := n / 0x40;
    var b := a / 0x40;
    var d := b / 0x40;
    assert n == a * 0x40 + n % 0x40;
    assert a == b * 0x40 + a % 0x40;
    assert b == d * 0x40 + b % 0x40;
    assert b == n / 0x1000;
    assert d == n / 0x4_0000;
  }

  /** The bytes of a Rust `&str`: the UTF-8 encodings of its characters in order.
      Rust's `str::len` is the length of this sequence. */
  function Utf8Str(s: string): (r: bytes)
    ensures |r| >= |s|
    decreases |s|
  {
    if |s| == 0 then [] else Utf8Char(s[0]) + Utf8Str(s[1..])
  }

  /** Rust's `str::len` counts bytes: it equals the number of chars exactly
      when every char is ASCII. */
  lemma {:induction false} Utf8StrLength(s: string)
    ensures |Utf8Str(s)| == |s| <==> forall i | 0 <= i < |s| :: s[i] as int < 0x80
    decreases |s|
  {
    if |s| > 0 {
      Utf8StrLength(s[1..]);
      assert forall i | 1 <= i < |s| :: s[i] == s[1..][i - 1];
    }
  }

  /** Encoding distributes over concatenation, so `name + variant` has the
      bytes of `name` followed by those of `variant`. */
  lemma {:induction false} Utf8StrAppend(a: string, b: string)
    ensures Utf8Str(a + b) == Utf8Str(a) + Utf8Str(b)
    decreases |a|
  {
    if |a| > 0 {
      assert (a + b)[0] == a[0];
      assert (a + b)[1..] == a[1..] + b;
      Utf8StrAppend(a[1..], b);
      calc {
        Utf8Str(a + b);
        Utf8Char(a[0]) + Utf8Str(a[1..] + b);
        Utf8Char(a[0]) + (Utf8Str(a[1..]) + Utf8Str(b));
        (Utf8Char(a[0]) + Utf8Str(a[1..])) + Utf8Str(b);
        Utf8Str(a) + Utf8Str(b);
      }
    } else {
      assert a + b == b;
    }
  }

  /** A one-character string is encoded exactly as its character. */
  lemma Utf8StrSingleton(c: char)
    ensures Utf8Str([c]) == Utf8Char(c)
  {
    assert [c][1..] == [];
  }
}
