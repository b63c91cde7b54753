/** A reader for bencoding as section "bencoding" of BEP 3 (The BitTorrent
    Protocol Specification) defines it: integers `i<decimal>e` without leading
    zeros or `-0`, strings `<length>:<bytes>`, lists `l<items>e` and
    dictionaries `d<string key><value>...e`. It is the independent reference
    against which the encoder's output is judged; it does not check that
    dictionary keys are sorted. */
module Bencode {
  import opened Bytes

  datatype BValue =
    | BInt(n: int)
    | BStr(s: bytes)
    | BList(items: seq<BValue>)
    | BDict(entries: seq<BEntry>)

  datatype BEntry = BEntry(key: bytes, value: BValue)

  /** A reader step's outcome: `None` when the text is not well formed;
      usable with `:-`. */
  datatype Option<+T> = None | Some(value: T) {

    predicate IsFailure() {
      None?
    }

    function PropagateFailure<U>(): Option<U>
      requires None?
    {
      None
    }

    function Extract(): T
      requires Some?
    {
      value
    }
  }

  /** The number of leading digit bytes of `s`. */
  function SpanDigits(s: bytes): (n: nat)
    ensures n <= |s|
    ensures AllDigits(s[..n])
    ensures n < |s| ==> !IsDigit(s[n])
    decreases |s|
  {
    if |s| == 0 || !IsDigit(s[0]) then 0
    else
      var k := SpanDigits(s[1..]);
      assert s[..1 + k] == [s[0]] + s[1..][..k];
      1 + k
  }

  /** The body of an integer, after its `i`: canonical digits, optionally
      negated (but not `-0`), then `e`. */
  function ParseInt(s: bytes): (r: Option<(BValue, bytes)>)
    ensures r.Some? ==> |r.value.1| < |s|
  {
    var negative := |s| > 0 && s[0] == MINUS;
    var start := if negative then 1 else 0;
    var n := SpanDigits(s[start..]);
    var digits := s[start..start + n];
    if CanonicalDigits(digits) && start + n < |s| && s[start + n] == LOWER_E
       && !(negative && digits == [ZERO])
    then
      var magnitude: int := DigitsValue(digits);
      Some((BInt(if negative then -magnitude else magnitude), s[start + n + 1..]))
    else None
  }

  /** A string `<length>:<bytes>` at the start of `s`. */
  function ParseString(s: bytes): (r: Option<(bytes, bytes)>)
    ensures r.Some? ==> |r.value.1| < |s|
  {
    var n := SpanDigits(s);
    var digits := s[..n];
    if CanonicalDigits(digits) && n < |s| && s[n] == COLON then
      var len := DigitsValue(digits);
      if n + 1 + len <= |s| then Some((s[n + 1..n + 1 + len], s[n + 1 + len..]))
      else None
    else None
  }

  /** One value at the start of `s`, and what follows it. */
  function ParseValue(s: bytes): (r: Option<(BValue, bytes)>)
    ensures r.Some? ==> |r.value.1| < |s|
    decreases |s|, 0
  {
    if |s| == 0 then None
    else if s[0] == LOWER_I then ParseInt(s[1..])
    else if s[0] == LOWER_L then
      var (items, rest) :- ParseItems(s[1..]);
      Some((BList(items), rest))
    else if s[0] == LOWER_D then
      var (entries, rest) :- ParseEntries(s[1..]);
      Some((BDict(entries), rest))
    else if IsDigit(s[0]) then
      var (text, rest) :- ParseString(s);
      Some((BStr(text), rest))
    else None
  }

  /** List items up to and including the closing `e`. */
  function ParseItems(s: bytes): (r: Option<(seq<BValue>, bytes)>)
    ensures r.Some? ==> |r.value.1| < |s|
    decreases |s|, 1
  {
    if |s| == 0 then None
    else if s[0] == LOWER_E then Some(([], s[1..]))
    else
      var (item, afterItem) :- ParseValue(s);
      var (items, rest) :- ParseItems(afterItem);
      Some(([item] + items, rest))
  }

  /** Dictionary entries, each a string key then a value, up to and
      including the closing `e`. */
  function ParseEntries(s: bytes): (r: Option<(seq<BEntry>, bytes)>)
    ensures r.Some? ==> |r.value.1| < |s|
    decreases |s|, 1
  {
    if |s| == 0 then None
    else if s[0] == LOWER_E then Some(([], s[1..]))
    else
      var (key, afterKey) :- ParseString(s);
      var (value, afterValue) :- ParseValue(afterKey);
      var (entries, rest) :- ParseEntries(afterValue);
      Some(([BEntry(key, value)] + entries, rest))
  }

  /** A complete bencoded text: one value and nothing after it. */
  function Parse(s: bytes): Option<BValue> {
    match ParseValue(s)
    case Some((v, rest)) => if rest == [] then Some(v) else None
    case None => None
  }
}
