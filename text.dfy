/**
 * The .NET string and integer primitives the scan depends on:
 * `string.IsNullOrWhiteSpace`, `int.TryParse` (32-bit, default number style)
 * and `int.ToString()`, which turns an app id into a tree-node name.
 */
module Text {
  import opened Wrappers

  const MinInt32: int := -0x8000_0000
  const MaxInt32: int := 0x7FFF_FFFF

  predicate InInt32(n: int) {
    MinInt32 <= n <= MaxInt32
  }

  /** `char.IsWhiteSpace`: the Unicode space, line and paragraph separators,
      U+0009..U+000D and U+0085. */
  predicate IsWhiteSpace(c: char) {
    || c == ' ' || ('\t' <= c <= '\r') || c == '\U{85}' || c == '\U{A0}' || c == '\U{1680}'
    || ('\U{2000}' <= c <= '\U{200A}') || c == '\U{2028}' || c == '\U{2029}'
    || c == '\U{202F}' || c == '\U{205F}' || c == '\U{3000}'
  }

  /** Every character is white space (true of the empty string). */
  predicate IsBlank(s: string) {
    forall i | 0 <= i < |s| :: IsWhiteSpace(s[i])
  }

  /** `string.IsNullOrWhiteSpace`, with `null` as `None`. */
  predicate IsNullOrWhiteSpace(s: Option<string>) {
    s.None? || IsBlank(s.value)
  }

  predicate IsDigit(c: char) {
    '0' <= c <= '9'
  }

  predicate AllDigits(s: string) {
    forall i | 0 <= i < |s| :: IsDigit(s[i])
  }

  function DigitValue(c: char): (d: nat)
    requires IsDigit(c)
    ensures d < 10
  {
    c as int - '0' as int
  }

  function DigitChar(d: nat): (c: char)
    requires d < 10
    ensures IsDigit(c) && DigitValue(c) == d
  {
    ('0' as int + d) as char
  }

  /** The decimal value of a string of digits, most significant first. */
  function DigitsValue(s: string): nat
    requires AllDigits(s)
  {
    if s == [] then 0 else DigitsValue(s[..|s| - 1]) * 10 + DigitValue(s[|s| - 1])
  }

  /** The white space `int.TryParse` skips before and after the number
      (`NumberStyles.AllowLeadingWhite`, `AllowTrailingWhite`). */
  predicate IsNumberWhite(c: char) {
    c == ' ' || '\t' <= c <= '\r'
  }

  /** `s` without its leading number white space. */
  function TrimStart(s: string): string
  {
    if s != [] && IsNumberWhite(s[0]) then TrimStart(s[1..]) else s
  }

  /** `s` without its trailing number white space. */
  function TrimEnd(s: string): string
  {
    if s != [] && IsNumberWhite(s[|s| - 1]) then TrimEnd(s[..|s| - 1]) else s
  }

  /** `int.TryParse(s, out n)` with the default style `NumberStyles.Integer` and
      an invariant culture: optional white space, an optional `-` or `+`,
      at least one decimal digit, optional white space, and a value that
      fits in 32 bits. */
  function TryParseInt32(s: string): (r: Option<int>)
    ensures r.Some? ==> InInt32(r.value)
  {
    var t := TrimEnd(TrimStart(s));
    var signed := t != [] && (t[0] == '-' || t[0] == '+');
    var digits := if signed then t[1..] else t;
    if digits == [] || !AllDigits(digits) then None
    else
      var v: int := if signed && t[0] == '-' then -(DigitsValue(digits) as int) else DigitsValue(digits);
      if InInt32(v) then Some(v) else None
  }

  /** The decimal digits of `n`, without leading zeros. */
  function NatToDigits(n: nat): string
  {
    if n < 10 then [DigitChar(n)] else NatToDigits(n / 10) + [DigitChar(n % 10)]
  }

  /** `int.ToString()` (invariant culture): `-` and the digits of the magnitude. */
  function Int32ToString(n: int): string
  {
    if n < 0 then "-" + NatToDigits(-n) else NatToDigits(n)
  }

  lemma {:induction false} NatToDigitsValue(n: nat)
    ensures NatToDigits(n) != [] && AllDigits(NatToDigits(n))
    ensures DigitsValue(NatToDigits(n)) == n
  {
    var s := NatToDigits(n);
    if n >= 10 {
      NatToDigitsValue(n / 10);
      assert s[..|s| - 1] == NatToDigits(n / 10);
    }
  }

  /** Formatting a 32-bit integer and parsing it back gives the integer:
      this is what lets a tree-node name stand for an app id. */
  lemma {:induction false} ParseInt32ToString(n: int)
    requires InInt32(n)
    ensures TryParseInt32(Int32ToString(n)) == Some(n)
  {
    var m: nat := if n < 0 then -n else n;
    NatToDigitsValue(m);
    var s := Int32ToString(n);
    var d := NatToDigits(m);
    assert s != [] && IsDigit(s[|s| - 1]);
    assert s[0] == '-' || IsDigit(s[0]);
    assert TrimStart(s) == s;
    assert TrimEnd(s) == s;
    if n < 0 {
      assert s[1..] == d;
    }
  }

  /** Distinct 32-bit integers have distinct decimal forms. */
  lemma Int32ToStringInjective(a: int, b: int)
    requires InInt32(a) && InInt32(b)
    ensures Int32ToString(a) == Int32ToString(b) <==> a == b
  {
    ParseInt32ToString(a);
    ParseInt32ToString(b);
  }
}
