/** Text and byte helpers the feed poller relies on: Rust's `{}` formatting of
    unsigned integers, the UTF-8 byte length that `String::len` reports, the
    bytes of an HTTP header value and the checks the `http` crate applies to
    them. Each formatter comes with the parser a reader of the artifacts would
    use, so that round trips can be stated. */
module Text {
  import opened Wrappers

  newtype byte = b: int | 0 <= b < 256

  // ---------------------------------------------------------------------------
  // Decimal numbers, as written by `format!("{}", n)` for an unsigned integer

  predicate IsDigit(c: char) {
    '0' <= c <= '9'
  }

  predicate AllDigits(s: string) {
    forall i :: 0 <= i < |s| ==> IsDigit(s[i])
  }

  function DigitChar(d: nat): (c: char)
    requires d < 10
    ensures IsDigit(c)
  {
    ('0' as int + d) as char
  }

  function DigitValue(c: char): (d: nat)
    requires IsDigit(c)
    ensures d < 10 && DigitChar(d) == c
  {
    c as int - '0' as int
  }

  /** The decimal rendering of `n`: no sign, no leading zero, "0" for zero. */
  function Decimal(n: nat): (s: string)
    ensures |s| > 0 && AllDigits(s)
    ensures |s| > 1 ==> s[0] != '0'
    decreases n
  {
    if n < 10 then [DigitChar(n)] else Decimal(n / 10) + [DigitChar(n % 10)]
  }

  function DigitsValue(s: string): nat
    requires AllDigits(s)
  {
    if s == [] then 0 else DigitsValue(s[..|s| - 1]) * 10 + DigitValue(s[|s| - 1])
  }

  /** Reads back a non-empty run of decimal digits. */
  function ParseDecimal(s: string): (r: Option<nat>)
    ensures r.Some? <==> |s| > 0 && AllDigits(s)
  {
    if |s| > 0 && AllDigits(s) then Some(DigitsValue(s)) else None
  }

  lemma {:induction false} DecimalRoundTrip(n: nat)
    ensures ParseDecimal(Decimal(n)) == Some(n)
    decreases n
  {
    if n < 10 {
      var t := Decimal(n);
      assert t == [DigitChar(n)] && t[..0] == [];
      assert DigitValue(DigitChar(n)) == n;
      assert DigitsValue(t) == DigitsValue([]) * 10 + n;
    } else {
      var s := Decimal(n / 10);
      var t := s + [DigitChar(n % 10)];
      assert t[..|t| - 1] == s;
      assert DigitValue(DigitChar(n % 10)) == n % 10;
      DecimalRoundTrip(n / 10);
      assert DigitsValue(t) == DigitsValue(s) * 10 + n % 10;
    }
  }

  // ---------------------------------------------------------------------------
  // Splitting at the first occurrence of a separator

  /** Splits `s` around the first `sep`; `None` when `sep` does not occur. */
  function SplitAt(s: string, sep: char): (r: Option<(string, string)>)
    ensures r.None? <==> sep !in s
    ensures r.Some? ==> s == r.value.0 + [sep] + r.value.1 && sep !in r.value.0
  {
    if s == [] then None
    else if s[0] == sep then Some(([], s[1..]))
    else
      match SplitAt(s[1..], sep)
      case None => None
      case Some(parts) => Some(([s[0]] + parts.0, parts.1))
  }

  lemma {:induction false} SplitAtFirst(a: string, sep: char, b: string)
    requires sep !in a
    ensures SplitAt(a + [sep] + b, sep) == Some((a, b))
  {
    var s := a + [sep] + b;
    if a != [] {
      assert s[0] == a[0] && s[1..] == a[1..] + [sep] + b;
      SplitAtFirst(a[1..], sep, b);
      assert [a[0]] + a[1..] == a;
    } else {
      assert s[1..] == b;
    }
  }

  // ---------------------------------------------------------------------------
  // UTF-8 length, as `String::len` counts it

  function Utf8Width(c: char): (w: nat)
    ensures 1 <= w <= 4
  {
    if c as int < 0x80 then 1
    else if c as int < 0x800 then 2
    else if c as int < 0x10000 then 3
    else 4
  }

  /** The number of bytes in the UTF-8 encoding of `s`. */
  function Utf8Length(s: string): (n: nat)
    ensures |s| <= n <= 4 * |s|
    ensures (forall i :: 0 <= i < |s| ==> s[i] as int < 0x80) ==> n == |s|
  {
    if s == [] then 0 else Utf8Width(s[0]) + Utf8Length(s[1..])
  }

  // ---------------------------------------------------------------------------
  // Header values

  /** A code that `HeaderValue::to_str` accepts: a tab or visible ASCII. */
  predicate VisibleCode(code: int) {
    code == 9 || (32 <= code < 127)
  }

  predicate VisibleAscii(b: byte) {
    VisibleCode(b as int)
  }

  predicate IsVisibleText(s: string) {
    forall i :: 0 <= i < |s| ==> VisibleCode(s[i] as int)
  }

  /** A string that `HeaderValue::from_str` accepts: no control character
      other than a tab, and no DEL; bytes of non-ASCII characters are allowed. */
  predicate ValidHeaderValue(s: string) {
    forall i :: 0 <= i < |s| ==> s[i] as int == 9 || (32 <= s[i] as int && s[i] as int != 127)
  }

  /** `HeaderValue::to_str`: the value as text when every byte is visible ASCII. */
  function HeaderText(v: seq<byte>): (r: Option<string>)
    ensures r.Some? <==> forall i :: 0 <= i < |v| ==> VisibleAscii(v[i])
    ensures r.Some? ==> |r.value| == |v| && forall i :: 0 <= i < |v| ==> r.value[i] as int == v[i] as int
  {
    if forall i :: 0 <= i < |v| ==> VisibleAscii(v[i])
    then Some(seq(|v|, i requires 0 <= i < |v| => v[i] as int as char))
    else None
  }

  /** The bytes a visible-ASCII string occupies on the wire. */
  function AsciiBytes(s: string): (v: seq<byte>)
    requires IsVisibleText(s)
    ensures |v| == |s| && forall i :: 0 <= i < |s| ==> VisibleAscii(v[i])
  {
    seq(|s|, i requires 0 <= i < |s| => s[i] as int as byte)
  }

  lemma AsciiBytesRoundTrip(s: string)
    requires IsVisibleText(s)
    ensures HeaderText(AsciiBytes(s)) == Some(s)
  {
    var r := HeaderText(AsciiBytes(s));
    assert r.Some?;
    assert forall i :: 0 <= i < |s| ==> r.value[i] as int == s[i] as int;
    assert forall i :: 0 <= i < |s| ==> r.value[i] == s[i];
    assert r.value == s;
  }
}
