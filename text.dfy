/** Character classes and decimal numerals, as the Python helpers see them on ASCII text. */
module Text {

  predicate IsDigit(c: char) { '0' <= c <= '9' }

  predicate IsUpper(c: char) { 'A' <= c <= 'Z' }

  predicate IsLower(c: char) { 'a' <= c <= 'z' }

  /** `[a-zA-Z]`, and `str.isalpha` restricted to ASCII. */
  predicate IsAsciiLetter(c: char) { IsUpper(c) || IsLower(c) }

  /** A regular-expression word character (`\w`) restricted to ASCII. */
  predicate IsWordChar(c: char) { IsAsciiLetter(c) || IsDigit(c) || c == '_' }

  /** The characters `\s` matches in a Python `str` pattern (those for which `str.isspace` holds). */
  predicate IsSpace(c: char)
  {
    || '\t' <= c <= '\r'
    || '\U{1C}' <= c <= ' '
    || c == '\U{85}' || c == '\U{A0}' || c == '\U{1680}'
    || '\U{2000}' <= c <= '\U{200A}'
    || c == '\U{2028}' || c == '\U{2029}' || c == '\U{202F}' || c == '\U{205F}' || c == '\U{3000}'
  }

  /** `str.lower` on one ASCII character. */
  function ToLower(c: char): (r: char)
    ensures IsUpper(c) ==> IsLower(r) && r as int - c as int == 32
    ensures !IsUpper(c) ==> r == c
  {
    if IsUpper(c) then (c as int + 32) as char else c
  }

  function DigitChar(d: nat): (c: char)
    requires d < 10
    ensures IsDigit(c)
  {
    ('0' as int + d) as char
  }

  function DigitValue(c: char): (d: nat)
    requires IsDigit(c)
    ensures d < 10 && DigitChar(d) == c
  {
    c as int - '0' as int
  }

  predicate AllDigits(s: string) { forall i :: 0 <= i < |s| ==> IsDigit(s[i]) }

  function Pow10(n: nat): (p: nat)
    ensures p >= 1
  {
    if n == 0 then 1 else 10 * Pow10(n - 1)
  }

  /** `int(s)` for a string of decimal digits. */
  function ValueOf(s: string): (v: nat)
    requires AllDigits(s)
    ensures v < Pow10(|s|)
  {
    if s == [] then 0 else ValueOf(s[..|s| - 1]) * 10 + DigitValue(s[|s| - 1])
  }

  /** The `width` low-order decimal digits of `n`, zero-padded: `"%0<width>d" % n` when `n` fits. */
  function PadDigits(n: nat, width: nat): (s: string)
    ensures |s| == width && AllDigits(s)
  {
    if width == 0 then [] else PadDigits(n / 10, width - 1) + [DigitChar(n % 10)]
  }

  /** `str(n)` for a natural number: its shortest decimal numeral. */
  function Decimal(n: nat): (s: string)
    ensures |s| >= 1 && AllDigits(s)
    ensures n > 0 ==> s[0] != '0'
  {
    if n < 10 then [DigitChar(n)] else Decimal(n / 10) + [DigitChar(n % 10)]
  }

  /** Reading back a zero-padded numeral gives the number, when it fits in the width. */
  lemma {:induction false} ValueOfPadDigits(n: nat, width: nat)
    requires n < Pow10(width)
    ensures ValueOf(PadDigits(n, width)) == n
  {
    if width > 0 {
      var s := PadDigits(n, width);
      assert s[..|s| - 1] == PadDigits(n / 10, width - 1);
      ValueOfPadDigits(n / 10, width - 1);
    }
  }

  /** Reading back `str(n)` gives `n`. */
  lemma {:induction false} ValueOfDecimal(n: nat)
    ensures ValueOf(Decimal(n)) == n
  {
    if n >= 10 {
      var s := Decimal(n);
      assert s[..|s| - 1] == Decimal(n / 10);
      ValueOfDecimal(n / 10);
    }
  }

  /** Zero-padding a multiple of 1000 to six digits is padding the quotient to three and appending "000". */
  lemma PadDigitsThousands(n: nat)
    ensures PadDigits(n * 1000, 6) == PadDigits(n, 3) + "000"
  {
    assert n * 1000 / 10 == n * 100 && n * 1000 % 10 == 0;
    assert n * 100 / 10 == n * 10 && n * 100 % 10 == 0;
    assert n * 10 / 10 == n && n * 10 % 10 == 0;
    assert PadDigits(n * 10, 4) == PadDigits(n, 3) + "0";
    assert PadDigits(n * 100, 5) == PadDigits(n * 10, 4) + "0";
    assert PadDigits(n * 1000, 6) == PadDigits(n * 100, 5) + "0";
  }
}
