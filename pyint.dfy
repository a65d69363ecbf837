/**
 * Python's `int(text)` on ASCII text: surrounding whitespace is ignored, then an optional
 * '+' or '-' and decimal digits, where a single '_' may separate two digits. Anything else
 * raises ValueError, modelled as None, and so does a literal of more than 4300 digits
 * (the default `sys.get_int_max_str_digits()` of Python 3.11 and later).
 */
module PyInt {
  import opened Wrappers
  import Text

  predicate IsDigit(c: char) {
    '0' <= c <= '9'
  }

  function DigitValue(c: char): (v: nat)
    requires IsDigit(c)
    ensures v < 10
  {
    c as int - '0' as int
  }

  function DigitChar(v: nat): (c: char)
    requires v < 10
    ensures IsDigit(c) && DigitValue(c) == v
  {
    ('0' as int + v) as char
  }

  predicate DigitsOrUnderscores(s: string) {
    forall k :: 0 <= k < |s| ==> IsDigit(s[k]) || s[k] == '_'
  }

  /**
   * The digit part Python accepts: digits and underscores, starting and ending with a digit,
   * every underscore following a digit (so each '_' stands alone between two digits).
   */
  predicate WellFormedDigits(s: string) {
    && |s| > 0
    && DigitsOrUnderscores(s)
    && IsDigit(s[0]) && IsDigit(s[|s| - 1])
    && forall k :: 0 < k < |s| && s[k] == '_' ==> IsDigit(s[k - 1])
  }

  /** The value of a digit string, the underscores being only separators. */
  function DigitsValue(s: string): nat
    requires DigitsOrUnderscores(s)
  {
    if s == [] then 0
    else if s[|s| - 1] == '_' then DigitsValue(s[..|s| - 1])
    else 10 * DigitsValue(s[..|s| - 1]) + DigitValue(s[|s| - 1])
  }

  /** The default limit on the number of digits `int()` converts from decimal text. */
  const MaxStrDigits: nat := 4300

  /** The number of digits in s, the underscores not counted. */
  function DigitCount(s: string): nat {
    if s == [] then 0
    else DigitCount(s[..|s| - 1]) + (if IsDigit(s[|s| - 1]) then 1 else 0)
  }

  /** The digit part is accepted: well formed and within the digit limit. */
  predicate Convertible(s: string) {
    WellFormedDigits(s) && DigitCount(s) <= MaxStrDigits
  }

  /** `int(text)`: Some(value) when the text is an integer literal, None when Python raises. */
  function Parse(text: string): Option<int> {
    var t := Text.Strip(text);
    if |t| > 0 && (t[0] == '+' || t[0] == '-') then
      if Convertible(t[1..]) then
        var magnitude: int := DigitsValue(t[1..]);
        Some(if t[0] == '-' then -magnitude else magnitude)
      else None
    else if Convertible(t) then Some(DigitsValue(t))
    else None
  }

  /** The decimal digits of n, most significant first (`str(n)` for n >= 0). */
  function ShowNat(n: nat): (s: string)
    ensures |s| > 0 && forall k :: 0 <= k < |s| ==> IsDigit(s[k])
  {
    if n < 10 then [DigitChar(n)] else ShowNat(n / 10) + [DigitChar(n % 10)]
  }

  /** `str(n)`. */
  function Show(n: int): string {
    if n < 0 then "-" + ShowNat(-n) else ShowNat(n)
  }

  lemma {:induction false} DigitsOfShowNat(n: nat)
    ensures DigitsValue(ShowNat(n)) == n
  {
    if n >= 10 {
      var s := ShowNat(n);
      assert s[..|s| - 1] == ShowNat(n / 10);
      DigitsOfShowNat(n / 10);
    }
  }

  /** A string of digits only has as many digits as characters. */
  lemma {:induction false} DigitCountOfDigits(s: string)
    requires forall k :: 0 <= k < |s| ==> IsDigit(s[k])
    ensures DigitCount(s) == |s|
  {
    if s != [] {
      DigitCountOfDigits(s[..|s| - 1]);
    }
  }

  /** `int(str(n)) == n` for every integer n of at most 4300 digits. */
  lemma ParseShow(n: int)
    requires |ShowNat(if n < 0 then -n else n)| <= MaxStrDigits
    ensures Parse(Show(n)) == Some(n)
  {
    var s := Show(n);
    var digits := ShowNat(if n < 0 then -n else n);
    assert s[|s| - 1] == digits[|digits| - 1];
    Text.StripOfStripped(s);
    DigitsOfShowNat(if n < 0 then -n else n);
    DigitCountOfDigits(digits);
    if n < 0 {
      assert s[1..] == digits;
    }
  }

  /** A printed integer of more than 4300 digits is refused: `int()` raises ValueError. */
  lemma ParseRefusesLong(n: int)
    requires |ShowNat(if n < 0 then -n else n)| > MaxStrDigits
    ensures Parse(Show(n)) == None
  {
    var s := Show(n);
    var digits := ShowNat(if n < 0 then -n else n);
    assert s[|s| - 1] == digits[|digits| - 1];
    Text.StripOfStripped(s);
    DigitCountOfDigits(digits);
    if n < 0 {
      assert s[1..] == digits;
    }
  }
}
