/**
 * The three JavaScript text primitives the game relies on to encode a board
 * position as a string and back: `String(n)` for an integer, `s.split(c)`, and
 * `parseInt(s)` (decimal, optional leading minus, stops at the first non-digit).
 * Only what the game's keys can contain is modelled: no exponent notation of
 * `String(n)` for magnitudes from 1e21 on, and no `0x` prefix in `parseInt`.
 */
module NumberText {
  import opened Wrappers

  predicate IsDigit(c: char) {
    '0' <= c <= '9'
  }

  predicate AllDigits(s: string) {
    forall k :: 0 <= k < |s| ==> IsDigit(s[k])
  }

  function DigitChar(d: nat): (c: char)
    requires d < 10
    ensures IsDigit(c) && DigitValue(c) == d
  {
    ('0' as int + d) as char
  }

  function DigitValue(c: char): (d: nat)
    requires IsDigit(c)
    ensures d < 10
  {
    c as int - '0' as int
  }

  /** Decimal text of a non-negative integer, without leading zeros. */
  function NatToDecimal(n: nat): (s: string)
    ensures |s| >= 1 && AllDigits(s)
  {
    if n < 10 then [DigitChar(n)] else NatToDecimal(n / 10) + [DigitChar(n % 10)]
  }

  /** `String(i)` for an integer `i`. */
  function IntToDecimal(i: int): (s: string)
    ensures |s| >= 1
  {
    if i < 0 then "-" + NatToDecimal(-i) else NatToDecimal(i)
  }

  /** The number a string of decimal digits denotes, most significant digit first. */
  function DigitsValue(s: string): nat
    requires AllDigits(s)
  {
    if |s| == 0 then 0 else DigitsValue(s[..|s| - 1]) * 10 + DigitValue(s[|s| - 1])
  }

  /** The longest prefix of `s` made of digits. */
  function DigitPrefix(s: string): (p: string)
    ensures AllDigits(p) && p <= s
  {
    if |s| == 0 || !IsDigit(s[0]) then "" else [s[0]] + DigitPrefix(s[1..])
  }

  /** `parseInt(s)` in base 10; `None` stands for NaN. Leading blanks, `+` and a `0x` prefix are not modelled. */
  function ParseInt(s: string): Option<int> {
    if |s| > 0 && s[0] == '-' then
      var digits := DigitPrefix(s[1..]);
      if digits == "" then None else Some(0 - DigitsValue(digits) as int)
    else
      var digits := DigitPrefix(s);
      if digits == "" then None else Some(DigitsValue(digits) as int)
  }

  /** `s.split(sep)`: the pieces between separators, so there is always at least one piece. */
  function Split(s: string, sep: char): (parts: seq<string>)
    ensures |parts| >= 1
  {
    if |s| == 0 then [""]
    else
      var rest := Split(s[1..], sep);
      if s[0] == sep then [""] + rest else [[s[0]] + rest[0]] + rest[1..]
  }

  lemma {:induction false} DecimalValue(n: nat)
    ensures DigitsValue(NatToDecimal(n)) == n
  {
    if n >= 10 {
      var s := NatToDecimal(n);
      assert s[..|s| - 1] == NatToDecimal(n / 10);
      DecimalValue(n / 10);
    }
  }

  lemma {:induction false} DigitPrefixOfDigits(s: string)
    requires AllDigits(s)
    ensures DigitPrefix(s) == s
  {
    if |s| > 0 {
      DigitPrefixOfDigits(s[1..]);
      assert [s[0]] + s[1..] == s;
    }
  }

  lemma ParseNatDecimal(n: nat)
    ensures ParseInt(NatToDecimal(n)) == Some(n as int)
  {
    var s := NatToDecimal(n);
    DigitPrefixOfDigits(s);
    DecimalValue(n);
    assert s[0] != '-';
  }

  /** `parseInt(String(i)) == i` for every integer. */
  lemma ParseIntOfDecimal(i: int)
    ensures ParseInt(IntToDecimal(i)) == Some(i)
  {
    if i < 0 {
      var s := IntToDecimal(i);
      var digits := NatToDecimal(-i);
      assert s[0] == '-' && s[1..] == digits;
      DigitPrefixOfDigits(digits);
      DecimalValue(-i);
      assert DigitPrefix(s[1..]) == digits && digits != "";
    } else {
      ParseNatDecimal(i);
    }
  }

  lemma {:induction false} SplitWithoutSeparator(s: string, sep: char)
    ensures sep !in s ==> Split(s, sep) == [s]
  {
    if |s| > 0 && sep !in s {
      SplitWithoutSeparator(s[1..], sep);
      assert [s[0]] + s[1..] == s;
    }
  }

  lemma {:induction false} SplitAtFirstSeparator(a: string, sep: char, b: string)
    requires sep !in a
    ensures Split(a + [sep] + b, sep) == [a] + Split(b, sep)
  {
    var s := a + [sep] + b;
    if |a| == 0 {
      assert s[1..] == b;
    } else {
      assert s[1..] == a[1..] + [sep] + b;
      SplitAtFirstSeparator(a[1..], sep, b);
      assert [a[0]] + a[1..] == a;
    }
  }
}
