/**
 Python's `hex(v)` for a non-negative integer `v`: the text `"0x"` followed by
 the lowercase hexadecimal digits of `v`, most significant first, with no
 leading zeros (zero itself is the single digit `"0"`).
 */
module Hex {
  import opened Results

  predicate IsHexDigit(c: char) {
    ('0' <= c <= '9') || ('a' <= c <= 'f')
  }

  predicate AllHexDigits(s: string) {
    forall i :: 0 <= i < |s| ==> IsHexDigit(s[i])
  }

  /** The numeric value of one lowercase hexadecimal digit, if `c` is one. */
  function DigitValue(c: char): (d: Option<nat>)
    ensures d.Some? <==> IsHexDigit(c)
    ensures d.Some? ==> d.value < 16
  {
    if '0' <= c <= '9' then Some(c as int - '0' as int)
    else if 'a' <= c <= 'f' then Some(c as int - 'a' as int + 10)
    else None
  }

  /** The lowercase hexadecimal digit for `d`. */
  function Digit(d: int): (c: char)
    requires 0 <= d < 16
    ensures IsHexDigit(c)
    ensures DigitValue(c) == Some(d)
  {
    if d < 10 then ('0' as int + d) as char else ('a' as int + d - 10) as char
  }

  /** Every lowercase hexadecimal digit is the rendering of its own value. */
  lemma DigitOfValue(c: char)
    requires IsHexDigit(c)
    ensures Digit(DigitValue(c).value) == c
  {
  }

  /** The digits of `v` as `hex` prints them after the `"0x"` prefix. */
  function HexDigits(v: nat): (s: string)
    ensures |s| >= 1
    ensures AllHexDigits(s)
    ensures s[0] == '0' <==> v == 0
    decreases v
  {
    if v < 16 then [Digit(v)] else HexDigits(v / 16) + [Digit(v % 16)]
  }

  /**
   Python's `hex(v)` for `v >= 0`: "0x", then digits that denote `v`, with
   no leading zero unless `v` is 0 itself.
   */
  function PyHex(v: nat): (s: string)
    ensures |s| >= 3 && s[..2] == "0x"
    ensures AllHexDigits(s[2..]) && DigitsValue(s[2..]) == v
    ensures s[2] == '0' ==> |s| == 3
  {
    HexDigitsRoundTrip(v);
    "0x" + HexDigits(v)
  }

  /** The number a string of hexadecimal digits denotes, most significant first. */
  function DigitsValue(s: string): nat
    requires AllHexDigits(s)
    decreases |s|
  {
    if |s| == 0 then 0
    else 16 * DigitsValue(s[..|s| - 1]) + DigitValue(s[|s| - 1]).value
  }

  /** Reading back the digits of `v` gives `v`. */
  lemma {:induction false} HexDigitsRoundTrip(v: nat)
    ensures DigitsValue(HexDigits(v)) == v
    decreases v
  {
    var s := HexDigits(v);
    if v < 16 {
      assert s[..|s| - 1] == [];
    } else {
      assert s[..|s| - 1] == HexDigits(v / 16);
      HexDigitsRoundTrip(v / 16);
    }
  }

  /** Digit strings that do not start with '0' denote a positive number. */
  lemma {:induction false} DigitsValuePositive(s: string)
    requires |s| >= 1 && AllHexDigits(s) && s[0] != '0'
    ensures DigitsValue(s) > 0
    decreases |s|
  {
    if |s| > 1 {
      var t := s[..|s| - 1];
      assert t[0] == s[0];
      DigitsValuePositive(t);
    }
  }

  /**
   The converse round trip: a non-empty digit string without a leading zero
   is exactly what `hex` prints for the number it denotes.
   */
  lemma {:induction false} DigitsValueRoundTrip(s: string)
    requires |s| >= 1 && AllHexDigits(s)
    requires |s| == 1 || s[0] != '0'
    ensures HexDigits(DigitsValue(s)) == s
    decreases |s|
  {
    var c := s[|s| - 1];
    DigitOfValue(c);
    if |s| == 1 {
      assert s[..0] == [];
      assert s == [c];
    } else {
      var t := s[..|s| - 1];
      assert t[0] == s[0];
      DigitsValuePositive(t);
      DigitsValueRoundTrip(t);
      var v := DigitsValue(s);
      assert v / 16 == DigitsValue(t) && v % 16 == DigitValue(c).value;
      assert s == t + [c];
    }
  }
}
