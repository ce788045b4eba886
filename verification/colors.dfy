/**
 `rgb_to_hex` of colors.py: each channel goes through Python's `hex`, then
 `strip('0x')` removes every leading and trailing '0' or 'x', and the three
 pieces are joined after a '#'.
 */
module Colors {
  import opened Results
  import opened Hex
  import opened Stripping
  import opened HexColor

  /** The characters `strip('0x')` removes. */
  const StrippedChars: set<char> := {'0', 'x'}

  /** The `range` value that selects rescaling; every other value keeps channels unchanged. */
  const Normalized: string := "normalized"

  /** `hex(v).strip('0x')`: the text one channel contributes. */
  function Piece(v: nat): (p: string)
    ensures p == [] || (p[0] !in StrippedChars && p[|p| - 1] !in StrippedChars)
  {
    Strip(PyHex(v), StrippedChars)
  }

  /** `v` with its trailing zero hexadecimal digits removed (zero stays zero). */
  function DropZeroNibbles(v: nat): (r: nat)
    ensures r <= v
    ensures r == 0 <==> v == 0
    ensures r == 0 || r % 16 != 0
    decreases v
  {
    if v > 0 && v % 16 == 0 then DropZeroNibbles(v / 16) else v
  }

  /** Stripping the digits of a positive number removes exactly its trailing zero digits. */
  lemma {:induction false} RStripDigits(v: nat)
    requires v > 0
    ensures RStrip(HexDigits(v), StrippedChars) == HexDigits(DropZeroNibbles(v))
    decreases v
  {
    var s := HexDigits(v);
    if v % 16 == 0 {
      assert s == HexDigits(v / 16) + ['0'];
      assert s[..|s| - 1] == HexDigits(v / 16);
      RStripDigits(v / 16);
    } else {
      var last := Digit(v % 16);
      assert s[|s| - 1] == last;
      assert last != '0' && last != 'x';
    }
  }

  /** A zero channel contributes nothing: every character of "0x0" is stripped. */
  lemma PieceZero()
    ensures Piece(0) == []
  {
    var s := PyHex(0);
    assert s == "0x0";
    assert forall k :: 0 <= k < |s| ==> s[k] in StrippedChars;
    StripEmpty(s, StrippedChars);
  }

  /** A positive channel loses the "0x" prefix and its trailing zero digits. */
  lemma PiecePositive(v: nat)
    requires v > 0
    ensures Piece(v) == HexDigits(DropZeroNibbles(v))
  {
    var s := PyHex(v);
    var d := HexDigits(v);
    var t := s[1..];
    assert s[0] == '0' && t == ['x'] + d;
    assert LStrip(s, StrippedChars) == LStrip(t, StrippedChars);
    assert t[0] == 'x' && t[1..] == d;
    assert LStrip(t, StrippedChars) == LStrip(d, StrippedChars);
    assert IsHexDigit(d[0]) && d[0] != '0';
    assert LStrip(d, StrippedChars) == d;
    RStripDigits(v);
  }

  /**
   What a channel contributes: nothing for zero, otherwise the hexadecimal
   digits of the value with its trailing zero digits removed.
   */
  lemma PieceIsTrimmedDigits(v: nat)
    ensures Piece(v) == if v == 0 then [] else HexDigits(DropZeroNibbles(v))
  {
    if v == 0 {
      PieceZero();
    } else {
      PiecePositive(v);
    }
  }

  /** Zero, and only zero, contributes nothing. */
  lemma PieceEmpty(v: nat)
    ensures Piece(v) == [] <==> v == 0
  {
    PieceIsTrimmedDigits(v);
  }

  /** A channel value and sixteen times it contribute the same text. */
  lemma PieceScale16(v: nat)
    ensures Piece(16 * v) == Piece(v)
  {
    PieceIsTrimmedDigits(v);
    PieceIsTrimmedDigits(16 * v);
    if v > 0 {
      var w := 16 * v;
      assert w / 16 == v && w % 16 == 0;
      assert DropZeroNibbles(w) == DropZeroNibbles(v);
    }
  }

  /** A byte that `hex` writes with two digits, neither a zero in last place. */
  predicate TwoDigit(v: nat) {
    16 <= v && v % 16 != 0
  }

  /**
   For v in [0,255]: the piece has at most two characters, and it is the
   zero-padded two-digit code of `v` exactly when `v` is `TwoDigit`;
   otherwise it is the single digit of `v` (below 16), the single leading
   digit (a multiple of 16) or empty (zero).
   */
  lemma PieceByteCases(v: nat)
    requires v <= 255
    ensures |Piece(v)| <= 2
    ensures Piece(v) == Byte2(v) <==> TwoDigit(v)
    ensures |Piece(v)| == 2 <==> TwoDigit(v)
    ensures v == 0 ==> Piece(v) == []
    ensures 0 < v < 16 ==> Piece(v) == [Digit(v)]
    ensures 16 <= v && v % 16 == 0 ==> Piece(v) == [Digit(v / 16)]
  {
    PieceIsTrimmedDigits(v);
    if 16 <= v && v % 16 == 0 {
      assert DropZeroNibbles(v) == DropZeroNibbles(v / 16) == v / 16;
    }
  }

  /**
   `rgb_to_hex(r, g, b, range)` of colors.py for non-negative integer
   channels. Range 'normalized' multiplies each channel by 255 (`round` of an
   integer is that integer); every other range passes the channels through.
   */
  function RgbToHex(r: nat, g: nat, b: nat, range: string := "8bit"): (code: string)
    ensures |code| >= 1 && code[0] == '#'
  {
    var k := if range == Normalized then 255 else 1;
    "#" + Piece(r * k) + Piece(g * k) + Piece(b * k)
  }

  /**
   Only `range == 'normalized'` changes the channels (an integer channel is
   scaled by 255 exactly); any other `range` renders them unchanged.
   */
  lemma RangeSelection(r: nat, g: nat, b: nat, range: string)
    ensures range != Normalized ==> RgbToHex(r, g, b, range) == "#" + Piece(r) + Piece(g) + Piece(b)
    ensures range == Normalized ==> RgbToHex(r, g, b, range) == RgbToHex(r * 255, g * 255, b * 255)
  {
  }

  /** For channels in [0,255] the code has between 1 and 7 characters. */
  lemma RgbToHexLength(r: nat, g: nat, b: nat)
    requires r <= 255 && g <= 255 && b <= 255
    ensures 1 <= |RgbToHex(r, g, b)| <= 7
    ensures |RgbToHex(r, g, b)| == 7 <==> TwoDigit(r) && TwoDigit(g) && TwoDigit(b)
  {
    PieceByteCases(r);
    PieceByteCases(g);
    PieceByteCases(b);
  }

  /** Black renders as a lone '#'. */
  lemma RgbToHexBlack()
    ensures RgbToHex(0, 0, 0) == "#"
  {
    PieceZero();
    assert "8bit" != Normalized by { assert |"8bit"| != |Normalized|; }
  }

  /**
   The rendering is not injective: scaling every channel by 16 gives the
   same text.
   */
  lemma RgbToHexScale16(r: nat, g: nat, b: nat)
    ensures RgbToHex(16 * r, 16 * g, 16 * b) == RgbToHex(r, g, b)
  {
    PieceScale16(r);
    PieceScale16(g);
    PieceScale16(b);
    RangeSelection(r, g, b, "8bit");
    RangeSelection(16 * r, 16 * g, 16 * b, "8bit");
  }

  /** A red channel below 16 renders as its single digit. */
  lemma RgbToHexSingleRedDigit(v: nat)
    requires 0 < v < 16
    ensures RgbToHex(v, 0, 0) == ['#', Digit(v)]
  {
    PieceByteCases(v);
    PieceZero();
    RangeSelection(v, 0, 0, "8bit");
    assert "8bit" != Normalized by { assert |"8bit"| != |Normalized|; }
  }

  /**
   In particular a red channel `v` in [1,15] and `16 * v` render alike, as
   '#' and the single digit of `v`: (1,0,0) and (16,0,0) both give "#1".
   */
  lemma RgbToHexNotInjective(v: nat)
    requires 0 < v < 16
    ensures RgbToHex(16 * v, 0, 0) == RgbToHex(v, 0, 0) == ['#', Digit(v)]
  {
    assert RgbToHex(16 * v, 0, 0) == RgbToHex(v, 0, 0) by {
      RgbToHexScale16(v, 0, 0);
    }
    RgbToHexSingleRedDigit(v);
  }

  /**
   Reading the result as a `#rrggbb` code recovers (r, g, b), in that order,
   exactly when every channel is `TwoDigit`; then the result is the
   zero-padded code. For any other byte triple it is not a valid code.
   */
  lemma ParseRgbToHex(r: nat, g: nat, b: nat)
    requires r <= 255 && g <= 255 && b <= 255
    ensures Parse(RgbToHex(r, g, b)) ==
      if TwoDigit(r) && TwoDigit(g) && TwoDigit(b) then Some(Rgb(r, g, b)) else None
    ensures RgbToHex(r, g, b) == Format(r, g, b).value <==> TwoDigit(r) && TwoDigit(g) && TwoDigit(b)
  {
    RgbToHexLength(r, g, b);
    if TwoDigit(r) && TwoDigit(g) && TwoDigit(b) {
      PieceByteCases(r);
      PieceByteCases(g);
      PieceByteCases(b);
      FormatParse(r, g, b);
    }
  }
}
