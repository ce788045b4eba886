/**
 `get_color_from_hash` and `rgb_to_hex` of identicon.py: three channel
 values are cut from an integer hash by modular arithmetic and rendered with
 the same strip-based hex text as colors.py. The hash is a parameter; the
 function returns the text it would print.
 */
module Identicon {
  import opened Results
  import opened Hex
  import opened Stripping
  import opened HexColor
  import Colors

  /** `2**n` */
  function Pow2(n: nat): (p: nat)
    ensures p >= 1
  {
    if n == 0 then 1 else 2 * Pow2(n - 1)
  }

  lemma {:induction false} Pow2Monotone(m: nat, n: nat)
    requires m <= n
    ensures Pow2(m) <= Pow2(n)
    decreases n - m
  {
    if m < n {
      Pow2Monotone(m, n - 1);
    }
  }

  lemma Pow2AtMost256(n: nat)
    requires n <= 8
    ensures Pow2(n) <= 256
  {
    Pow2Monotone(n, 8);
    assert Pow2(8) == 256;
  }

  lemma MulAtLeast(d: int, m: int)
    requires d >= 1 && m > 0
    ensures d * m >= m
  {
  }

  /** Euclidean quotient and remainder are the only pair that rebuilds `y`. */
  lemma DivModUnique(y: int, q: int, r: int, m: int)
    requires m > 0 && 0 <= r < m && y == q * m + r
    ensures y / m == q && y % m == r
  {
    var q2, r2 := y / m, y % m;
    assert y == q2 * m + r2;
    assert (q2 - q) * m == r - r2;
    if q2 > q {
      MulAtLeast(q2 - q, m);
    } else if q2 < q {
      MulAtLeast(q - q2, m);
    }
  }

  /** Adding a multiple of `m` does not change the remainder modulo `m`. */
  lemma ModAddMultiple(a: int, k: int, m: int)
    requires m > 0
    ensures (a + k * m) % m == a % m
  {
    var q := a / m;
    assert a == q * m + a % m;
    assert (q + k) * m == q * m + k * m;
    DivModUnique(a + k * m, q + k, a % m, m);
  }

  /** The red channel, `hash % 2**bitdepth`. */
  function Red(hash: int, bitdepth: nat): (v: nat)
    ensures v < Pow2(bitdepth)
  {
    hash % Pow2(bitdepth)
  }

  /** A remainder never exceeds a non-negative dividend. */
  lemma ModAtMost(x: int, m: int)
    requires x >= 0 && m > 0
    ensures x % m <= x
  {
    if x < m {
      DivModUnique(x, 0, x, m);
    }
  }

  /** Digits 4 to 6 of a number in [0,1000000) form a number below 1000. */
  lemma ThousandsBelow(x: int)
    requires 0 <= x < 1000000
    ensures x / 1000 < 1000
  {
    assert x == 1000 * (x / 1000) + x % 1000;
  }

  /** The blue channel, `(hash % 1000) % 2**bitdepth`. */
  function Blue(hash: int, bitdepth: nat): (v: nat)
    ensures v < Pow2(bitdepth)
    ensures v < 1000
  {
    var low := hash % 1000;
    ModAtMost(low, Pow2(bitdepth));
    low % Pow2(bitdepth)
  }

  /** The green channel, `((hash % 1000000) // 1000) % 2**bitdepth`. */
  function Green(hash: int, bitdepth: nat): (v: nat)
    ensures v < Pow2(bitdepth)
    ensures v < 1000
  {
    var thousands := (hash % 1000000) / 1000;
    ThousandsBelow(hash % 1000000);
    ModAtMost(thousands, Pow2(bitdepth));
    thousands % Pow2(bitdepth)
  }

  /** The red channel sees the hash only modulo `2**bitdepth`. */
  lemma RedDependsOnlyOnLowBits(hash: int, k: int, bitdepth: nat)
    ensures Red(hash + k * Pow2(bitdepth), bitdepth) == Red(hash, bitdepth)
  {
    ModAddMultiple(hash, k, Pow2(bitdepth));
  }

  /**
   Writing the hash as `q * 1000000 + t * 1000 + u` with `t` and `u` in
   [0,1000): blue is made from `u` alone (the hash modulo 1000) and green
   from `t` alone (decimal digits 4 to 6 of the hash); the digits above do
   not matter to either.
   */
  lemma ChannelsByDecimalGroups(q: int, t: nat, u: nat, bitdepth: nat)
    requires t < 1000 && u < 1000
    ensures Blue(q * 1000000 + t * 1000 + u, bitdepth) == u % Pow2(bitdepth)
    ensures Green(q * 1000000 + t * 1000 + u, bitdepth) == t % Pow2(bitdepth)
  {
    var h := q * 1000000 + t * 1000 + u;
    DivModUnique(h, q * 1000 + t, u, 1000);
    var low := t * 1000 + u;
    DivModUnique(h, q, low, 1000000);
    DivModUnique(low, t, u, 1000);
  }

  /** `rgb_to_hex(r, g, b)` of identicon.py. */
  function RgbToHex(r: nat, g: nat, b: nat): (code: string)
    ensures |code| >= 1 && code[0] == '#'
  {
    var strip := Colors.StrippedChars;
    "#" + Strip(PyHex(r), strip) + Strip(PyHex(g), strip) + Strip(PyHex(b), strip)
  }

  /**
   The two copies agree: identicon.py's `rgb_to_hex` is colors.py's with the
   default '8bit' range, for every non-negative channel.
   */
  lemma RgbToHexAgreesWithColors(r: nat, g: nat, b: nat)
    ensures RgbToHex(r, g, b) == Colors.RgbToHex(r, g, b, "8bit")
  {
    assert "8bit" != Colors.Normalized by { assert |"8bit"| != |Colors.Normalized|; }
    Colors.RangeSelection(r, g, b, "8bit");
  }

  /** `get_color_from_hash(hash, bitdepth)`, returning the text it prints. */
  function ColorFromHash(hash: int, bitdepth: nat := 8): (code: string)
    ensures |code| >= 1 && code[0] == '#'
  {
    var red := Red(hash, bitdepth);
    var blue := Blue(hash, bitdepth);
    var green := Green(hash, bitdepth);
    RgbToHex(red, green, blue)
  }

  /** With the default bit depth of 8 the code has between 1 and 7 characters. */
  lemma DefaultBitdepthLength(hash: int)
    ensures 1 <= |ColorFromHash(hash)| <= 7
  {
    Pow2AtMost256(8);
    var red, green, blue := Red(hash, 8), Green(hash, 8), Blue(hash, 8);
    RgbToHexAgreesWithColors(red, green, blue);
    Colors.RgbToHexLength(red, green, blue);
  }

  /**
   The channels appear in red, green, blue order although blue is computed
   before green: with bit depth 8, reading the code back as `#rrggbb`
   yields (red, green, blue) whenever every channel renders as two digits,
   and fails otherwise.
   */
  lemma ColorFromHashOrder(hash: int)
    ensures var red, green, blue := Red(hash, 8), Green(hash, 8), Blue(hash, 8);
      Parse(ColorFromHash(hash)) ==
        if Colors.TwoDigit(red) && Colors.TwoDigit(green) && Colors.TwoDigit(blue)
        then Some(Rgb(red, green, blue)) else None
  {
    Pow2AtMost256(8);
    var red, green, blue := Red(hash, 8), Green(hash, 8), Blue(hash, 8);
    RgbToHexAgreesWithColors(red, green, blue);
    Colors.ParseRgbToHex(red, green, blue);
  }

  /**
   For every hash and bit depth, the colour code is '#' followed by the
   pieces of red, green and blue, in that order, although blue is computed
   before green.
   */
  lemma ColorFromHashPieces(hash: int, bitdepth: nat)
    ensures ColorFromHash(hash, bitdepth) == "#" + Colors.Piece(Red(hash, bitdepth))
      + Colors.Piece(Green(hash, bitdepth)) + Colors.Piece(Blue(hash, bitdepth))
  {
    RgbToHexPieces(Red(hash, bitdepth), Green(hash, bitdepth), Blue(hash, bitdepth));
  }

  /** As in colors.py, scaling every channel by 16 renders the same text. */
  lemma RgbToHexScale16(r: nat, g: nat, b: nat)
    ensures RgbToHex(16 * r, 16 * g, 16 * b) == RgbToHex(r, g, b)
  {
    RgbToHexAgreesWithColors(r, g, b);
    RgbToHexAgreesWithColors(16 * r, 16 * g, 16 * b);
    Colors.RgbToHexScale16(r, g, b);
  }

  /** identicon.py's rendering is '#' and the three colors.py pieces, red first. */
  lemma RgbToHexPieces(r: nat, g: nat, b: nat)
    ensures RgbToHex(r, g, b) == "#" + Colors.Piece(r) + Colors.Piece(g) + Colors.Piece(b)
  {
  }

  /** With bit depth 8, a hash in [0,256) gives the channels (hash, 0, hash). */
  lemma ByteHashChannels(hash: int)
    requires 0 <= hash < 256
    ensures Red(hash, 8) == hash && Green(hash, 8) == 0 && Blue(hash, 8) == hash
  {
    assert Pow2(8) == 256;
  }

  /** With bit depth 8, a hash in [0,256) renders as its own piece, nothing for green, then its own piece again. */
  lemma ColorFromByteHash(hash: int)
    requires 0 <= hash < 256
    ensures ColorFromHash(hash) == "#" + Colors.Piece(hash) + Colors.Piece(0) + Colors.Piece(hash)
  {
    ByteHashChannels(hash);
    ColorFromHashPieces(hash, 8);
  }

  /** A hash `h` in [1,15] renders its digit twice, as red and as blue. */
  lemma ColorFromHashSmall(h: nat)
    requires 0 < h < 16
    ensures ColorFromHash(h) == ['#', Digit(h), Digit(h)]
  {
    ColorFromByteHash(h);
    Colors.PieceZero();
    Colors.PieceByteCases(h);
  }

  /**
   A hash `h` in [1,15] and the hash `16 * h` give the same colour code,
   '#' followed by the digit of `h` twice: hashes 1 and 16 both give "#11".
   */
  lemma ColorFromHashCollision(h: nat)
    requires 0 < h < 16
    ensures ColorFromHash(16 * h) == ColorFromHash(h) == ['#', Digit(h), Digit(h)]
  {
    var w := 16 * h;
    var zero := Colors.Piece(0);
    assert ColorFromHash(w) == "#" + Colors.Piece(w) + zero + Colors.Piece(w) by {
      ColorFromByteHash(w);
    }
    assert ColorFromHash(h) == "#" + Colors.Piece(h) + zero + Colors.Piece(h) by {
      ColorFromByteHash(h);
    }
    assert Colors.Piece(w) == Colors.Piece(h) by {
      Colors.PieceScale16(h);
    }
    ColorFromHashSmall(h);
  }

  /**
   The same derivation rendered as a zero-padded `#rrggbb` code. It fails
   exactly when a channel exceeds 255.
   */
  function PaddedColorFromHash(hash: int, bitdepth: nat := 8): (code: Result<string, Error>)
    ensures code.Failure? <==>
      !(IsByte(Red(hash, bitdepth)) && IsByte(Green(hash, bitdepth)) && IsByte(Blue(hash, bitdepth)))
    ensures code.Success? ==> |code.value| == 7 && code.value[0] == '#'
  {
    var red := Red(hash, bitdepth);
    var blue := Blue(hash, bitdepth);
    var green := Green(hash, bitdepth);
    Format(red, green, blue)
  }

  /**
   A bit depth of at most 8 keeps every channel a byte, so the padded code
   always exists and reads back as (red, green, blue).
   */
  lemma PaddedColorFromHashReadsBack(hash: int, bitdepth: nat)
    requires bitdepth <= 8
    ensures PaddedColorFromHash(hash, bitdepth).Success?
    ensures Parse(PaddedColorFromHash(hash, bitdepth).value)
      == Some(Rgb(Red(hash, bitdepth), Green(hash, bitdepth), Blue(hash, bitdepth)))
  {
    Pow2AtMost256(bitdepth);
    FormatParse(Red(hash, bitdepth), Green(hash, bitdepth), Blue(hash, bitdepth));
  }
}
