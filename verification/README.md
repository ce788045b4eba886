# Identicon colour codes in Dafny

This project models the colour-code part of the identicon repository. It is
made of two small pure computations:

- `rgb_to_hex` (colors.py, and a near-identical copy in identicon.py) renders
  a red/green/blue triple as text. Each channel goes through Python's
  `hex(v)`, which gives `"0x"` followed by lowercase hex digits. Then
  `.strip('0x')` removes every leading and every trailing `'0'` or `'x'`.
  The three pieces are joined after a `'#'`.
- `get_color_from_hash(hash, bitdepth=8)` (identicon.py) derives three
  channels from an integer hash by modular arithmetic:
  - red is `hash % 2**bitdepth`;
  - blue is `(hash % 1000) % 2**bitdepth`;
  - green is `((hash % 1000000) // 1000) % 2**bitdepth`.
  It renders them in red, green, blue order.

Modules:

| module | file | models |
|---|---|---|
| `Results` | results.dfy | `Option` and `Result` wrappers |
| `Hex` | hex.dfy | Python's `hex` on non-negative integers, and the digit decoder used to read it back |
| `Stripping` | strip.dfy | Python's `str.strip(chars)`, with a reference description and a uniqueness proof |
| `HexColor` | hex_color.dfy | the zero-padded `#rrggbb` colour code (`Format` and `Parse`), used as the intended reading |
| `Colors` | colors.py → colors.dfy | `rgb_to_hex` with its `range` flag |
| `Identicon` | identicon.py → identicon.dfy | `get_color_from_hash` and identicon.py's own `rgb_to_hex` |

Python's `%` and `//` with a positive divisor agree with Dafny's Euclidean
`%` and `/`, so the channel arithmetic is used as it is, and the hash may be
any integer, including a negative one. Channels and the bit depth are `nat`.

The docstring of `rgb_to_hex` says it "converts rgb color codes to hex codes"
and returns a "color code in hex format" (colors.py:6, colors.py:17-18). The
usual form of such a code is `#rrggbb`, with two digits per channel. The
code does not produce that form, because it strips digits. The model follows
the code. The gap is recorded under "Findings", and the zero-padded form is
modelled separately as `HexColor.Format`.

## Model

| member | source | states |
|---|---|---|
| Hex.PyHex | colors.py:25 | Python's `hex(v)` for v >= 0 is "0x" followed by hexadecimal digits whose value is `v`, and the digits start with '0' only when they are the single digit of `v == 0`. The same call appears at identicon.py:17-19. |
| Hex.HexDigits | colors.py:25 | The digits `hex` prints after `0x` are non-empty and all lowercase hex digits, and they start with '0' exactly when the value is zero (no leading zeros). |
| Hex.HexDigitsRoundTrip | colors.py:25 | Reading the printed digits back as a base-16 number gives the original value. |
| Hex.DigitsValueRoundTrip | colors.py:25 | Conversely, any non-empty digit string without a leading zero is exactly what `hex` prints for the number it denotes. |
| Stripping.LStripSpec | colors.py:25-27 | The left pass keeps a suffix of the text. Everything it drops is in `chars`, and what it keeps does not start with a character of `chars`. |
| Stripping.RStripSpec | colors.py:25-27 | The right pass keeps a prefix of the text. Everything it drops is in `chars`, and what it keeps does not end with a character of `chars`. |
| Stripping.Strip | colors.py:25-27 | `strip(chars)` never lengthens the text. A non-empty result neither begins nor ends with a character of `chars`. |
| Stripping.StripEmpty | colors.py:25-27 | `strip(chars)` gives an empty result if and only if every character is in `chars`. |
| Stripping.StripCharacterized | colors.py:25-27 | A string is the strip of `s` if and only if it is the slice of `s` with only `chars` characters before and after it, and with no `chars` character at either end. So stripping removes from both ends, not just a prefix. |
| Stripping.StripOfUnique | colors.py:25-27 | At most one slice meets that description. |
| Colors.Piece | colors.py:25-27 | A channel's piece never begins or ends with '0' or 'x'. |
| Colors.PieceZero | colors.py:25-27 | A zero channel contributes nothing, because every character of "0x0" is stripped. |
| Colors.PiecePositive | colors.py:25-27 | A positive channel contributes its hex digits without the "0x" prefix and without its trailing zero digits. |
| Colors.PieceIsTrimmedDigits | colors.py:25-27 | A zero channel contributes nothing. Any other channel contributes its hex digits with the trailing zero digits removed. |
| Colors.PieceEmpty | colors.py:25-27 | A piece is empty if and only if the channel is 0. |
| Colors.PieceScale16 | colors.py:25 | A channel value and sixteen times it give the same piece. |
| Colors.PieceByteCases | colors.py:25-27 | For v in [0,255], the piece has at most 2 characters. It is the two-digit lowercase hex of v if and only if v >= 16 and v % 16 != 0. Otherwise it is the single digit of v (below 16), the leading digit (a multiple of 16) or empty (zero). |
| Colors.RgbToHex | colors.py:5-30 | The code always starts with '#'. |
| Colors.RangeSelection | colors.py:20-29 | Any range other than 'normalized', including the default '8bit', passes the channels to `hex` unchanged, in red, green, blue order. 'normalized' scales integer channels by 255. |
| Colors.RgbToHexLength | colors.py:25-29 | For channels in [0,255] the code is 1 to 7 characters long. It is 7 long if and only if every channel renders as two digits. |
| Colors.RgbToHexBlack | colors.py:25-29 | (0,0,0) renders as "#". |
| Colors.RgbToHexScale16 | colors.py:25-29 | Multiplying all three channels by 16 does not change the code. |
| Colors.RgbToHexSingleRedDigit | colors.py:25-29 | A red channel v in [1,15], with green and blue 0, renders as '#' followed by the single digit of v. |
| Colors.RgbToHexNotInjective | colors.py:25-29 | For v in [1,15], (16v,0,0) and (v,0,0) render the same, as '#' and the digit of v. For v = 1, (16,0,0) and (1,0,0) both give "#1". |
| Colors.ParseRgbToHex | colors.py:25-29 | For byte channels, reading the code as `#rrggbb` gives back (r,g,b) exactly when every channel renders as two digits, and fails otherwise. In the same cases, and only then, the code equals the zero-padded one. |
| HexColor.Format | colors.py:29 | Corrected form of colors.py:29 (docstring colors.py:17-18), not the code as written. The zero-padded code fails exactly when a channel is outside [0,255]. Otherwise it is 7 characters long and starts with '#'. |
| HexColor.FormatParse | colors.py:29 | Parsing a zero-padded code gives back the channels. |
| HexColor.ParseFormat | colors.py:29 | Formatting the channels of any code `Parse` accepts gives back the same text. |
| Identicon.Red | identicon.py:6-8 | The red channel lies in [0, 2**bitdepth). |
| Identicon.Blue | identicon.py:6-9 | The blue channel lies in [0, 2**bitdepth) and below 1000. |
| Identicon.Green | identicon.py:6-10 | The green channel lies in [0, 2**bitdepth) and below 1000. |
| Identicon.RedDependsOnlyOnLowBits | identicon.py:8 | Adding any multiple of 2**bitdepth to the hash leaves red unchanged. |
| Identicon.ChannelsByDecimalGroups | identicon.py:9-10 | Write the hash as q*1000000 + t*1000 + u. Blue is u mod 2**bitdepth and green is t mod 2**bitdepth, whatever q is. So blue depends only on the hash mod 1000, and green only on decimal digits 4 to 6. |
| Identicon.RgbToHex | identicon.py:16-23 | The code always starts with '#'. |
| Identicon.RgbToHexPieces | identicon.py:16-23 | identicon.py's code is '#' followed by the colors.py pieces of red, green and blue, in that order. |
| Identicon.RgbToHexAgreesWithColors | identicon.py:16-23 | identicon.py's `rgb_to_hex` equals colors.py's with the default '8bit' range, for all non-negative channels. |
| Identicon.RgbToHexScale16 | identicon.py:17-21 | Multiplying all three channels by 16 does not change the code. |
| Identicon.ColorFromHash | identicon.py:5-13 | The text built from any hash starts with '#'. |
| Identicon.DefaultBitdepthLength | identicon.py:5-11 | With the default bit depth of 8, the code for any hash is 1 to 7 characters long. |
| Identicon.ColorFromHashOrder | identicon.py:8-11 | With bit depth 8, reading the code as `#rrggbb` gives (red, green, blue) in that order whenever every channel renders as two digits, and fails otherwise. Blue is computed before green, but green is printed first. |
| Identicon.ColorFromHashPieces | identicon.py:5-11 | For every hash and bit depth, the code is '#' followed by the pieces of red, green and blue, in that order, although blue is computed before green. |
| Identicon.ColorFromByteHash | identicon.py:5-11 | With bit depth 8, a hash h in [0,256) renders as '#', the piece of h, the (empty) piece of 0, and the piece of h again. |
| Identicon.ByteHashChannels | identicon.py:6-10 | With bit depth 8, a hash in [0,256) gives the channels (hash, 0, hash). |
| Identicon.ColorFromHashSmall | identicon.py:5-11 | A hash h in [1,15] gives '#' followed by the digit of h twice, once for red and once for blue. Green is 0 and contributes nothing. Hash 1 gives "#11". |
| Identicon.ColorFromHashCollision | identicon.py:5-11 | For h in [1,15], the hashes h and 16h give the same colour code. Hashes 1 and 16 both give "#11". |
| Identicon.PaddedColorFromHash | identicon.py:5-11 | The same channels rendered zero-padded. This fails exactly when a channel exceeds 255. |
| Identicon.PaddedColorFromHashReadsBack | identicon.py:5-11 | For a bit depth of at most 8, the zero-padded code always exists and reads back as (red, green, blue). |

## Left out

- Colors.RgbToHex: float channel values are not modelled. The 'normalized' path computes `round(v*255)` with floating-point multiplication and round-half-to-even. Only integer channels are modelled, and for those this is exactly `v*255`. So for floats the model covers only which branch is taken.
- Negative channel values are excluded by the `nat` type. `hex(-5)` is `'-0x5'`, and the strip leaves the '-' in place.
- A negative `bitdepth` is excluded by the `nat` type. In Python `2**bitdepth` is then a float.
- `main()` in identicon.py is left out. It feeds the per-process-seeded built-in `hash()`, which is not deterministic, so the model takes `hash` as a parameter instead.
- The `print` in `get_color_from_hash` is console output. `Identicon.ColorFromHash` returns the text instead.
- `main()` in colors.py is left out because it does nothing.
- random_test_identicons.py is left out. It is a file-reading batch driver, and the `generate_identicon` it calls is not defined in identicon.py.
- Digest derivation, the 5×5 symmetric bitmap, HSV colour and image compositing are not part of this model. Their code is not in colors.py or identicon.py.

## Findings

| source | as written | input that shows it | evidently intended | confidence | as-written member | corrected member |
|---|---|---|---|---|---|---|
| colors.py:25-29 | `hex(v).strip('0x')` drops leading zeros and also trailing zero digits, so pieces have 0 to 2 characters and the code is not a `#rrggbb` colour code | (1,0,0) and (16,0,0) both give "#1"; (0,0,0) gives "#" | each channel as exactly two zero-padded lowercase hex digits, giving "#rrggbb" | high; not executed | Colors.RgbToHexNotInjective | HexColor.FormatParse |
| identicon.py:16-21 | the same strip-based rendering of the channels derived from the hash | hashes 1 and 16 both give "#11" | the zero-padded "#rrggbb" code of (red, green, blue) | high; not executed | Identicon.ColorFromHashCollision | Identicon.PaddedColorFromHashReadsBack |
