/**
 The `#rrggbb` colour code: a `'#'` and each channel as exactly two
 lowercase hexadecimal digits, zero-padded. This is the form a hex colour
 code is meant to take, and the reading used to compare the strip-based
 rendering against.
 */
module HexColor {
  import opened Results
  import opened Hex

  datatype Rgb = Rgb(red: nat, green: nat, blue: nat)

  datatype Error = ChannelOutOfRange

  predicate IsByte(v: int) {
    0 <= v <= 255
  }

  /** Two zero-padded digits for one channel. */
  function Byte2(v: int): (s: string)
    requires IsByte(v)
    ensures |s| == 2 && AllHexDigits(s)
  {
    [Digit(v / 16), Digit(v % 16)]
  }

  /** Reads two hexadecimal digits as one channel. */
  function ParseByte(hi: char, lo: char): (v: Option<nat>)
    ensures v.Some? <==> IsHexDigit(hi) && IsHexDigit(lo)
    ensures v.Some? ==> IsByte(v.value)
  {
    match (DigitValue(hi), DigitValue(lo))
    case (Some(h), Some(l)) => Some(16 * h + l)
    case _ => None
  }

  /** Reads a `#rrggbb` code; anything else is rejected. */
  function Parse(s: string): (c: Option<Rgb>)
    ensures c.Some? ==> |s| == 7 && s[0] == '#'
    ensures c.Some? ==> IsByte(c.value.red) && IsByte(c.value.green) && IsByte(c.value.blue)
  {
    if |s| != 7 || s[0] != '#' then None
    else
      match (ParseByte(s[1], s[2]), ParseByte(s[3], s[4]), ParseByte(s[5], s[6]))
      case (Some(r), Some(g), Some(b)) => Some(Rgb(r, g, b))
      case _ => None
  }

  /** Renders a colour as `#rrggbb`, rejecting a channel outside [0,255]. */
  function Format(r: int, g: int, b: int): (code: Result<string, Error>)
    ensures code.Failure? <==> !(IsByte(r) && IsByte(g) && IsByte(b))
    ensures code.Success? ==> |code.value| == 7 && code.value[0] == '#'
  {
    if IsByte(r) && IsByte(g) && IsByte(b) then Success("#" + Byte2(r) + Byte2(g) + Byte2(b))
    else Failure(ChannelOutOfRange)
  }

  lemma ParseByte2(v: int)
    requires IsByte(v)
    ensures ParseByte(Byte2(v)[0], Byte2(v)[1]) == Some(v)
  {
  }

  /** Parsing a formatted colour gives the channels back. */
  lemma FormatParse(r: int, g: int, b: int)
    requires IsByte(r) && IsByte(g) && IsByte(b)
    ensures Parse(Format(r, g, b).value) == Some(Rgb(r, g, b))
  {
    var s := Format(r, g, b).value;
    ParseByte2(r);
    ParseByte2(g);
    ParseByte2(b);
    assert s[1] == Byte2(r)[0] && s[2] == Byte2(r)[1];
    assert s[3] == Byte2(g)[0] && s[4] == Byte2(g)[1];
    assert s[5] == Byte2(b)[0] && s[6] == Byte2(b)[1];
  }

  lemma Byte2ParseByte(hi: char, lo: char)
    requires IsHexDigit(hi) && IsHexDigit(lo)
    ensures Byte2(ParseByte(hi, lo).value) == [hi, lo]
  {
    DigitOfValue(hi);
    DigitOfValue(lo);
  }

  /** Formatting a parsed colour gives back the very same text. */
  lemma ParseFormat(s: string)
    requires Parse(s).Some?
    ensures Format(Parse(s).value.red, Parse(s).value.green, Parse(s).value.blue) == Success(s)
  {
    Byte2ParseByte(s[1], s[2]);
    Byte2ParseByte(s[3], s[4]);
    Byte2ParseByte(s[5], s[6]);
    var c := Parse(s).value;
    assert s == "#" + Byte2(c.red) + Byte2(c.green) + Byte2(c.blue);
  }
}
