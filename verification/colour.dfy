/** RGB colours as byte triples, their squared Euclidean distance, and the
    "#RRGGBB" hexadecimal notation in which the risk palette is written. */
module Colour {
  import opened Wrappers

  /** One 8-bit colour channel. */
  newtype byte = x: int | 0 <= x < 256

  /** A colour with red, green and blue channels, 0..255 each. */
  datatype Rgb = Rgb(r: byte, g: byte, b: byte)

  function Sq(x: int): nat { x * x }

  /** Squared Euclidean distance between two colours in RGB space. */
  function SqDist(a: Rgb, b: Rgb): (d: nat)
    ensures d == 0 <==> a == b
  {
    Sq(a.r as int - b.r as int) + Sq(a.g as int - b.g as int) + Sq(a.b as int - b.b as int)
  }

  /** The value of one hexadecimal digit, in either letter case. */
  function DigitValue(ch: char): (v: Option<nat>)
    ensures v.Some? <==> IsUpperHexDigit(ch) || 'a' <= ch <= 'f'
    ensures v.Some? ==> v.value < 16
  {
    if '0' <= ch <= '9' then Some(ch as int - '0' as int)
    else if 'A' <= ch <= 'F' then Some(ch as int - 'A' as int + 10)
    else if 'a' <= ch <= 'f' then Some(ch as int - 'a' as int + 10)
    else None
  }

  /** The upper-case hexadecimal digit of a value below 16. */
  function Digit(v: nat): char
    requires v < 16
  {
    if v < 10 then ('0' as int + v) as char else ('A' as int + v - 10) as char
  }

  predicate IsUpperHexDigit(ch: char) {
    '0' <= ch <= '9' || 'A' <= ch <= 'F'
  }

  /** Two hexadecimal digits, most significant first, as one byte. */
  function HexByte(hi: char, lo: char): (o: Option<byte>)
    ensures o.Some? <==> DigitValue(hi).Some? && DigitValue(lo).Some?
    ensures o.Some? ==> o.value as int == 16 * DigitValue(hi).value + DigitValue(lo).value
  {
    match (DigitValue(hi), DigitValue(lo))
    case (Some(h), Some(l)) => Some((16 * h + l) as byte)
    case _ => None
  }

  /** Decodes the "#RRGGBB" form of a colour; anything else is rejected. */
  function ParseHex(s: string): (o: Option<Rgb>)
    ensures o.Some? <==> |s| == 7 && s[0] == '#' && forall i :: 1 <= i < 7 ==> DigitValue(s[i]).Some?
  {
    if |s| != 7 || s[0] != '#' then None
    else
      match (HexByte(s[1], s[2]), HexByte(s[3], s[4]), HexByte(s[5], s[6]))
      case (Some(r), Some(g), Some(b)) => Some(Rgb(r, g, b))
      case _ => None
  }

  /** The two upper-case digits of a byte. */
  function ByteHex(v: byte): string {
    [Digit(v as int / 16), Digit(v as int % 16)]
  }

  /** The canonical upper-case "#RRGGBB" spelling of a colour. */
  function ToHex(c: Rgb): (s: string)
    ensures |s| == 7 && s[0] == '#'
    ensures forall i :: 1 <= i < 7 ==> IsUpperHexDigit(s[i])
  {
    "#" + ByteHex(c.r) + ByteHex(c.g) + ByteHex(c.b)
  }

  lemma DigitRoundTrip(v: nat)
    requires v < 16
    ensures DigitValue(Digit(v)) == Some(v)
  {
  }

  lemma ByteRoundTrip(v: byte)
    ensures HexByte(ByteHex(v)[0], ByteHex(v)[1]) == Some(v)
  {
    DigitRoundTrip(v as int / 16);
    DigitRoundTrip(v as int % 16);
  }

  /** Decoding the canonical spelling gives back the colour. */
  lemma ParseToHex(c: Rgb)
    ensures ParseHex(ToHex(c)) == Some(c)
  {
    var s := ToHex(c);
    ByteRoundTrip(c.r);
    ByteRoundTrip(c.g);
    ByteRoundTrip(c.b);
    assert s[1] == ByteHex(c.r)[0] && s[2] == ByteHex(c.r)[1];
    assert s[3] == ByteHex(c.g)[0] && s[4] == ByteHex(c.g)[1];
    assert s[5] == ByteHex(c.b)[0] && s[6] == ByteHex(c.b)[1];
  }

  lemma UpperDigitRoundTrip(ch: char)
    requires IsUpperHexDigit(ch)
    ensures DigitValue(ch).Some? && Digit(DigitValue(ch).value) == ch
  {
  }

  lemma ByteHexOfDigits(hi: char, lo: char)
    requires IsUpperHexDigit(hi) && IsUpperHexDigit(lo)
    ensures HexByte(hi, lo).Some? && ByteHex(HexByte(hi, lo).value) == [hi, lo]
  {
    UpperDigitRoundTrip(hi);
    UpperDigitRoundTrip(lo);
    var h := DigitValue(hi).value;
    var l := DigitValue(lo).value;
    assert (16 * h + l) / 16 == h && (16 * h + l) % 16 == l;
  }

  /** Re-spelling a decoded upper-case string gives back the string. */
  lemma ToHexParse(s: string)
    requires ParseHex(s).Some?
    requires forall i :: 1 <= i < |s| ==> IsUpperHexDigit(s[i])
    ensures ToHex(ParseHex(s).value) == s
  {
    ByteHexOfDigits(s[1], s[2]);
    ByteHexOfDigits(s[3], s[4]);
    ByteHexOfDigits(s[5], s[6]);
    assert s == "#" + [s[1], s[2]] + [s[3], s[4]] + [s[5], s[6]];
  }
}
