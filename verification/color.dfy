/** `hex_to_rgba` (src/util/color.rs) and the `#rrggbb` formatting that
    usermap.rs stores in its colour cache. Strings are their UTF-8 bytes: the
    Rust slices `&hex[1..3]`, `&hex[3..5]`, `&hex[5..7]` are byte ranges. */
module Color {
  import opened Image

  const HASH: Byte := 35
  const PLUS: Byte := 43

  predicate IsHexDigit(c: Byte) {
    (48 <= c <= 57) || (65 <= c <= 70) || (97 <= c <= 102)
  }

  function DigitValue(c: Byte): (v: nat)
    requires IsHexDigit(c)
    ensures v < 16
  {
    if c <= 57 then c - 48 else if c <= 70 then c - 55 else c - 87
  }

  predicate AllHexDigits(s: seq<Byte>) {
    forall i :: 0 <= i < |s| ==> IsHexDigit(s[i])
  }

  /** The base-16 value of a run of digits, most significant first. */
  function HexValue(s: seq<Byte>): nat
    requires AllHexDigits(s)
  {
    if |s| == 0 then 0 else 16 * HexValue(s[..|s| - 1]) + DigitValue(s[|s| - 1])
  }

  /** `u8::from_str_radix(s, 16)`: an optional leading `+`, then at least one
      hex digit, and a value that fits in a byte; anything else is an error. */
  function FromStrRadix16(s: seq<Byte>): (r: Option<Byte>)
  {
    var digits := if |s| > 0 && s[0] == PLUS then s[1..] else s;
    if |digits| == 0 || !AllHexDigits(digits) || HexValue(digits) > 255 then None
    else Some(HexValue(digits))
  }

  /** A two-byte field such as `hex[1..3]` parses: two hex digits, or `+` and one. */
  predicate ValidPair(a: Byte, b: Byte) {
    (a == PLUS || IsHexDigit(a)) && IsHexDigit(b)
  }

  /** The value of a valid two-byte field. */
  function PairValue(a: Byte, b: Byte): Byte
    requires ValidPair(a, b)
  {
    if a == PLUS then DigitValue(b) else 16 * DigitValue(a) + DigitValue(b)
  }

  /** The string `hex_to_rgba` accepts without panicking. */
  predicate WellFormedHex(s: seq<Byte>) {
    |s| >= 7 && ValidPair(s[1], s[2]) && ValidPair(s[3], s[4]) && ValidPair(s[5], s[6])
  }

  /** `from_str_radix` on a two-byte field agrees with the closed form above. */
  lemma PairParse(a: Byte, b: Byte)
    ensures FromStrRadix16([a, b]).Some? <==> ValidPair(a, b)
    ensures ValidPair(a, b) ==> FromStrRadix16([a, b]) == Some(PairValue(a, b))
  {
    var s := [a, b];
    if a == PLUS {
      assert s[1..] == [b];
      if IsHexDigit(b) {
        assert [b][..0] == [];
        assert HexValue([b]) == DigitValue(b);
      }
    } else if IsHexDigit(a) && IsHexDigit(b) {
      assert s[..1] == [a];
      assert [a][..0] == [];
      assert HexValue([a]) == DigitValue(a);
      assert HexValue(s) == 16 * DigitValue(a) + DigitValue(b);
    } else if !IsHexDigit(a) {
      assert !IsHexDigit(s[0]);
    } else {
      assert !IsHexDigit(s[1]);
    }
  }

  /** `hex_to_rgba`: channels from bytes [1,3), [3,5), [5,7); alpha 255;
      `None` where the Rust code panics. */
  function HexToRgba(s: seq<Byte>): (c: Option<Rgba>)
    ensures c.Some? <==> WellFormedHex(s)
    ensures c.Some? ==> c.value == Rgba(PairValue(s[1], s[2]), PairValue(s[3], s[4]), PairValue(s[5], s[6]), 255)
  {
    if |s| < 7 then None
    else
      PairParse(s[1], s[2]);
      PairParse(s[3], s[4]);
      PairParse(s[5], s[6]);
      assert s[1..3] == [s[1], s[2]] && s[3..5] == [s[3], s[4]] && s[5..7] == [s[5], s[6]];
      match (FromStrRadix16(s[1..3]), FromStrRadix16(s[3..5]), FromStrRadix16(s[5..7]))
      case (Some(r), Some(g), Some(b)) => Some(Rgba(r, g, b, 255))
      case _ => None
  }

  /** The leading byte (the `#`) is never inspected, and nothing after byte 6 is read. */
  lemma OnlyBytesOneToSixMatter(s: seq<Byte>, t: seq<Byte>)
    requires |s| >= 7 && |t| >= 7 && s[1..7] == t[1..7]
    ensures HexToRgba(s) == HexToRgba(t)
  {
    assert s[1] == s[1..7][0] == t[1];
    assert s[2] == s[1..7][1] == t[2];
    assert s[3] == s[1..7][2] == t[3];
    assert s[4] == s[1..7][3] == t[4];
    assert s[5] == s[1..7][4] == t[5];
    assert s[6] == s[1..7][5] == t[6];
  }

  /** `from_str_radix` accepts a lone `+` before one digit, so every field
      written `+d` decodes like the zero-padded `0d`, to the digit's value. */
  lemma PlusSignAccepted(h: Byte, a: Byte, b: Byte, c: Byte)
    requires IsHexDigit(a) && IsHexDigit(b) && IsHexDigit(c)
    ensures HexToRgba([h, PLUS, a, PLUS, b, PLUS, c]) == HexToRgba([h, 48, a, 48, b, 48, c])
    ensures HexToRgba([h, PLUS, a, PLUS, b, PLUS, c]) == Some(Rgba(DigitValue(a), DigitValue(b), DigitValue(c), 255))
  {
  }

  function LowerHexDigit(d: nat): (c: Byte)
    requires d < 16
    ensures IsHexDigit(c) && DigitValue(c) == d
  {
    if d < 10 then 48 + d else 87 + d
  }

  /** `format!("{:02x}", v)`. */
  function Hex2(v: Byte): (s: seq<Byte>)
    ensures |s| == 2
  {
    [LowerHexDigit(v / 16), LowerHexDigit(v % 16)]
  }

  /** `format!("#{:02x}{:02x}{:02x}", r, g, b)`. */
  function FormatHex(r: Byte, g: Byte, b: Byte): (s: seq<Byte>)
    ensures |s| == 7 && s[0] == HASH
  {
    [HASH] + Hex2(r) + Hex2(g) + Hex2(b)
  }

  /** Decoding a formatted colour gives it back, with alpha 255. */
  lemma FormatRoundTrip(r: Byte, g: Byte, b: Byte)
    ensures HexToRgba(FormatHex(r, g, b)) == Some(Rgba(r, g, b, 255))
  {
    var s := FormatHex(r, g, b);
    assert s[1..3] == Hex2(r) && s[3..5] == Hex2(g) && s[5..7] == Hex2(b);
    assert s[1] != PLUS && s[3] != PLUS && s[5] != PLUS;
    assert PairValue(s[1], s[2]) == 16 * (r / 16) + r % 16 == r;
    assert PairValue(s[3], s[4]) == 16 * (g / 16) + g % 16 == g;
    assert PairValue(s[5], s[6]) == 16 * (b / 16) + b % 16 == b;
  }
}
