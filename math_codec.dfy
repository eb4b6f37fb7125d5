/** The integer conversions of the Math cog (bot/cogs/Math.py): packing an
    RGB triple, reading six hexadecimal digits back into one, the minimal
    big-endian bytes of a non-negative integer and the Base64 encoding of
    section 4 of RFC 4648 applied to them. */
module MathCodec {
  import opened Wrappers
  import opened PyText

  /** Why a command replies with an error instead of a value. */
  datatype MathError =
    | InvalidRgb      // "Please choose a valid rgb value."
    | InvalidHex      // "Please choose a valid hex value."
    | ValueError      // `int(..., 16)` of text that is not a number
    | OverflowError   // `to_bytes` of a negative number
    | Base64Error     // `b64decode` of text that is not Base64

  // ---------------------------------------------------------------------
  // Python's `|` on integers
  // ---------------------------------------------------------------------

  function Pow2(k: nat): (r: nat)
    ensures r >= 1
  {
    if k == 0 then 1 else 2 * Pow2(k - 1)
  }

  /** `a | b` on non-negative integers, bit by bit. */
  function OrNat(a: nat, b: nat): nat
    decreases a + b
  {
    if a == 0 then b
    else if b == 0 then a
    else 2 * OrNat(a / 2, b / 2) + (if a % 2 == 1 || b % 2 == 1 then 1 else 0)
  }

  /** `a & b` on non-negative integers. */
  function AndNat(a: nat, b: nat): nat
    decreases a
  {
    if a == 0 || b == 0 then 0
    else 2 * AndNat(a / 2, b / 2) + (a % 2) * (b % 2)
  }

  /** `a & ~b` on non-negative integers. */
  function AndNotNat(a: nat, b: nat): nat
    decreases a
  {
    if a == 0 then 0
    else 2 * AndNotNat(a / 2, b / 2) + (a % 2) * (1 - b % 2)
  }

  /** Python's `a | b` on integers of either sign, which behave as infinite
      two's complement bit strings: `~x == -x - 1` and
      `a | b == ~(~a & ~b)`. */
  function PyOr(a: int, b: int): (r: int)
    ensures r >= 0 <==> a >= 0 && b >= 0
  {
    if a >= 0 && b >= 0 then OrNat(a, b)
    else if a < 0 && b < 0 then -1 - AndNat(-a - 1, -b - 1) as int
    else if a < 0 then -1 - AndNotNat(-a - 1, b) as int
    else -1 - AndNotNat(-b - 1, a) as int
  }

  /** Or-ing in a value below 2^k adds it to a multiple of 2^k. */
  lemma {:induction false} OrLowBits(a: nat, k: nat, b: nat)
    requires b < Pow2(k)
    ensures OrNat(a * Pow2(k), b) == a * Pow2(k) + b
    decreases k
  {
    var high := a * Pow2(k);
    if k > 0 && high != 0 && b != 0 {
      var half := a * Pow2(k - 1);
      assert high == 2 * half;
      assert high / 2 == half && high % 2 == 0;
      OrLowBits(a, k - 1, b / 2);
    }
  }

  lemma {:induction false} AndNotNothing(a: nat)
    ensures AndNotNat(a, 0) == a
    decreases a
  {
    if a > 0 {
      AndNotNothing(a / 2);
    }
  }

  /** `a | 0 == a` for either sign. */
  lemma OrZero(a: int)
    ensures PyOr(a, 0) == a
  {
    if a < 0 {
      AndNotNothing(-a - 1);
    }
  }

  // ---------------------------------------------------------------------
  // rgb_to_hex_command and hex_to_rgb_command
  // ---------------------------------------------------------------------

  /** The packed value of `hex red green blue`: the guard compares absolute
      values with 255, so negative components down to -255 pass it. */
  function RgbToHex(red: int, green: int, blue: int): (r: Result<int, MathError>)
    ensures r.Err? <==> !(-255 <= red <= 255 && -255 <= green <= 255 && -255 <= blue <= 255)
    ensures r.Err? ==> r.error == InvalidRgb
  {
    if red > 255 || red < -255 || green > 255 || green < -255 || blue > 255 || blue < -255 then
      Err(InvalidRgb)
    else
      Ok(PyOr(PyOr(red * 65536, green * 256), blue))
  }

  /** For components in 0..255 the packed value is r*65536 + g*256 + b,
      below 2^24, and its three bytes are the components. */
  lemma RgbPacksBytes(red: int, green: int, blue: int)
    requires 0 <= red < 256 && 0 <= green < 256 && 0 <= blue < 256
    ensures RgbToHex(red, green, blue) == Ok(red * 65536 + green * 256 + blue)
    ensures var v := red * 65536 + green * 256 + blue;
            v < 0x100_0000 && v / 65536 == red && (v / 256) % 256 == green && v % 256 == blue
  {
    var high := red * 256 + green;
    assert OrNat(red * 65536, green * 256) == high * 256 by {
      Pow2Values();
      OrLowBits(red, 16, green * 256);
    }
    assert OrNat(high * 256, blue) == high * 256 + blue by {
      Pow2Values();
      OrLowBits(high, 8, blue);
    }
    PackedBytes(red, green, blue);
  }

  lemma Pow2Values()
    ensures Pow2(8) == 256 && Pow2(16) == 65536
  {
    assert Pow2(4) == 16;
    assert Pow2(8) == 16 * Pow2(4) by {
      assert Pow2(8) == 2 * Pow2(7) == 4 * Pow2(6) == 8 * Pow2(5) == 16 * Pow2(4);
    }
    assert Pow2(12) == 16 * Pow2(8) by {
      assert Pow2(12) == 2 * Pow2(11) == 4 * Pow2(10) == 8 * Pow2(9) == 16 * Pow2(8);
    }
    assert Pow2(16) == 16 * Pow2(12) by {
      assert Pow2(16) == 2 * Pow2(15) == 4 * Pow2(14) == 8 * Pow2(13) == 16 * Pow2(12);
    }
  }

  lemma PackedBytes(red: int, green: int, blue: int)
    requires 0 <= red < 256 && 0 <= green < 256 && 0 <= blue < 256
    ensures var v := red * 65536 + green * 256 + blue;
            v < 0x100_0000 && v / 65536 == red && (v / 256) % 256 == green && v % 256 == blue
  {
    var low := green * 256 + blue;
    assert 0 <= low < 65536;
    var v := red * 65536 + low;
    assert v / 256 == red * 256 + green;
  }

  /** A negative component passes the guard and gives a negative value. */
  lemma NegativeRedAccepted()
    ensures RgbToHex(-1, 0, 0) == Ok(-65536)
  {
    OrZero(-65536);
  }

  /** The hex part of the reply, as the command prints it: "0x" followed by
      `hex(hexa)`, which carries its own "0x". */
  function HexReplyAsWritten(value: int): (s: string)
    ensures value >= 0 ==> |s| > 4 && s[..4] == "0x0x"
    ensures value < 0 ==> |s| > 5 && s[..5] == "0x-0x"
  {
    "0x" + Hex(value)
  }

  /** `hex_to_rgb_command`: every "0x" is removed, exactly six characters
      must remain, and each pair is read by `int(pair, 16)`. */
  function HexToRgb(text: string): (r: Result<(int, int, int), MathError>)
    ensures r.Ok? ==> |Replace(text, "0x", "")| == 6
    ensures |Replace(text, "0x", "")| != 6 ==> r == Err(InvalidHex)
  {
    var digits := Replace(text, "0x", "");
    if |digits| != 6 then Err(InvalidHex)
    else
      match (ParseInt(digits[0..2], 16), ParseInt(digits[2..4], 16), ParseInt(digits[4..6], 16))
      case (Some(red), Some(green), Some(blue)) => Ok((red, green, blue))
      case _ => Err(ValueError)
  }

  /** Two hexadecimal digits, zero-padded. */
  function HexPair(x: nat): (p: string)
    requires x < 256
    ensures |p| == 2 && AllDigits(p, 16) && CharDigit(p[0]) * 16 + CharDigit(p[1]) == x
  {
    [DigitChar(x / 16), DigitChar(x % 16)]
  }

  /** The reply the `rgb` command reads back: "0x" and six digits. */
  function HexText(red: nat, green: nat, blue: nat): (s: string)
    requires red < 256 && green < 256 && blue < 256
    ensures |s| == 8 && s[..2] == "0x"
  {
    "0x" + HexPair(red) + HexPair(green) + HexPair(blue)
  }

  /** Digit text without an 'x' holds no "0x". */
  lemma {:induction false} NoXNoPrefix(d: string)
    requires 'x' !in d
    ensures !Occurs(d, "0x")
    decreases |d|
  {
    if |d| > 0 {
      if |d| >= 2 {
        assert d[..2][1] == d[1] != 'x';
      }
      assert 'x' !in d[1..];
      NoXNoPrefix(d[1..]);
    }
  }

  /** Removing "0x" from "0x" + hexadecimal digits leaves the digits. */
  lemma StripHexPrefix(d: string)
    requires AllDigits(d, 16)
    ensures Replace("0x" + d, "0x", "") == d
  {
    var s := "0x" + d;
    assert s[..2] == "0x" && s[2..] == d;
    assert 'x' !in d by {
      forall i | 0 <= i < |d| ensures d[i] != 'x' {
        assert IsDigitIn(d[i], 16);
      }
    }
    NoXNoPrefix(d);
    ReplaceAbsent(d, "0x", "");
  }

  lemma ParseHexPair(x: nat)
    requires x < 256
    ensures ParseInt(HexPair(x), 16) == Some(x)
  {
    ParsePair(HexPair(x));
  }

  /** Two hexadecimal digits read back as sixteen times the first plus the
      second. */
  lemma ParsePair(p: string)
    requires |p| == 2 && AllDigits(p, 16)
    ensures ParseInt(p, 16) == Some(CharDigit(p[0]) * 16 + CharDigit(p[1]))
  {
    ParseHexDigits(p);
    PairValue(p);
  }

  /** Two hexadecimal digits are worth sixteen times the first plus the second. */
  lemma PairValue(p: string)
    requires |p| == 2 && AllDigits(p, 16)
    ensures DigitsValue(p, 16) == CharDigit(p[0]) * 16 + CharDigit(p[1])
  {
    assert p[..1] == [p[0]];
    assert DigitsValue(p[..1], 16) == CharDigit(p[0]);
  }

  /** Six zero-padded digits read back as the components they print. */
  lemma HexTextRoundTrip(red: nat, green: nat, blue: nat)
    requires red < 256 && green < 256 && blue < 256
    ensures HexToRgb(HexText(red, green, blue)) == Ok((red, green, blue))
  {
    var d := HexPair(red) + HexPair(green) + HexPair(blue);
    assert d[0..2] == HexPair(red) && d[2..4] == HexPair(green) && d[4..6] == HexPair(blue);
    assert "0x" + HexPair(red) + HexPair(green) + HexPair(blue) == "0x" + d;
    StripHexPrefix(d);
    ParseHexPair(red);
    ParseHexPair(green);
    ParseHexPair(blue);
  }

  /** Any six hexadecimal digits, in either case and with or without the
      "0x" prefix, read as three pairs, each worth sixteen times its first
      digit plus its second, and so each below 256. */
  lemma SixDigitsRead(d: string, prefixed: bool)
    requires |d| == 6 && AllDigits(d, 16)
    ensures var text := if prefixed then "0x" + d else d;
            var r := HexToRgb(text);
            r.Ok?
            && r.value.0 == CharDigit(d[0]) * 16 + CharDigit(d[1]) < 256
            && r.value.1 == CharDigit(d[2]) * 16 + CharDigit(d[3]) < 256
            && r.value.2 == CharDigit(d[4]) * 16 + CharDigit(d[5]) < 256
  {
    var text := if prefixed then "0x" + d else d;
    CleanedToDigits(d, prefixed);
    SixDigitsParse(text, d);
  }

  /** Removing "0x" from six digits, with or without the prefix, leaves the
      digits. */
  lemma CleanedToDigits(d: string, prefixed: bool)
    requires AllDigits(d, 16)
    ensures Replace(if prefixed then "0x" + d else d, "0x", "") == d
  {
    if prefixed {
      StripHexPrefix(d);
    } else {
      assert 'x' !in d by {
        forall i | 0 <= i < |d| ensures d[i] != 'x' {
          assert IsDigitIn(d[i], 16);
        }
      }
      NoXNoPrefix(d);
      ReplaceAbsent(d, "0x", "");
    }
  }

  /** A text that cleans to six digits is read pair by pair. */
  lemma SixDigitsParse(text: string, d: string)
    requires |d| == 6 && AllDigits(d, 16) && Replace(text, "0x", "") == d
    ensures var r := HexToRgb(text);
            r.Ok?
            && r.value.0 == CharDigit(d[0]) * 16 + CharDigit(d[1]) < 256
            && r.value.1 == CharDigit(d[2]) * 16 + CharDigit(d[3]) < 256
            && r.value.2 == CharDigit(d[4]) * 16 + CharDigit(d[5]) < 256
  {
    ParsePair(d[0..2]);
    ParsePair(d[2..4]);
    ParsePair(d[4..6]);
  }

  /** The reply as written prints the prefix twice, and for a colour with
      a small red component the `rgb` command rejects its digits. */
  lemma HexReplyDoublesPrefix()
    ensures HexReplyAsWritten(0xff0000)[..4] == "0x0x"
    ensures HexToRgb(HexReplyAsWritten(0xff)) == Err(InvalidHex)
  {
    var s := HexReplyAsWritten(0xff);
    var d := NatDigits(0xff, 16);
    assert |d| == 2 by {
      assert d == NatDigits(0xf, 16) + [DigitChar(0xf)];
    }
    assert s == "0x" + ("0x" + d);
    StripHexPrefix(d);
    assert s[..2] == "0x" && s[2..] == "0x" + d;
    assert Replace(s, "0x", "") == d;
  }

  // ---------------------------------------------------------------------
  // Minimal big-endian bytes
  // ---------------------------------------------------------------------

  type Byte = x: int | 0 <= x < 256

  function Pow256(k: nat): (r: nat)
    ensures r >= 1
  {
    if k == 0 then 1 else 256 * Pow256(k - 1)
  }

  /** `n.to_bytes(length, "big")` for a value that fits. */
  function ToBytes(n: nat, length: nat): (bs: seq<Byte>)
    requires n < Pow256(length)
    ensures |bs| == length
  {
    if length == 0 then []
    else
      assert n / 256 < Pow256(length - 1);
      ToBytes(n / 256, length - 1) + [n % 256]
  }

  /** `int.from_bytes(bs, "big")`. */
  function BytesToInt(bs: seq<Byte>): (n: nat)
    ensures n < Pow256(|bs|)
  {
    if bs == [] then 0
    else BytesToInt(bs[..|bs| - 1]) * 256 + bs[|bs| - 1]
  }

  /** `n.bit_length()` for n >= 0. */
  function BitLength(n: nat): nat {
    if n == 0 then 0 else 1 + BitLength(n / 2)
  }

  lemma {:induction false} BitLengthBounds(n: nat)
    ensures n < Pow2(BitLength(n))
    ensures n > 0 ==> Pow2(BitLength(n) - 1) <= n
    decreases n
  {
    if n > 0 {
      BitLengthBounds(n / 2);
    }
  }

  lemma {:induction false} Pow256IsPow2(k: nat)
    ensures Pow256(k) == Pow2(8 * k)
  {
    if k > 0 {
      Pow256IsPow2(k - 1);
      assert Pow2(8 * k) == 256 * Pow2(8 * (k - 1)) by {
        var j := 8 * (k - 1);
        assert Pow2(j + 8) == 2 * Pow2(j + 7) == 4 * Pow2(j + 6) == 8 * Pow2(j + 5);
        assert Pow2(j + 5) == 2 * Pow2(j + 4) == 4 * Pow2(j + 3) == 8 * Pow2(j + 2);
        assert Pow2(j + 2) == 2 * Pow2(j + 1) == 4 * Pow2(j);
      }
    }
  }

  lemma {:induction false} Pow2Monotone(a: nat, b: nat)
    requires a <= b
    ensures Pow2(a) <= Pow2(b)
    decreases b
  {
    if a < b {
      Pow2Monotone(a, b - 1);
    }
  }

  /** The byte count the source computes, `(n.bit_length() + 7) // 8`. */
  function ByteLength(n: nat): nat {
    (BitLength(n) + 7) / 8
  }

  lemma ByteLengthFits(n: nat)
    ensures n < Pow256(ByteLength(n))
    ensures n > 0 ==> ByteLength(n) >= 1 && Pow256(ByteLength(n) - 1) <= n
  {
    var b, len := BitLength(n), ByteLength(n);
    BitLengthBounds(n);
    Pow256IsPow2(len);
    Pow2Monotone(b, 8 * len);
    if n > 0 {
      Pow256IsPow2(len - 1);
      Pow2Monotone(8 * (len - 1), b - 1);
    }
  }

  /** `n.to_bytes((n.bit_length() + 7) // 8, "big")`. */
  function MinimalBytes(n: nat): (bs: seq<Byte>)
    ensures BitLength(n) <= 8 * |bs| < BitLength(n) + 8
  {
    ByteLengthFits(n);
    ToBytes(n, ByteLength(n))
  }

  /** A leading zero byte means the value fits in one byte less. */
  lemma {:induction false} LeadingZeroFits(n: nat, length: nat)
    requires length >= 1 && n < Pow256(length)
    ensures ToBytes(n, length)[0] == 0 ==> n < Pow256(length - 1)
    decreases length
  {
    var bs := ToBytes(n, length);
    if length == 1 {
      assert bs == [n % 256];
    } else if bs[0] == 0 {
      var q := n / 256;
      assert bs[0] == ToBytes(q, length - 1)[0];
      LeadingZeroFits(q, length - 1);
      var p := Pow256(length - 2);
      assert q + 1 <= p;
      assert n < 256 * (q + 1);
      assert 256 * (q + 1) <= 256 * p;
    }
  }

  /** `from_bytes` inverts `to_bytes`. */
  lemma {:induction false} FromToBytes(n: nat, length: nat)
    requires n < Pow256(length)
    ensures BytesToInt(ToBytes(n, length)) == n
    decreases length
  {
    if length > 0 {
      var bs := ToBytes(n, length);
      assert bs[..|bs| - 1] == ToBytes(n / 256, length - 1);
      FromToBytes(n / 256, length - 1);
    }
  }

  /** The encoding of a non-negative integer is empty exactly for 0, never
      starts with a zero byte, and `from_bytes` reads it back. */
  lemma MinimalBytesProperties(n: nat)
    ensures MinimalBytes(n) == [] <==> n == 0
    ensures MinimalBytes(n) != [] ==> MinimalBytes(n)[0] != 0
    ensures BytesToInt(MinimalBytes(n)) == n
  {
    ByteLengthFits(n);
    FromToBytes(n, ByteLength(n));
    if n > 0 {
      LeadingZeroFits(n, ByteLength(n));
    }
  }

  // ---------------------------------------------------------------------
  // Base64, section 4 of RFC 4648
  // ---------------------------------------------------------------------

  /** The character of a 6-bit value in the Base64 alphabet. */
  function B64Char(v: nat): (c: char)
    requires v < 64
  {
    if v < 26 then ('A' as int + v) as char
    else if v < 52 then ('a' as int + v - 26) as char
    else if v < 62 then ('0' as int + v - 52) as char
    else if v == 62 then '+'
    else '/'
  }

  /** The 6-bit value of a Base64 alphabet character. */
  function B64Value(c: char): (r: Option<nat>)
    ensures r.Some? ==> r.value < 64 && B64Char(r.value) == c
    ensures c == '=' ==> r.None?
  {
    if 'A' <= c <= 'Z' then Some(c as int - 'A' as int)
    else if 'a' <= c <= 'z' then Some(c as int - 'a' as int + 26)
    else if '0' <= c <= '9' then Some(c as int - '0' as int + 52)
    else if c == '+' then Some(62)
    else if c == '/' then Some(63)
    else None
  }

  lemma B64CharValue(v: nat)
    requires v < 64
    ensures B64Value(B64Char(v)) == Some(v)
  {
  }

  /** Four characters for three bytes. */
  function EncodeGroup(x: Byte, y: Byte, z: Byte): string {
    [B64Char(x / 4), B64Char((x % 4) * 16 + y / 16), B64Char((y % 16) * 4 + z / 64), B64Char(z % 64)]
  }

  /** `base64.b64encode`: groups of three bytes, and a final group of one
      or two bytes padded with "=". */
  function Encode(bs: seq<Byte>): (s: string)
    ensures |s| % 4 == 0 && (s == [] <==> bs == [])
    decreases |bs|
  {
    if |bs| >= 3 then EncodeGroup(bs[0], bs[1], bs[2]) + Encode(bs[3..])
    else if |bs| == 2 then EncodeGroup(bs[0], bs[1], 0)[..3] + "="
    else if |bs| == 1 then EncodeGroup(bs[0], 0, 0)[..2] + "=="
    else ""
  }

  /** The bytes of one four-character group; padding is allowed only in
      the last group. */
  function DecodeGroup(q: string, last: bool): (r: Option<seq<Byte>>)
    requires |q| == 4
    ensures r.Some? ==> 1 <= |r.value| <= 3 && (|r.value| < 3 ==> last)
  {
    match (B64Value(q[0]), B64Value(q[1]), B64Value(q[2]), B64Value(q[3]))
    case (Some(a), Some(b), Some(c), Some(d)) =>
      Some([a * 4 + b / 16, (b % 16) * 16 + c / 4, (c % 4) * 64 + d])
    case (Some(a), Some(b), Some(c), None) =>
      if last && q[3] == '=' then Some([a * 4 + b / 16, (b % 16) * 16 + c / 4]) else None
    case (Some(a), Some(b), None, None) =>
      if last && q[2] == '=' && q[3] == '=' then Some([a * 4 + b / 16]) else None
    case _ => None
  }

  /** `base64.b64decode` of text in the canonical form: a multiple of four
      characters of the alphabet, with "=" padding only at the end. */
  function Decode(s: string): (r: Option<seq<Byte>>)
    ensures r.Some? ==> |s| % 4 == 0
    decreases |s|
  {
    if s == [] then Some([])
    else if |s| < 4 then None
    else
      match (DecodeGroup(s[..4], |s| == 4), Decode(s[4..]))
      case (Some(group), Some(rest)) => Some(group + rest)
      case _ => None
  }

  /** The sextets of three bytes recombine into the bytes. */
  lemma SextetArithmetic(x: Byte, y: Byte, z: Byte)
    ensures var a, b, c, d := x / 4, (x % 4) * 16 + y / 16, (y % 16) * 4 + z / 64, z % 64;
            a < 64 && b < 64 && c < 64 && d < 64 &&
            a * 4 + b / 16 == x && (b % 16) * 16 + c / 4 == y && (c % 4) * 64 + d == z
  {
  }

  lemma DecodeFullGroup(x: Byte, y: Byte, z: Byte, last: bool)
    ensures DecodeGroup(EncodeGroup(x, y, z), last) == Some([x, y, z])
  {
    SextetArithmetic(x, y, z);
    var q := EncodeGroup(x, y, z);
    B64CharValue(x / 4);
    B64CharValue((x % 4) * 16 + y / 16);
    B64CharValue((y % 16) * 4 + z / 64);
    B64CharValue(z % 64);
  }

  lemma DecodeTwoBytes(x: Byte, y: Byte)
    ensures DecodeGroup(EncodeGroup(x, y, 0)[..3] + "=", true) == Some([x, y])
  {
    SextetArithmetic(x, y, 0);
    var q := EncodeGroup(x, y, 0)[..3] + "=";
    B64CharValue(x / 4);
    B64CharValue((x % 4) * 16 + y / 16);
    B64CharValue((y % 16) * 4);
    assert q[3] == '=';
  }

  lemma DecodeOneByte(x: Byte)
    ensures DecodeGroup(EncodeGroup(x, 0, 0)[..2] + "==", true) == Some([x])
  {
    SextetArithmetic(x, 0, 0);
    var q := EncodeGroup(x, 0, 0)[..2] + "==";
    B64CharValue(x / 4);
    B64CharValue((x % 4) * 16);
    assert q[2] == '=' && q[3] == '=';
  }

  /** A group followed by more text decodes to the group's bytes followed
      by the rest's. */
  lemma DecodeCons(q: string, t: string, group: seq<Byte>, rest: seq<Byte>)
    requires |q| == 4 && DecodeGroup(q, t == []) == Some(group) && Decode(t) == Some(rest)
    ensures Decode(q + t) == Some(group + rest)
  {
    var s := q + t;
    assert s[..4] == q && s[4..] == t;
  }

  /** A final group alone decodes to its bytes. */
  lemma DecodeLast(q: string, group: seq<Byte>)
    requires |q| == 4 && DecodeGroup(q, true) == Some(group)
    ensures Decode(q) == Some(group)
  {
    assert q[..4] == q && q[4..] == [];
    assert group + [] == group;
  }

  /** Decoding inverts encoding. */
  lemma {:induction false} Base64RoundTrip(bs: seq<Byte>)
    ensures Decode(Encode(bs)) == Some(bs)
    decreases |bs|
  {
    if |bs| >= 3 {
      Base64RoundTrip(bs[3..]);
      RoundTripStep(bs);
    } else if |bs| == 2 {
      RoundTripTwo(bs);
    } else if |bs| == 1 {
      RoundTripOne(bs);
    }
  }

  /** A full group in front of a tail that round-trips. */
  lemma RoundTripStep(bs: seq<Byte>)
    requires |bs| >= 3 && Decode(Encode(bs[3..])) == Some(bs[3..])
    ensures Decode(Encode(bs)) == Some(bs)
  {
    var t := Encode(bs[3..]);
    assert Encode(bs) == EncodeGroup(bs[0], bs[1], bs[2]) + t;
    DecodeFullGroup(bs[0], bs[1], bs[2], t == []);
    DecodeCons(EncodeGroup(bs[0], bs[1], bs[2]), t, [bs[0], bs[1], bs[2]], bs[3..]);
    SplitThree(bs);
  }

  lemma SplitThree(bs: seq<Byte>)
    requires |bs| >= 3
    ensures [bs[0], bs[1], bs[2]] + bs[3..] == bs
  {
    assert bs == bs[..3] + bs[3..];
  }

  lemma RoundTripTwo(bs: seq<Byte>)
    requires |bs| == 2
    ensures Decode(Encode(bs)) == Some(bs)
  {
    DecodeTwoBytes(bs[0], bs[1]);
    DecodeLast(EncodeGroup(bs[0], bs[1], 0)[..3] + "=", [bs[0], bs[1]]);
    assert [bs[0], bs[1]] == bs;
  }

  lemma RoundTripOne(bs: seq<Byte>)
    requires |bs| == 1
    ensures Decode(Encode(bs)) == Some(bs)
  {
    DecodeOneByte(bs[0]);
    DecodeLast(EncodeGroup(bs[0], 0, 0)[..2] + "==", [bs[0]]);
    assert [bs[0]] == bs;
  }

  /** Four characters for every three bytes or part of three. */
  lemma {:induction false} EncodedLength(bs: seq<Byte>)
    ensures |Encode(bs)| == 4 * ((|bs| + 2) / 3)
    decreases |bs|
  {
    if |bs| >= 3 {
      EncodedLength(bs[3..]);
      assert (|bs| + 2) / 3 == (|bs[3..]| + 2) / 3 + 1;
    }
  }

  // ---------------------------------------------------------------------
  // The four Base64 commands
  // ---------------------------------------------------------------------

  /** `inttob64 num`: a negative number makes `to_bytes` fail. */
  function IntToB64(n: int): (r: Result<string, MathError>)
    ensures r.Err? <==> n < 0
    ensures r.Ok? ==> |r.value| % 4 == 0 && (r.value == "" <==> n == 0)
  {
    if n < 0 then Err(OverflowError)
    else
      MinimalBytesProperties(n);
      Ok(Encode(MinimalBytes(n)))
  }

  /** `b64toint text`. */
  function B64ToInt(text: string): (r: Result<nat, MathError>)
    ensures r.Err? <==> Decode(text).None?
  {
    match Decode(text)
    case None => Err(Base64Error)
    case Some(bs) => Ok(BytesToInt(bs))
  }

  /** `hextob64 text`: every "0x" removed, then `int(..., 16)`. */
  function HexToB64(text: string): (r: Result<string, MathError>)
    ensures ParseInt(Replace(text, "0x", ""), 16).None? ==> r == Err(ValueError)
    ensures r.Ok? ==> |r.value| % 4 == 0
  {
    match ParseInt(Replace(text, "0x", ""), 16)
    case None => Err(ValueError)
    case Some(n) => IntToB64(n)
  }

  /** `b64tohex text`: `hex` of the decoded integer. */
  function B64ToHex(text: string): (r: Result<string, MathError>)
    ensures r.Err? <==> Decode(text).None?
    ensures r.Ok? ==> |r.value| >= 3 && r.value[..2] == "0x"
  {
    match Decode(text)
    case None => Err(Base64Error)
    case Some(bs) => Ok(Hex(BytesToInt(bs)))
  }

  /** `b64toint` reads back what `inttob64` printed. */
  lemma IntB64RoundTrip(n: nat)
    ensures IntToB64(n).Ok? && B64ToInt(IntToB64(n).value) == Ok(n)
  {
    MinimalBytesProperties(n);
    Base64RoundTrip(MinimalBytes(n));
  }

  /** `b64tohex` gives back the `hex(n)` that `hextob64` was given. */
  lemma HexB64RoundTrip(n: nat)
    ensures HexToB64(Hex(n)).Ok? && B64ToHex(HexToB64(Hex(n)).value) == Ok(Hex(n))
  {
    var d := NatDigits(n, 16);
    StripHexPrefix(d);
    ParseHexDigits(d);
    NatDigitsValue(n, 16);
    IntB64RoundTrip(n);
  }

  /** A negative number is refused by `hextob64` as by `inttob64`. */
  lemma NegativeHexRefused(n: nat)
    requires n > 0
    ensures HexToB64(Hex(-(n as int))) == Err(OverflowError)
  {
    var d := NatDigits(n, 16);
    assert Hex(-(n as int)) == "-0x" + d;
    assert 'x' !in d by {
      forall i | 0 <= i < |d| ensures d[i] != 'x' { assert IsDigitIn(d[i], 16); }
    }
    NoXNoPrefix(d);
    ReplaceAbsent(d, "0x", "");
    var s := "-0x" + d;
    assert s[..2] != "0x" by { assert s[0] == '-'; }
    assert s[1..] == "0x" + d;
    StripHexPrefix(d);
    assert Replace(s, "0x", "") == "-" + d;
    ParseNegativeHexDigits(n);
  }
}
