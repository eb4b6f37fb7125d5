/** The Python string and integer built-ins the bot's code relies on:
    `str(n)`, `hex(n)`, `int(s, base)`, `str.lower`, `str.strip`,
    `str.isdigit`, `str.replace`, `str.split` and `sep.join`, over ASCII. */
module PyText {
  import opened Wrappers

  // ---------------------------------------------------------------------
  // Characters
  // ---------------------------------------------------------------------

  /** `c.isspace()` for an ASCII character: space, \t \n \v \f \r and the
      four separators 0x1c-0x1f. */
  predicate IsSpace(c: char) {
    var k := c as int;
    k == 32 || 9 <= k <= 13 || 28 <= k <= 31
  }

  /** The value of `c` as a hexadecimal digit (either case), or -1. */
  function CharDigit(c: char): (d: int)
    ensures -1 <= d < 16
    ensures d >= 0 <==> ('0' <= c <= '9' || 'a' <= c <= 'f' || 'A' <= c <= 'F')
  {
    if '0' <= c <= '9' then c as int - '0' as int
    else if 'a' <= c <= 'f' then c as int - 'a' as int + 10
    else if 'A' <= c <= 'F' then c as int - 'A' as int + 10
    else -1
  }

  predicate IsDigitIn(c: char, base: nat) {
    0 <= CharDigit(c) < base
  }

  predicate AllDigits(s: string, base: nat) {
    forall i :: 0 <= i < |s| ==> IsDigitIn(s[i], base)
  }

  /** `s.isdigit()`: non-empty and made of decimal digits only. */
  predicate IsDecimal(s: string) {
    |s| > 0 && AllDigits(s, 10)
  }

  /** The length of the run of decimal digits that `s` starts with. */
  function DigitRun(s: string): (n: nat)
    ensures n <= |s|
    ensures forall i :: 0 <= i < n ==> IsDigitIn(s[i], 10)
    ensures n < |s| ==> !IsDigitIn(s[n], 10)
    decreases |s|
  {
    if s == [] || !IsDigitIn(s[0], 10) then 0 else 1 + DigitRun(s[1..])
  }

  /** A digit run stops at the first character that is not a digit. */
  lemma {:induction false} DigitRunOfDigits(d: string, rest: string)
    requires AllDigits(d, 10)
    requires rest == [] || !IsDigitIn(rest[0], 10)
    ensures DigitRun(d + rest) == |d|
    decreases |d|
  {
    if d != [] {
      assert (d + rest)[0] == d[0];
      assert (d + rest)[1..] == d[1..] + rest;
      assert AllDigits(d[1..], 10) by {
        forall i | 0 <= i < |d| - 1 ensures IsDigitIn(d[1..][i], 10) { assert d[1..][i] == d[i + 1]; }
      }
      DigitRunOfDigits(d[1..], rest);
    } else {
      assert d + rest == rest;
    }
  }

  /** The lower-case digit character `hex` and `str` print for `d`. */
  function DigitChar(d: nat): (c: char)
    requires d < 16
    ensures CharDigit(c) == d
    ensures '0' <= c <= '9' || 'a' <= c <= 'f'
  {
    if d < 10 then ('0' as int + d) as char else ('a' as int + d - 10) as char
  }

  /** `c.lower()` for ASCII letters; every other character is kept. */
  function LowerChar(c: char): char {
    if 'A' <= c <= 'Z' then (c as int + 32) as char else c
  }

  function Lower(s: string): (r: string)
    ensures |r| == |s|
  {
    seq(|s|, i requires 0 <= i < |s| => LowerChar(s[i]))
  }

  // ---------------------------------------------------------------------
  // Numbers as text
  // ---------------------------------------------------------------------

  /** The value of a string of digits in `base`, most significant first. */
  function DigitsValue(s: string, base: nat): nat
    requires AllDigits(s, base)
  {
    if s == [] then 0
    else DigitsValue(s[..|s| - 1], base) * base + CharDigit(s[|s| - 1])
  }

  /** The digits of `n` in `base` without leading zeros, as `str` and `hex`
      print them. */
  function NatDigits(n: nat, base: nat): (s: string)
    requires base == 10 || base == 16
    ensures |s| >= 1 && AllDigits(s, base)
    ensures |s| > 1 ==> s[0] != '0'
    decreases n
  {
    if n < base then [DigitChar(n)]
    else NatDigits(n / base, base) + [DigitChar(n % base)]
  }

  /** `str(n)`. */
  function IntToString(n: int): string {
    if n < 0 then "-" + NatDigits(-n, 10) else NatDigits(n, 10)
  }

  /** `hex(n)`: a sign for negatives, then "0x", then lower-case digits. */
  function Hex(n: int): string {
    if n < 0 then "-" + HexMagnitude(-n) else HexMagnitude(n)
  }

  /** `hex(m)` of a non-negative `m`: "0x", then lower-case digits. */
  function HexMagnitude(m: nat): string {
    "0x" + NatDigits(m, 16)
  }

  lemma {:induction false} NatDigitsValue(n: nat, base: nat)
    requires base == 10 || base == 16
    ensures DigitsValue(NatDigits(n, base), base) == n
    decreases n
  {
    if n >= base {
      var s := NatDigits(n, base);
      assert s[..|s| - 1] == NatDigits(n / base, base);
      NatDigitsValue(n / base, base);
    }
  }

  // ---------------------------------------------------------------------
  // int(s, base)
  // ---------------------------------------------------------------------

  function StripLeft(s: string): (r: string)
    ensures r == [] || !IsSpace(r[0])
    ensures |r| <= |s|
  {
    if |s| > 0 && IsSpace(s[0]) then StripLeft(s[1..]) else s
  }

  function StripRight(s: string): (r: string)
    ensures r == [] || !IsSpace(r[|r| - 1])
    ensures |r| <= |s|
  {
    if |s| > 0 && IsSpace(s[|s| - 1]) then StripRight(s[..|s| - 1]) else s
  }

  /** `s.strip()`. */
  function Strip(s: string): string {
    StripRight(StripLeft(s))
  }

  /** The digits of a digit run in which single underscores may separate
      two digits (Python's integer literal grammar), or None. */
  function DigitGroups(u: string, base: nat): (r: Option<string>)
    ensures r.Some? ==> |r.value| >= 1 && AllDigits(r.value, base)
  {
    if |u| == 0 || !IsDigitIn(u[0], base) then None
    else if |u| == 1 then Some([u[0]])
    else
      var rest := if u[1] == '_' then u[2..] else u[1..];
      match DigitGroups(rest, base)
      case None => None
      case Some(d) => Some([u[0]] + d)
  }

  /** Digits after an optional base-16 prefix "0x"/"0X" (itself
      optionally followed by one underscore). */
  function WithoutPrefix(u: string, base: nat): string {
    if base == 16 && |u| >= 2 && u[0] == '0' && (u[1] == 'x' || u[1] == 'X') then
      (if |u| > 2 && u[2] == '_' then u[3..] else u[2..])
    else u
  }

  /** An unsigned literal: optional prefix, then digit groups. */
  function ParseUnsigned(u: string, base: nat): Option<nat> {
    match DigitGroups(WithoutPrefix(u, base), base)
    case None => None
    case Some(d) => Some(DigitsValue(d, base))
  }

  /** A literal with an optional sign. */
  function ParseSigned(t: string, base: nat): Option<int> {
    var neg := |t| > 0 && t[0] == '-';
    var magnitude := ParseUnsigned(if |t| > 0 && (t[0] == '-' || t[0] == '+') then t[1..] else t, base);
    if magnitude.None? then None
    else if neg then Some(0 - magnitude.value)
    else Some(magnitude.value)
  }

  /** `int(s, base)` for base 10 or 16: surrounding white space, an
      optional sign, for base 16 an optional "0x"/"0X" prefix, then digits
      with single underscores between them. None stands for the ValueError
      Python raises. */
  function ParseInt(s: string, base: nat): Option<int>
    requires base == 10 || base == 16
  {
    ParseSigned(Strip(s), base)
  }

  lemma {:induction false} DigitGroupsOfDigits(u: string, base: nat)
    requires |u| >= 1 && AllDigits(u, base)
    ensures DigitGroups(u, base) == Some(u)
    decreases |u|
  {
    assert IsDigitIn(u[0], base);
    if |u| == 1 {
      assert [u[0]] == u;
    } else {
      assert IsDigitIn(u[1], base);
      assert u[1] != '_';
      AllDigitsTail(u, base);
      DigitGroupsOfDigits(u[1..], base);
      FirstAndRest(u);
    }
  }

  lemma AllDigitsTail(u: string, base: nat)
    requires |u| >= 1 && AllDigits(u, base)
    ensures AllDigits(u[1..], base)
  {
    forall i | 0 <= i < |u| - 1 ensures IsDigitIn(u[1..][i], base) {
      assert u[1..][i] == u[i + 1];
    }
  }

  lemma FirstAndRest(u: string)
    requires |u| >= 1
    ensures [u[0]] + u[1..] == u
  {
  }

  /** Text that neither starts nor ends with white space is its own strip. */
  lemma StripUnspaced(s: string)
    requires |s| > 0 && !IsSpace(s[0]) && !IsSpace(s[|s| - 1])
    ensures Strip(s) == s
  {
  }

  /** A string of digits without a prefix reads back as its value. */
  lemma ParseUnsignedDigits(u: string, base: nat)
    requires base == 10 || base == 16
    requires |u| >= 1 && AllDigits(u, base)
    ensures ParseUnsigned(u, base) == Some(DigitsValue(u, base))
  {
    assert WithoutPrefix(u, base) == u by {
      if |u| >= 2 { assert IsDigitIn(u[1], base); }
    }
    DigitGroupsOfDigits(u, base);
  }

  /** Digits are neither white space nor a sign. */
  lemma DigitsUnsigned(d: string, base: nat)
    requires base == 10 || base == 16
    requires |d| >= 1 && AllDigits(d, base)
    ensures !IsSpace(d[0]) && !IsSpace(d[|d| - 1]) && d[0] != '-' && d[0] != '+'
  {
    assert IsDigitIn(d[0], base) && IsDigitIn(d[|d| - 1], base);
  }

  /** `int` of a literal that starts with a minus sign. */
  lemma ParseSignedMinus(t: string, base: nat)
    requires |t| > 0 && t[0] == '-'
    ensures ParseSigned(t, base) ==
      if ParseUnsigned(t[1..], base).None? then None else Some(0 - ParseUnsigned(t[1..], base).value)
  {
  }

  /** `int` of a literal without a sign. */
  lemma ParseSignedPlain(t: string, base: nat)
    requires |t| > 0 && t[0] != '-' && t[0] != '+'
    ensures ParseSigned(t, base) ==
      if ParseUnsigned(t, base).None? then None else Some(ParseUnsigned(t, base).value as int)
  {
  }

  /** An unsigned literal `u` with value `v` reads back as `v`. */
  lemma ParseUnsignedText(u: string, base: nat, v: nat)
    requires base == 10 || base == 16
    requires |u| >= 1 && !IsSpace(u[0]) && !IsSpace(u[|u| - 1]) && u[0] != '-' && u[0] != '+'
    requires ParseUnsigned(u, base) == Some(v)
    ensures ParseInt(u, base) == Some(v)
  {
    StripUnspaced(u);
    ParseSignedPlain(u, base);
  }

  /** An unsigned literal `u` with value `v` after a minus sign reads back
      as `-v`. */
  lemma ParseMinusText(u: string, base: nat, v: nat)
    requires base == 10 || base == 16
    requires |u| >= 1 && !IsSpace(u[|u| - 1])
    requires ParseUnsigned(u, base) == Some(v)
    ensures ParseInt("-" + u, base) == Some(0 - v)
  {
    var s := "-" + u;
    assert s[0] == '-' && s[1..] == u && s[|s| - 1] == u[|u| - 1];
    StripUnspaced(s);
    ParseSignedMinus(s, base);
  }

  /** `int(d, 16)` of plain hexadecimal digits is their value. */
  lemma ParseHexDigits(d: string)
    requires |d| >= 1 && AllDigits(d, 16)
    ensures ParseInt(d, 16) == Some(DigitsValue(d, 16))
  {
    DigitsUnsigned(d, 16);
    ParseUnsignedDigits(d, 16);
    ParseUnsignedText(d, 16, DigitsValue(d, 16));
  }

  /** `int("-" + digits, 16)` of the digits `hex` prints. */
  lemma ParseNegativeHexDigits(n: nat)
    ensures ParseInt("-" + NatDigits(n, 16), 16) == Some(0 - n)
  {
    var d := NatDigits(n, 16);
    NatDigitsValue(n, 16);
    DigitsUnsigned(d, 16);
    ParseUnsignedDigits(d, 16);
    ParseMinusText(d, 16, n);
  }

  /** `int(str(n)) == n` for every integer. */
  lemma IntToStringRoundTrip(n: int)
    ensures ParseInt(IntToString(n), 10) == Some(n)
  {
    var m: nat := if n < 0 then -n else n;
    var d := NatDigits(m, 10);
    NatDigitsValue(m, 10);
    DigitsUnsigned(d, 10);
    ParseUnsignedDigits(d, 10);
    if n < 0 {
      ParseMinusText(d, 10, m);
    } else {
      ParseUnsignedText(d, 10, m);
    }
  }

  /** The digits after the "0x" that `hex` writes. */
  lemma ParsePrefixedHex(d: string)
    requires |d| >= 1 && AllDigits(d, 16)
    ensures ParseUnsigned("0x" + d, 16) == Some(DigitsValue(d, 16))
  {
    var u := "0x" + d;
    assert u[0] == '0' && u[1] == 'x' && u[2..] == d;
    assert IsDigitIn(d[0], 16);
    assert WithoutPrefix(u, 16) == d;
    DigitGroupsOfDigits(d, 16);
  }

  /** `int(hex(n), 16) == n` for every integer: the "0x" prefix that `hex`
      writes is accepted again by base-16 `int`. */
  lemma HexRoundTrip(n: int)
    ensures ParseInt(Hex(n), 16) == Some(n)
  {
    if n < 0 {
      HexRoundTripNegative(-n);
    } else {
      HexRoundTripNatural(n);
    }
  }

  /** The unsigned literal "0x" + digits that `hex` writes for `m`. */
  lemma HexLiteral(m: nat)
    ensures var u := HexMagnitude(m);
      ParseUnsigned(u, 16) == Some(m) && !IsSpace(u[0]) && !IsSpace(u[|u| - 1]) && u[0] != '-' && u[0] != '+'
  {
    var d := NatDigits(m, 16);
    NatDigitsValue(m, 16);
    ParsePrefixedHex(d);
    DigitsUnsigned(d, 16);
    var u := "0x" + d;
    assert u[0] == '0' && u[|u| - 1] == d[|d| - 1];
  }

  lemma HexRoundTripNatural(m: nat)
    ensures ParseInt(Hex(m), 16) == Some(m)
  {
    var u := HexMagnitude(m);
    HexLiteral(m);
    ParseUnsignedText(u, 16, m);
  }

  lemma HexRoundTripNegative(m: nat)
    requires m > 0
    ensures ParseInt(Hex(0 - m), 16) == Some(0 - m)
  {
    var u := HexMagnitude(m);
    HexLiteral(m);
    ParseMinusText(u, 16, m);
  }

  // ---------------------------------------------------------------------
  // replace, split, join
  // ---------------------------------------------------------------------

  predicate StartsWith(s: string, p: string) {
    |p| <= |s| && s[..|p|] == p
  }

  /** `p in s`: `p` occurs somewhere in `s`. */
  predicate Occurs(s: string, p: string)
    decreases |s|
  {
    StartsWith(s, p) || (|s| > 0 && Occurs(s[1..], p))
  }

  /** `s.replace(p, r)` for a non-empty `p`: occurrences are found from the
      left and do not overlap. */
  function Replace(s: string, p: string, r: string): string
    requires |p| > 0
    decreases |s|
  {
    if |s| < |p| then s
    else if s[..|p|] == p then r + Replace(s[|p|..], p, r)
    else [s[0]] + Replace(s[1..], p, r)
  }

  /** Text in which `p` does not occur comes back from `replace` unchanged. */
  lemma {:induction false} ReplaceAbsent(s: string, p: string, r: string)
    requires |p| > 0 && !Occurs(s, p)
    ensures Replace(s, p, r) == s
    decreases |s|
  {
    if |s| >= |p| {
      ReplaceAbsent(s[1..], p, r);
      assert [s[0]] + s[1..] == s;
    }
  }

  /** `p` does not start anywhere in `s` before index `i`. */
  predicate NoneBefore(s: string, p: string, i: nat) {
    forall j {:trigger StartsWith(s[j..], p)} :: 0 <= j < i && j <= |s| ==> !StartsWith(s[j..], p)
  }

  /** `replace` replaces the leftmost occurrence and carries on after it. */
  lemma {:induction false} ReplaceAtFirst(s: string, p: string, r: string, i: nat)
    requires |p| > 0 && i + |p| <= |s| && s[i..i + |p|] == p
    requires NoneBefore(s, p, i)
    ensures Replace(s, p, r) == s[..i] + r + Replace(s[i + |p|..], p, r)
    decreases i, 1
  {
    if i == 0 {
      ReplaceAtStart(s, p, r);
    } else {
      ReplaceAtLater(s, p, r, i);
    }
  }

  /** The case of `ReplaceAtFirst` where the occurrence is not at the start:
      the first character is kept. */
  lemma {:induction false} ReplaceAtLater(s: string, p: string, r: string, i: nat)
    requires 0 < i && |p| > 0 && i + |p| <= |s| && s[i..i + |p|] == p
    requires NoneBefore(s, p, i)
    ensures Replace(s, p, r) == s[..i] + r + Replace(s[i + |p|..], p, r)
    decreases i, 0
  {
    NoEarlierInTail(s, p, i);
    ReplaceAtFirst(s[1..], p, r, i - 1);
    ReplaceKeepsFirst(s, p, r, i);
  }

  /** A text that starts with `p` starts with the replacement. */
  lemma ReplaceAtStart(s: string, p: string, r: string)
    requires 0 < |p| <= |s| && s[0..|p|] == p
    ensures Replace(s, p, r) == s[..0] + r + Replace(s[0 + |p|..], p, r)
  {
    assert s[..|p|] == s[0..|p|];
    assert s[..0] + r == r;
  }

  /** One step of `ReplaceAtFirst`: the first character is kept, and the
      rest is the step for `s[1..]`. */
  lemma ReplaceKeepsFirst(s: string, p: string, r: string, i: nat)
    requires 0 < i && |p| > 0 && i + |p| <= |s| && !StartsWith(s, p)
    requires Replace(s[1..], p, r) == s[1..][..i - 1] + r + Replace(s[1..][i - 1 + |p|..], p, r)
    ensures Replace(s, p, r) == s[..i] + r + Replace(s[i + |p|..], p, r)
  {
    var t := s[1..];
    assert t[i - 1 + |p|..] == s[i + |p|..];
    var after := Replace(s[i + |p|..], p, r);
    ReplaceSkip(s, p, r);
    RegroupAround([s[0]], t[..i - 1], r, after);
    assert [s[0]] + t[..i - 1] == s[..i];
  }

  lemma RegroupAround(a: string, b: string, c: string, d: string)
    ensures a + (b + c + d) == (a + b) + c + d
  {
  }

  /** A text that does not start with `p` keeps its first character. */
  lemma ReplaceSkip(s: string, p: string, r: string)
    requires 0 < |p| <= |s| && !StartsWith(s, p)
    ensures Replace(s, p, r) == [s[0]] + Replace(s[1..], p, r)
  {
  }

  lemma NoEarlierInTail(s: string, p: string, i: nat)
    requires 0 < i && i + |p| <= |s| && NoneBefore(s, p, i)
    ensures !StartsWith(s, p)
    ensures NoneBefore(s[1..], p, i - 1)
    ensures s[1..][i - 1..i - 1 + |p|] == s[i..i + |p|]
  {
    assert s[0..] == s;
    forall j | 0 <= j < i - 1 && j <= |s[1..]|
      ensures !StartsWith(s[1..][j..], p)
    {
      assert s[1..][j..] == s[j + 1..];
    }
  }

  /** Replacing a whole text gives the replacement. */
  lemma ReplaceWhole(p: string, r: string)
    requires |p| > 0
    ensures Replace(p, p, r) == r
  {
    assert p[..|p|] == p;
    assert p[|p|..] == [];
    assert r + [] == r;
  }

  /** A pattern longer than the text does not occur in it. */
  lemma {:induction false} ShorterNoOccurrence(s: string, p: string)
    requires |s| < |p|
    ensures !Occurs(s, p)
    decreases |s|
  {
    if |s| > 0 {
      ShorterNoOccurrence(s[1..], p);
    }
  }

  /** Every '{' of `s` starts an occurrence of `p`. */
  predicate BracesStart(s: string, p: string) {
    forall i :: 0 <= i < |s| && s[i] == '{' ==> StartsWith(s[i..], p)
  }

  /** When every '{' of the text starts an occurrence of `p` and `r` has no
      '{', no '{' is left after the replace. */
  lemma {:induction false} ReplaceLeavesNoBrace(s: string, p: string, r: string)
    requires |p| > 0 && '{' !in r && BracesStart(s, p)
    ensures '{' !in Replace(s, p, r)
    decreases |s|
  {
    if |s| < |p| {
      forall i | 0 <= i < |s| ensures s[i] != '{' { }
    } else if s[..|p|] == p {
      forall i | 0 <= i < |s| - |p| && s[|p|..][i] == '{' ensures StartsWith(s[|p|..][i..], p) {
        assert s[|p|..][i..] == s[i + |p|..];
      }
      ReplaceLeavesNoBrace(s[|p|..], p, r);
    } else {
      assert s[0..] == s;
      forall i | 0 <= i < |s| - 1 && s[1..][i] == '{' ensures StartsWith(s[1..][i..], p) {
        assert s[1..][i..] == s[i + 1..];
      }
      ReplaceLeavesNoBrace(s[1..], p, r);
    }
  }

  /** One `replace` pass can leave the pattern behind: a '{' kept before an
      occurrence joins the replacement into a new one. */
  lemma ReplaceCanRecreate()
    ensures Replace("{{ab}b}", "{ab}", "a") == "{ab}"
  {
    var s := "{{ab}b}";
    assert s[..4] != "{ab}" by { assert s[1] != "{ab}"[1]; }
    assert s[1..][..4] == "{ab}";
    assert s[1..][4..] == "b}";
    assert Replace("b}", "{ab}", "a") == "b}";
  }

  /** `sep.join(parts)`. */
  function Join(parts: seq<string>, sep: string): string
    decreases |parts|
  {
    if |parts| == 0 then ""
    else if |parts| == 1 then parts[0]
    else parts[0] + sep + Join(parts[1..], sep)
  }

  /** `s.split(c)` for a one-character separator. */
  function Split(s: string, c: char): (parts: seq<string>)
    ensures |parts| >= 1
    decreases |s|
  {
    if |s| == 0 then [""]
    else
      var rest := Split(s[1..], c);
      if s[0] == c then [""] + rest
      else [[s[0]] + rest[0]] + rest[1..]
  }

  /** Splitting and joining back with the separator gives the text back, and
      no piece contains the separator. */
  lemma {:induction false} SplitJoin(s: string, c: char)
    ensures Join(Split(s, c), [c]) == s
    ensures forall k :: 0 <= k < |Split(s, c)| ==> c !in Split(s, c)[k]
    decreases |s|
  {
    if |s| > 0 {
      SplitJoin(s[1..], c);
      if s[0] == c {
        JoinAfterSeparator(s, c);
      } else {
        JoinAfterCharacter(s, c);
      }
      PiecesWithoutSeparator(s, c);
    }
  }

  /** A leading separator starts an empty piece. */
  lemma JoinAfterSeparator(s: string, c: char)
    requires |s| > 0 && s[0] == c && Join(Split(s[1..], c), [c]) == s[1..]
    ensures Join(Split(s, c), [c]) == s
  {
    var rest := Split(s[1..], c);
    assert Join(Split(s, c), [c]) == "" + [c] + Join(rest, [c]);
    assert [c] + s[1..] == s;
  }

  /** Any other leading character joins the first piece. */
  lemma JoinAfterCharacter(s: string, c: char)
    requires |s| > 0 && s[0] != c && Join(Split(s[1..], c), [c]) == s[1..]
    ensures Join(Split(s, c), [c]) == s
  {
    var rest := Split(s[1..], c);
    var parts := Split(s, c);
    var first := [s[0]] + rest[0];
    assert parts == [first] + rest[1..];
    if |rest| == 1 {
      assert Join(parts, [c]) == first;
      assert Join(rest, [c]) == rest[0];
    } else {
      var tail := Join(rest[1..], [c]);
      assert parts[0] == first && parts[1..] == rest[1..];
      assert Join(parts, [c]) == first + [c] + tail;
      assert Join(rest, [c]) == rest[0] + [c] + tail;
      Regroup(s[0], rest[0], c, tail);
    }
    assert [s[0]] + s[1..] == s;
  }

  lemma Regroup(x: char, r: string, c: char, t: string)
    ensures [x] + r + [c] + t == [x] + (r + [c] + t)
  {
  }

  /** The pieces of `s` hold no separator when those of `s[1..]` do not. */
  lemma PiecesWithoutSeparator(s: string, c: char)
    requires |s| > 0
    requires forall k :: 0 <= k < |Split(s[1..], c)| ==> c !in Split(s[1..], c)[k]
    ensures forall k :: 0 <= k < |Split(s, c)| ==> c !in Split(s, c)[k]
  {
    var rest := Split(s[1..], c);
    var parts := Split(s, c);
    forall k | 0 <= k < |parts| ensures c !in parts[k] {
      if s[0] == c {
        if k > 0 { assert parts[k] == rest[k - 1]; }
      } else if k > 0 {
        assert parts[k] == rest[k];
      } else {
        assert parts[0] == [s[0]] + rest[0];
      }
    }
  }

  /** A piece without the separator splits to itself. */
  lemma {:induction false} SplitWithout(w: string, c: char)
    requires c !in w
    ensures Split(w, c) == [w]
    decreases |w|
  {
    if |w| > 0 {
      assert c !in w[1..];
      SplitWithout(w[1..], c);
      assert [w[0]] + w[1..] == w;
    }
  }

  /** A piece followed by the separator splits off as the first part. */
  lemma {:induction false} SplitFirst(w: string, c: char, rest: string)
    requires c !in w
    ensures Split(w + [c] + rest, c) == [w] + Split(rest, c)
    decreases |w|
  {
    var s := w + [c] + rest;
    if |w| == 0 {
      assert s[0] == c && s[1..] == rest;
    } else {
      assert s[0] == w[0] && s[1..] == w[1..] + [c] + rest;
      assert c !in w[1..];
      SplitFirst(w[1..], c, rest);
      assert [w[0]] + w[1..] == w;
    }
  }

  /** Joining pieces that do not contain the separator and splitting again
      gives the pieces back. */
  lemma {:induction false} JoinSplit(parts: seq<string>, c: char)
    requires |parts| >= 1
    requires forall k :: 0 <= k < |parts| ==> c !in parts[k]
    ensures Split(Join(parts, [c]), c) == parts
    decreases |parts|
  {
    if |parts| == 1 {
      SplitWithout(parts[0], c);
    } else {
      JoinSplit(parts[1..], c);
      SplitFirst(parts[0], c, Join(parts[1..], [c]));
      assert [parts[0]] + parts[1..] == parts;
    }
  }
}
