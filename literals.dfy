/**
 * The textual conversions the tool relies on: Python's `int(s, base)` for the
 * bases the tool uses (0, 10 and 16), `binascii.unhexlify`, and `str.rstrip()`.
 */
module Literals {
  import opened Wrappers
  import opened Bytes

  /** The value of a digit or letter as Python reads it in any base up to 36. */
  function DigitValue(c: char): (r: Option<nat>)
    ensures r.Some? ==> r.value < 36
    ensures r.Some? <==> ('0' <= c <= '9' || 'a' <= c <= 'z' || 'A' <= c <= 'Z')
  {
    if '0' <= c <= '9' then Some(c as int - '0' as int)
    else if 'a' <= c <= 'z' then Some(c as int - 'a' as int + 10)
    else if 'A' <= c <= 'Z' then Some(c as int - 'A' as int + 10)
    else None
  }

  predicate IsDigit(c: char, base: nat)
  {
    DigitValue(c).Some? && DigitValue(c).value < base
  }

  /** The value of a string of base-`base` digits, most significant first. */
  function DigitsValue(s: string, base: nat): nat
    requires forall i :: 0 <= i < |s| ==> IsDigit(s[i], base)
  {
    if s == [] then 0
    else
      assert IsDigit(s[|s| - 1], base);
      DigitsValue(s[..|s| - 1], base) * base + DigitValue(s[|s| - 1]).value
  }

  /** A non-empty run of digits of the base, and its value. */
  function ParseDigits(s: string, base: nat): (r: Option<nat>)
    ensures r.Some? <==> s != [] && forall i :: 0 <= i < |s| ==> IsDigit(s[i], base)
  {
    if s != [] && forall i :: 0 <= i < |s| ==> IsDigit(s[i], base) then Some(DigitsValue(s, base))
    else None
  }

  /** An optional leading sign, split off. */
  function SplitSign(s: string): (bool, string)
  {
    if s != [] && (s[0] == '-' || s[0] == '+') then (s[0] == '-', s[1..]) else (false, s)
  }

  function Signed(negative: bool, magnitude: Option<nat>): (r: Option<int>)
    ensures r.Some? <==> magnitude.Some?
    ensures r.Some? ==> r.value == if negative then -(magnitude.value as int) else magnitude.value
  {
    match magnitude
    case None => None
    case Some(m) => Some(if negative then -(m as int) else m)
  }

  /** Whether s starts with a zero and then the given letter in either case (`0x`, `0o`, `0b`). */
  predicate HasRadixPrefix(s: string, lower: char, upper: char)
  {
    |s| >= 2 && s[0] == '0' && (s[1] == lower || s[1] == upper)
  }

  /** The magnitude of a literal as `int(s, 0)` reads it: `0x`, `0o` or `0b` followed by
      digits of that base, or a decimal number without leading zeros (all zeros allowed). */
  function LiteralMagnitude(s: string): Option<nat>
  {
    if HasRadixPrefix(s, 'x', 'X') then ParseDigits(s[2..], 16)
    else if HasRadixPrefix(s, 'o', 'O') then ParseDigits(s[2..], 8)
    else if HasRadixPrefix(s, 'b', 'B') then ParseDigits(s[2..], 2)
    else if s != [] && s[0] == '0' && !(forall i :: 0 <= i < |s| ==> s[i] == '0') then None
    else ParseDigits(s, 10)
  }

  /** `int(s, 0)`: a Python integer literal with an optional sign. */
  function ParseLiteral(s: string): Option<int>
  {
    var (negative, body) := SplitSign(s);
    Signed(negative, LiteralMagnitude(body))
  }

  /** `int(s)`: decimal digits with an optional sign; leading zeros are allowed. */
  function ParseDecimal(s: string): (r: Option<int>)
    ensures r.Some? <==> SplitSign(s).1 != [] && forall i :: 0 <= i < |SplitSign(s).1| ==> IsDigit(SplitSign(s).1[i], 10)
  {
    var (negative, body) := SplitSign(s);
    Signed(negative, ParseDigits(body, 10))
  }

  /** `int(s, 16)`: hexadecimal digits with an optional sign and an optional `0x` prefix. */
  function ParseHex(s: string): Option<int>
  {
    var (negative, body) := SplitSign(s);
    var digits := if HasRadixPrefix(body, 'x', 'X') then body[2..] else body;
    Signed(negative, ParseDigits(digits, 16))
  }

  /** Python's `n & mask` for a mask of k one bits: the floored remainder modulo 2^k. */
  function Mask(n: int, limit: nat): (r: nat)
    requires limit > 0
    ensures r < limit
    ensures n == (n / limit) * limit + r
    ensures n >= 0 && n < limit ==> r == n
  {
    var m: int := n % limit;
    m
  }

  /** The hexadecimal digit for a value below 16, its letters in upper or lower case. */
  function HexChar(d: nat, upper: bool): (c: char)
    requires d < 16
    ensures IsDigit(c, 16) && DigitValue(c).value == d
  {
    if d < 10 then ('0' as int + d) as char
    else if upper then ('A' as int + d - 10) as char
    else ('a' as int + d - 10) as char
  }

  /** The decimal digit for a value below 10. */
  function DecimalChar(d: nat): (c: char)
    requires d < 10
    ensures IsDigit(c, 10) && DigitValue(c).value == d
  {
    ('0' as int + d) as char
  }

  /** The lower-case hexadecimal digits of n, as `"%x" % n` writes them. */
  function HexString(n: nat): (s: string)
    ensures s != [] && forall i :: 0 <= i < |s| ==> IsDigit(s[i], 16)
    decreases n
  {
    if n < 16 then [HexChar(n, false)] else HexString(n / 16) + [HexChar(n % 16, false)]
  }

  /** The decimal digits of n, as `str(n)` writes them. */
  function DecimalString(n: nat): (s: string)
    ensures s != [] && forall i :: 0 <= i < |s| ==> IsDigit(s[i], 10)
    ensures s[0] == '0' ==> n == 0
    decreases n
  {
    if n < 10 then [DecimalChar(n)] else DecimalString(n / 10) + [DecimalChar(n % 10)]
  }

  lemma {:induction false} HexStringValue(n: nat)
    ensures DigitsValue(HexString(n), 16) == n
    decreases n
  {
    if n >= 16 {
      var s := HexString(n);
      assert s[..|s| - 1] == HexString(n / 16);
      HexStringValue(n / 16);
    }
  }

  lemma {:induction false} DecimalStringValue(n: nat)
    ensures DigitsValue(DecimalString(n), 10) == n
    decreases n
  {
    if n >= 10 {
      var s := DecimalString(n);
      assert s[..|s| - 1] == DecimalString(n / 10);
      DecimalStringValue(n / 10);
    }
  }

  /** `int("0x%x" % n, 0) == n`: the hexadecimal literal of a number reads back as it. */
  lemma ParseLiteralOfHex(n: nat)
    ensures ParseLiteral("0x" + HexString(n)) == Some(n)
  {
    var s := "0x" + HexString(n);
    assert SplitSign(s) == (false, s);
    assert HasRadixPrefix(s, 'x', 'X') && s[2..] == HexString(n);
    HexStringValue(n);
  }

  /** `int(str(n), 0) == n`: the decimal literal of a number reads back as it. */
  lemma ParseLiteralOfDecimal(n: nat)
    ensures ParseLiteral(DecimalString(n)) == Some(n)
  {
    var s := DecimalString(n);
    assert IsDigit(s[0], 10);
    assert SplitSign(s) == (false, s);
    DecimalStringValue(n);
    if n == 0 {
      assert s == "0";
    } else {
      assert s[0] != '0';
    }
  }

  /** `int(str(n)) == n` and `int("-" + str(n)) == -n`: a decimal number, with or without
      a minus sign, reads back as it. */
  lemma ParseDecimalOfDecimal(n: nat)
    ensures ParseDecimal(DecimalString(n)) == Some(n)
    ensures ParseDecimal("-" + DecimalString(n)) == Some(-(n as int))
  {
    var s := DecimalString(n);
    assert IsDigit(s[0], 10);
    assert SplitSign(s) == (false, s);
    assert SplitSign("-" + s) == (true, s);
    DecimalStringValue(n);
  }

  /** `int(s)` refuses a text that ends in anything but a digit. */
  lemma ParseDecimalRejects(s: string)
    requires s != [] && !IsDigit(s[|s| - 1], 10)
    ensures ParseDecimal(s) == None
  {
    var body := SplitSign(s).1;
    if body != [] {
      assert body[|body| - 1] == s[|s| - 1];
    }
  }

  /** `binascii.unhexlify(s)`: pairs of hexadecimal digits, in either case, to bytes;
      an odd length or any other character is an error. */
  function Unhexlify(s: string): (r: Option<seq<byte>>)
    ensures r.Some? <==> |s| % 2 == 0 && forall i :: 0 <= i < |s| ==> IsDigit(s[i], 16)
    ensures r.Some? ==> |r.value| * 2 == |s|
  {
    if |s| % 2 != 0 then None
    else if s == [] then Some([])
    else if IsDigit(s[0], 16) && IsDigit(s[1], 16) then
      match Unhexlify(s[2..])
      case None => None
      case Some(rest) =>
        var b := 16 * DigitValue(s[0]).value + DigitValue(s[1]).value;
        assert forall i :: 2 <= i < |s| ==> s[i] == s[2..][i - 2];
        Some([b] + rest)
    else None
  }

  /** Two hexadecimal digits per byte, in lower case as `binascii.hexlify(b)` writes
      them, or in upper case as S-record writers usually do. */
  function Hexlify(b: seq<byte>, upper: bool): (s: string)
    ensures |s| == 2 * |b|
  {
    if b == [] then [] else [HexChar(b[0] / 16, upper), HexChar(b[0] % 16, upper)] + Hexlify(b[1..], upper)
  }

  /** Decoding the hexadecimal text of bytes gives the bytes back. */
  lemma {:induction false} UnhexlifyOfHexlify(b: seq<byte>, upper: bool)
    ensures Unhexlify(Hexlify(b, upper)) == Some(b)
  {
    if b != [] {
      UnhexlifyOfHexlify(b[1..], upper);
      var s := Hexlify(b, upper);
      var hi, lo := HexChar(b[0] / 16, upper), HexChar(b[0] % 16, upper);
      assert s == [hi, lo] + Hexlify(b[1..], upper);
      assert s[0] == hi && s[1] == lo && s[2..] == Hexlify(b[1..], upper);
      assert 16 * DigitValue(hi).value + DigitValue(lo).value == b[0];
      assert [b[0]] + b[1..] == b;
    }
  }

  /** Python's `str.isspace` on the ASCII range. */
  predicate IsSpace(c: char)
  {
    c == ' ' || '\t' <= c <= '\r' || '\U{1c}' <= c <= '\U{1f}'
  }

  /** `s.rstrip()`: s without its trailing white space. */
  function RStrip(s: string): (r: string)
    ensures |r| <= |s| && r == s[..|r|]
    ensures r != [] ==> !IsSpace(r[|r| - 1])
    ensures forall i :: |r| <= i < |s| ==> IsSpace(s[i])
  {
    if s != [] && IsSpace(s[|s| - 1]) then RStrip(s[..|s| - 1]) else s
  }

  /** `s.split(sep, 1)` unpacked into two parts: the text before the first separator and
      the text after it; `None` when there is no separator (the unpacking fails). */
  function SplitOnce(s: string, sep: char): (r: Option<(string, string)>)
    ensures r.Some? <==> sep in s
    ensures r.Some? ==> sep !in r.value.0 && s == r.value.0 + [sep] + r.value.1
  {
    if s == [] then None
    else if s[0] == sep then Some(([], s[1..]))
    else
      match SplitOnce(s[1..], sep)
      case None => None
      case Some((before, after)) => Some(([s[0]] + before, after))
  }
}
