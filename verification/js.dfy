/**
 The few pieces of ECMAScript 2015 semantics the ghosting transform relies on:
 Number values as `parseInt` produces them, the `|| 0` default, storage into a
 `Uint8ClampedArray` (ToUint8Clamp, section 7.1.11), string values as
 sequences of UTF-16 code units (section 6.1.4), `String.prototype.substr`
 (section B.2.3.1) and `parseInt` with radix 16 (section 18.2.5).
 */
module Js {

  import Arith

  /** One element of a `Uint8ClampedArray`. */
  type Byte = b: int | 0 <= b < 256

  /** One element of a JavaScript string: a UTF-16 code unit. */
  type CodeUnit = u: int | 0 <= u < 0x1_0000

  /** A JavaScript string value: a sequence of UTF-16 code units (section 6.1.4),
      which is what `substr` counts and `parseInt` reads. */
  type JsString = seq<CodeUnit>

  /** UTF16Encoding of one code point (section 10.1.1): itself when it fits in
      16 bits, otherwise a lead and a trail surrogate. */
  function Utf16Of(c: char): (u: JsString)
    ensures |u| == if c as int < 0x1_0000 then 1 else 2
    ensures c as int < 0x1_0000 ==> u[0] == c as int
    ensures c as int >= 0x1_0000 ==> 0xD800 <= u[0] < 0xDC00 && 0xDC00 <= u[1] < 0xE000
  {
    if c as int < 0x1_0000 then [c as int]
    else
      var cp := c as int - 0x1_0000;
      [0xD800 + cp / 0x400, 0xDC00 + cp % 0x400]
  }

  /** The JavaScript string a source-text string literal denotes: each code
      point encoded in turn. */
  function Utf16(s: string): (u: JsString)
    ensures |u| >= |s|
  {
    if |s| == 0 then [] else Utf16Of(s[0]) + Utf16(s[1..])
  }

  /** Every code point fits in one code unit. */
  predicate IsBmp(s: string)
  {
    forall i :: 0 <= i < |s| ==> s[i] as int < 0x1_0000
  }

  /** Without a code point beyond U+FFFF, positions in the JavaScript string
      are positions in the text. */
  lemma {:induction false} Utf16OfBmp(s: string)
    requires IsBmp(s)
    ensures |Utf16(s)| == |s|
    ensures forall i :: 0 <= i < |s| ==> Utf16(s)[i] == s[i] as int
  {
    if |s| > 0 {
      assert IsBmp(s[1..]) by {
        forall i | 0 <= i < |s[1..]|
          ensures s[1..][i] as int < 0x1_0000
        {
          assert s[1..][i] == s[i + 1];
        }
      }
      Utf16OfBmp(s[1..]);
    }
  }

  /** A Number as `parseInt` returns it: NaN or an integral value.
      Positive and negative zero are both `Num(0)`: nothing below tells them apart. */
  datatype Number = NaN | Num(n: int)

  /** `x || 0`: NaN and zero are falsy and give 0, every other Number is kept. */
  function OrZero(x: Number): int
  {
    match x
    case NaN => 0
    case Num(n) => n
  }

  /** ToUint8Clamp of a finite value, section 7.1.11 of ECMA-262 2015:
      clamp to 0..255 and round to nearest, ties to even. */
  function ToUint8Clamp(x: real): (r: Byte)
    ensures x <= 0.0 ==> r == 0
    ensures x >= 255.0 ==> r == 255
    ensures 0.0 <= x <= 255.0 ==> r as real - 0.5 <= x <= r as real + 0.5
    ensures 0.0 <= x <= 255.0 && (x == r as real - 0.5 || x == r as real + 0.5) ==> r % 2 == 0
  {
    if x <= 0.0 then 0
    else if x >= 255.0 then 255
    else
      var f := x.Floor;
      if f as real + 0.5 < x then f + 1
      else if x < f as real + 0.5 then f
      else if f % 2 == 1 then f + 1
      else f
  }

  /** Storing an integral value into a clamped array saturates it. */
  lemma ClampOfInteger(n: int)
    ensures ToUint8Clamp(n as real) == if n < 0 then 0 else if n > 255 then 255 else n
  {
    if 0 < n < 255 {
      assert (n as real).Floor == n;
    }
  }

  /** `s.substr(start, length)` for non-negative arguments. */
  function Substr(s: JsString, start: nat, length: nat): (r: JsString)
    ensures |r| <= length
    ensures start + length <= |s| ==> r == s[start..start + length]
    ensures start >= |s| ==> r == []
  {
    var from := if start < |s| then start else |s|;
    var to := if start + length < |s| then start + length else |s|;
    s[from..to]
  }

  /** StrWhiteSpaceChar: WhiteSpace (section 11.2) or LineTerminator (section 11.3),
      with the Zs category as in current Unicode. */
  predicate IsStrWhiteSpace(c: CodeUnit)
  {
    || c == 0x09 || c == 0x0B || c == 0x0C || c == 0x20 || c == 0xA0 || c == 0xFEFF
    || c == 0x1680 || (0x2000 <= c <= 0x200A) || c == 0x202F || c == 0x205F || c == 0x3000
    || c == 0x0A || c == 0x0D || c == 0x2028 || c == 0x2029
  }

  predicate IsHexDigit(c: CodeUnit)
  {
    ('0' as int <= c <= '9' as int) || ('a' as int <= c <= 'f' as int) || ('A' as int <= c <= 'F' as int)
  }

  function HexDigitValue(c: CodeUnit): (d: nat)
    requires IsHexDigit(c)
    ensures d < 16
  {
    if '0' as int <= c <= '9' as int then c - '0' as int
    else if 'a' as int <= c <= 'f' as int then c - 'a' as int + 10
    else c - 'A' as int + 10
  }

  predicate AllHexDigits(s: JsString)
  {
    forall i :: 0 <= i < |s| ==> IsHexDigit(s[i])
  }

  /** The mathematical value of a string of hex digits, most significant first. */
  function HexValue(s: JsString): nat
    requires AllHexDigits(s)
  {
    if |s| == 0 then 0 else 16 * HexValue(s[..|s| - 1]) + HexDigitValue(s[|s| - 1])
  }

  /** Step 2 of parseInt: drop leading white space. */
  function TrimStart(s: JsString): (r: JsString)
    ensures |r| <= |s|
  {
    if |s| > 0 && IsStrWhiteSpace(s[0]) then TrimStart(s[1..]) else s
  }

  /** Step 11 of parseInt: the longest prefix made of hex digits. */
  function HexPrefix(s: JsString): (z: JsString)
    ensures |z| <= |s| && AllHexDigits(z)
  {
    if |s| > 0 && IsHexDigit(s[0]) then [s[0]] + HexPrefix(s[1..]) else []
  }

  /** `parseInt(s, 16)`: white space, an optional sign, an optional `0x`/`0X`,
      then as many hex digits as there are; no digit at all gives NaN. Each
      character read adds one hex digit, so the magnitude stays below
      16 to the power of the length. */
  function ParseIntHex(s: JsString): (r: Number)
    ensures r.NaN? || (-r.n < Pow16(|s|) && r.n < Pow16(|s|))
  {
    var t := TrimStart(s);
    Pow16Mono(|t|, |s|);
    ParseSigned(t)
  }

  /** Steps 3 to 5 of parseInt: a leading `-` negates, a leading `+` is
      dropped. A sign leaves one character fewer for digits. */
  function ParseSigned(t: JsString): (r: Number)
    ensures r.NaN? || (-r.n < Pow16(|t|) && r.n < Pow16(|t|))
  {
    if |t| > 0 && (t[0] == '-' as int || t[0] == '+' as int) then
      ParseUnsignedBound(t[1..]);
      Pow16Mono(|t| - 1, |t|);
      if t[0] == '-' as int then Negate(ParseUnsigned(t[1..])) else ParseUnsigned(t[1..])
    else
      ParseUnsignedBound(t);
      ParseUnsigned(t)
  }

  function Negate(x: Number): Number
  {
    match x
    case NaN => NaN
    case Num(n) => Num(-n)
  }

  /** Steps 10 to 13 of parseInt for radix 16: drop a `0x`/`0X` prefix, then
      read the longest run of hex digits. */
  function ParseUnsigned(u: JsString): Number
  {
    var w := if |u| >= 2 && u[0] == '0' as int && (u[1] == 'x' as int || u[1] == 'X' as int) then u[2..] else u;
    var z := HexPrefix(w);
    if |z| == 0 then NaN else Num(HexValue(z))
  }

  /** A non-empty run of hex digits parses to its value. */
  lemma ParseIntHexOfDigits(s: JsString)
    requires |s| > 0 && AllHexDigits(s)
    ensures ParseIntHex(s) == Num(HexValue(s))
  {
    assert !IsStrWhiteSpace(s[0]);
    assert TrimStart(s) == s;
    HexPrefixOfDigits(s);
  }

  /** A string that starts with a character that is neither white space, a
      sign nor a hex digit parses to NaN. */
  lemma ParseIntHexNoDigit(s: JsString)
    requires |s| > 0 && !IsStrWhiteSpace(s[0]) && s[0] != '+' as int && s[0] != '-' as int && !IsHexDigit(s[0])
    ensures ParseIntHex(s) == NaN
  {
    assert TrimStart(s) == s;
    assert HexPrefix(s) == [];
  }

  lemma {:induction false} HexPrefixOfDigits(s: JsString)
    requires AllHexDigits(s)
    ensures HexPrefix(s) == s
  {
    if |s| > 0 {
      HexPrefixOfDigits(s[1..]);
    }
  }

  /** parseInt of at most two characters is NaN or lies in -15..255: two digits
      reach 0xff, a sign leaves room for one digit only. */
  lemma ParseIntHexShort(s: JsString)
    requires |s| <= 2
    ensures ParseIntHex(s).NaN? || -15 <= ParseIntHex(s).n <= 255
  {
    var t := TrimStart(s);
    if |t| > 0 && (t[0] == '-' as int || t[0] == '+' as int) {
      ParseUnsignedBound(t[1..]);
    } else {
      ParseUnsignedBound(t);
    }
  }

  lemma ParseUnsignedBound(u: JsString)
    ensures ParseUnsigned(u).NaN? || 0 <= ParseUnsigned(u).n < Pow16(|u|)
  {
    var w := if |u| >= 2 && u[0] == '0' as int && (u[1] == 'x' as int || u[1] == 'X' as int) then u[2..] else u;
    var z := HexPrefix(w);
    if |z| > 0 {
      HexValueBound(z);
      Pow16Mono(|z|, |u|);
    }
  }

  lemma {:induction false} Pow16Mono(m: nat, n: nat)
    requires m <= n
    ensures Pow16(m) <= Pow16(n)
  {
    if m < n {
      Pow16Mono(m, n - 1);
    }
  }

  lemma {:induction false} HexValueBound(s: JsString)
    requires AllHexDigits(s)
    ensures HexValue(s) < Pow16(|s|)
  {
    if |s| > 0 {
      HexValueBound(s[..|s| - 1]);
    }
  }

  function Pow16(n: nat): (p: nat)
    ensures p > 0
  {
    if n == 0 then 1 else 16 * Pow16(n - 1)
  }

  /** The lower-case hex digit of a value below 16. */
  function HexChar(d: nat): (c: CodeUnit)
    requires d < 16
    ensures IsHexDigit(c) && HexDigitValue(c) == d
  {
    if d < 10 then '0' as int + d else 'a' as int + d - 10
  }

  /** The two-digit lower-case hex spelling of a byte. */
  function HexPair(b: Byte): (s: JsString)
    ensures |s| == 2 && AllHexDigits(s)
  {
    [HexChar(b / 16), HexChar(b % 16)]
  }

  /** Two hex digits parse to `16 * first + second`, a byte. */
  lemma ParseIntHexPair(c1: CodeUnit, c2: CodeUnit)
    requires IsHexDigit(c1) && IsHexDigit(c2)
    ensures ParseIntHex([c1, c2]) == Num(16 * HexDigitValue(c1) + HexDigitValue(c2))
    ensures 0 <= 16 * HexDigitValue(c1) + HexDigitValue(c2) <= 255
  {
    HexValueOfPair(c1, c2);
    ParseIntHexOfDigits([c1, c2]);
  }

  lemma HexValueOfPair(c1: CodeUnit, c2: CodeUnit)
    requires IsHexDigit(c1) && IsHexDigit(c2)
    ensures HexValue([c1, c2]) == 16 * HexDigitValue(c1) + HexDigitValue(c2)
  {
    assert [c1, c2][..1] == [c1];
    assert [c1][..0] == [];
    assert HexValue([c1]) == HexDigitValue(c1);
  }

  /** parseInt reads back what HexPair spells. */
  lemma HexPairRoundTrip(b: Byte)
    ensures ParseIntHex(HexPair(b)) == Num(b)
  {
    var hi, lo := HexChar(b / 16), HexChar(b % 16);
    assert HexPair(b) == [hi, lo];
    ParseIntHexPair(hi, lo);
    assert 16 * (b / 16) + b % 16 == b;
  }

  /** Reading two digits and spelling the byte again gives the digits back,
      in lower case. */
  lemma HexPairOfParsed(c1: CodeUnit, c2: CodeUnit)
    requires IsHexDigit(c1) && IsHexDigit(c2)
    ensures var v := 16 * HexDigitValue(c1) + HexDigitValue(c2);
            0 <= v <= 255 && HexPair(v) == [ToLower(c1), ToLower(c2)]
  {
    var v := 16 * HexDigitValue(c1) + HexDigitValue(c2);
    Arith.DivModUnique(v, 16, HexDigitValue(c1), HexDigitValue(c2));
  }

  /** Maps `A`..`Z` to `a`..`z` and keeps every other code unit. */
  function ToLower(c: CodeUnit): CodeUnit
  {
    if 'A' as int <= c <= 'Z' as int then c - 'A' as int + 'a' as int else c
  }
}
