/**
 The fill colour of a Ghoster and how `setColor` reads it from a `#RRGGBB`
 string. The channels are called `r`, `v` and `b` as in the program
 (rouge, vert, bleu); each holds whatever `parseInt(…, 16)` returned, so a
 malformed string leaves NaN in a channel rather than failing. Strings are
 JavaScript strings, so positions count UTF-16 code units.
 */
module Colors {

  import opened Js

  datatype Color = Color(r: Number, v: Number, b: Number)

  /** The colour a new Ghoster starts with. */
  const Black: Color := Color(Num(0), Num(0), Num(0))

  /** Characters 1..6 are hex digits; character 0 and anything after
      character 6 are never looked at. */
  predicate HasHexChannels(hex: JsString)
  {
    |hex| >= 7 && forall i :: 1 <= i < 7 ==> IsHexDigit(hex[i])
  }

  /** Exactly `#` and six hex digits, in either case. */
  predicate IsHexColor(hex: JsString)
  {
    |hex| == 7 && hex[0] == '#' as int && HasHexChannels(hex)
  }

  /** The object literal `setColor` builds: `parseInt` of the two-character
      substrings starting at 1, 3 and 5. */
  function ParseColor(hex: JsString): (c: Color)
    ensures HasHexChannels(hex) ==> IsByteColor(c)
  {
    var parsed := Color(ParseIntHex(Substr(hex, 1, 2)), ParseIntHex(Substr(hex, 3, 2)), ParseIntHex(Substr(hex, 5, 2)));
    if HasHexChannels(hex) then
      assert IsHexDigit(hex[1]) && IsHexDigit(hex[2]) && IsHexDigit(hex[3]);
      assert IsHexDigit(hex[4]) && IsHexDigit(hex[5]) && IsHexDigit(hex[6]);
      ChannelOfPair(hex, 1);
      ChannelOfPair(hex, 3);
      ChannelOfPair(hex, 5);
      parsed
    else
      parsed
  }

  /** The channel read from characters `i` and `i+1` when both are hex digits. */
  lemma ChannelOfPair(hex: JsString, i: nat)
    requires i + 2 <= |hex| && IsHexDigit(hex[i]) && IsHexDigit(hex[i + 1])
    ensures ParseIntHex(Substr(hex, i, 2)) == Num(16 * HexDigitValue(hex[i]) + HexDigitValue(hex[i + 1]))
  {
    assert Substr(hex, i, 2) == [hex[i], hex[i + 1]];
    ParseIntHexPair(hex[i], hex[i + 1]);
  }

  /** With six hex digits after the first character, each channel is the byte
      its two digits spell. */
  lemma ParseColorWellFormed(hex: JsString)
    requires HasHexChannels(hex)
    ensures ParseColor(hex) == Color(Num(16 * HexDigitValue(hex[1]) + HexDigitValue(hex[2])),
                                     Num(16 * HexDigitValue(hex[3]) + HexDigitValue(hex[4])),
                                     Num(16 * HexDigitValue(hex[5]) + HexDigitValue(hex[6])))
    ensures IsByteColor(ParseColor(hex))
  {
    assert IsHexDigit(hex[1]) && IsHexDigit(hex[2]);
    ChannelOfPair(hex, 1);
    assert IsHexDigit(hex[3]) && IsHexDigit(hex[4]);
    ChannelOfPair(hex, 3);
    assert IsHexDigit(hex[5]) && IsHexDigit(hex[6]);
    ChannelOfPair(hex, 5);
  }

  /** Every channel holds a number from 0 to 255. */
  predicate IsByteColor(c: Color)
  {
    && c.r.Num? && 0 <= c.r.n < 256
    && c.v.Num? && 0 <= c.v.n < 256
    && c.b.Num? && 0 <= c.b.n < 256
  }

  /** Whatever the string, a channel is NaN or lies in -15..255, because it is
      parsed from at most two characters. */
  lemma ParseColorRange(hex: JsString)
    ensures var c := ParseColor(hex);
            && (c.r.NaN? || -15 <= c.r.n <= 255)
            && (c.v.NaN? || -15 <= c.v.n <= 255)
            && (c.b.NaN? || -15 <= c.b.n <= 255)
  {
    ParseIntHexShort(Substr(hex, 1, 2));
    ParseIntHexShort(Substr(hex, 3, 2));
    ParseIntHexShort(Substr(hex, 5, 2));
  }

  /** `#` followed by the lower-case spelling of three bytes. */
  function FormatColor(r: Byte, v: Byte, b: Byte): (hex: JsString)
    ensures IsHexColor(hex)
  {
    ['#' as int] + HexPair(r) + HexPair(v) + HexPair(b)
  }

  /** Parsing a formatted colour gives back its three bytes. */
  lemma ParseFormatRoundTrip(r: Byte, v: Byte, b: Byte)
    ensures ParseColor(FormatColor(r, v, b)) == Color(Num(r), Num(v), Num(b))
  {
    var hex := FormatColor(r, v, b);
    assert Substr(hex, 1, 2) == HexPair(r);
    assert Substr(hex, 3, 2) == HexPair(v);
    assert Substr(hex, 5, 2) == HexPair(b);
    HexPairRoundTrip(r);
    HexPairRoundTrip(v);
    HexPairRoundTrip(b);
  }

  function Lower(s: JsString): (t: JsString)
    ensures |t| == |s| && forall i :: 0 <= i < |s| ==> t[i] == ToLower(s[i])
  {
    seq(|s|, i requires 0 <= i < |s| => ToLower(s[i]))
  }

  /** A well-formed colour is read as the three bytes its digit pairs spell,
      and formatting those bytes gives the string back with its hex digits in
      lower case: reading a colour loses only the case. */
  lemma FormatParseRoundTrip(hex: JsString)
    requires IsHexColor(hex)
    ensures var r, v, b := 16 * HexDigitValue(hex[1]) + HexDigitValue(hex[2]),
                           16 * HexDigitValue(hex[3]) + HexDigitValue(hex[4]),
                           16 * HexDigitValue(hex[5]) + HexDigitValue(hex[6]);
            0 <= r < 256 && 0 <= v < 256 && 0 <= b < 256
            && ParseColor(hex) == Color(Num(r), Num(v), Num(b))
            && FormatColor(r, v, b) == ['#' as int] + Lower(hex[1..])
  {
    ParseColorWellFormed(hex);
    FormatDigitPairs(hex);
  }

  /** Spelling again the bytes of the digit pairs of a well-formed colour. */
  lemma FormatDigitPairs(hex: JsString)
    requires IsHexColor(hex)
    ensures var r, v, b := 16 * HexDigitValue(hex[1]) + HexDigitValue(hex[2]),
                           16 * HexDigitValue(hex[3]) + HexDigitValue(hex[4]),
                           16 * HexDigitValue(hex[5]) + HexDigitValue(hex[6]);
            0 <= r < 256 && 0 <= v < 256 && 0 <= b < 256
            && FormatColor(r, v, b) == ['#' as int] + Lower(hex[1..])
  {
    assert IsHexDigit(hex[1]) && IsHexDigit(hex[2]) && IsHexDigit(hex[3]);
    assert IsHexDigit(hex[4]) && IsHexDigit(hex[5]) && IsHexDigit(hex[6]);
    HexPairOfParsed(hex[1], hex[2]);
    HexPairOfParsed(hex[3], hex[4]);
    HexPairOfParsed(hex[5], hex[6]);
    var r, v, b := 16 * HexDigitValue(hex[1]) + HexDigitValue(hex[2]),
                   16 * HexDigitValue(hex[3]) + HexDigitValue(hex[4]),
                   16 * HexDigitValue(hex[5]) + HexDigitValue(hex[6]);
    var f := FormatColor(r, v, b);
    var g := ['#' as int] + Lower(hex[1..]);
    assert |f| == |g| == 7;
    forall i | 0 <= i < 7
      ensures f[i] == g[i]
    {
      if i > 0 {
        assert g[i] == ToLower(hex[i]);
      }
    }
  }

  /** The documented example `'#4e21ed'`. */
  lemma ParseColorDocumentedExample()
    ensures ParseColor(Utf16("#4e21ed")) == Color(Num(78), Num(33), Num(237))
  {
    var text := "#4e21ed";
    Utf16OfBmp(text);
    var hex := Utf16(text);
    assert hex[1] == '4' as int && hex[2] == 'e' as int && hex[3] == '2' as int;
    assert hex[4] == '1' as int && hex[5] == 'e' as int && hex[6] == 'd' as int;
    ParseColorWellFormed(hex);
  }

  /** Hex digits are read in either case: lower-casing a well-formed colour
      string does not change the colour it is read as. */
  lemma ParseColorIgnoresCase(hex: JsString)
    requires HasHexChannels(hex)
    ensures HasHexChannels(Lower(hex))
    ensures ParseColor(Lower(hex)) == ParseColor(hex)
  {
    var l := Lower(hex);
    forall i | 1 <= i < 7
      ensures IsHexDigit(l[i]) && HexDigitValue(l[i]) == HexDigitValue(hex[i])
    {
      assert IsHexDigit(hex[i]);
    }
    ParseColorWellFormed(hex);
    ParseColorWellFormed(l);
  }

  /** Nothing is validated: `"bad"` reads "ad" as red and leaves the other
      two channels NaN. */
  lemma ParseColorShortString()
    ensures ParseColor(Utf16("bad")) == Color(Num(173), NaN, NaN)
  {
    var text := "bad";
    Utf16OfBmp(text);
    var hex := Utf16(text);
    assert hex[1] == 'a' as int && hex[2] == 'd' as int;
    ChannelOfPair(hex, 1);
    assert Substr(hex, 3, 2) == [] && Substr(hex, 5, 2) == [];
    assert TrimStart([]) == [] && HexPrefix([]) == [];
  }

  /** Nothing is validated: in `"#ggg123"` the pairs "gg" and "g1" start with
      a non-digit and give NaN, while "23" gives 0x23. */
  lemma ParseColorBadDigits()
    ensures ParseColor(Utf16("#ggg123")) == Color(NaN, NaN, Num(35))
  {
    var text := "#ggg123";
    Utf16OfBmp(text);
    var hex := Utf16(text);
    assert hex[1] == 'g' as int && hex[3] == 'g' as int;
    assert hex[5] == '2' as int && hex[6] == '3' as int;
    ParseIntHexNoDigit(Substr(hex, 1, 2));
    ParseIntHexNoDigit(Substr(hex, 3, 2));
    ChannelOfPair(hex, 5);
  }

  /** Positions count UTF-16 code units: an emoji in front of the digits takes
      two of them, so every pair is read one place to the left. The first
      pair starts with a trail surrogate and gives NaN, then "e2" and "1e". */
  lemma ParseColorAstralPrefix()
    ensures ParseColor(Utf16("\U{1F600}4e21ed")) == Color(NaN, Num(226), Num(30))
  {
    var text := "\U{1F600}4e21ed";
    var rest := "4e21ed";
    assert text[1..] == rest;
    Utf16OfBmp(rest);
    var hex := Utf16(text);
    assert hex == Utf16Of(text[0]) + Utf16(rest);
    assert hex[1] == 0xDE00 && hex[2] == '4' as int;
    assert hex[3] == 'e' as int && hex[4] == '2' as int;
    assert hex[5] == '1' as int && hex[6] == 'e' as int;
    ParseIntHexNoDigit(Substr(hex, 1, 2));
    ChannelOfPair(hex, 3);
    ChannelOfPair(hex, 5);
  }
}
