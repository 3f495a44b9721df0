# Ghoster: the per-pixel ghosting transform

Ghoster recolours a greyscale-like picture. Each pixel of the destination canvas
gets one configured fill colour in R, G and B. Its alpha comes from the source
pixel's brightness: `255 - (R+G+B)/3`. Dark pixels end up opaque and light
pixels transparent. This project models the part of `ghoster.js` with real
semantics and proves its properties in Dafny:

- the instance state the transform reads: `imgWidth`, `imgHeight` and `color`;
- the constructor's defaults and the dimension update of `fillBackupCanvas`;
- `setColor`, which reads a `#RRGGBB` string with `substr` and `parseInt(…, 16)`;
- `renderPoint`, which writes one pixel's four bytes;
- the nested pixel loop of `render`.

Files and modules:

- `js.dfy`, module `Js`: the ECMAScript 2015 pieces the code relies on. These are
  Number values as `parseInt` returns them (`NaN` or an integer), the `|| 0`
  default, storage into a `Uint8ClampedArray` (ToUint8Clamp, section 7.1.11),
  `String.prototype.substr` (section B.2.3.1) and `parseInt` with radix 16
  (section 18.2.5). The `parseInt` model covers leading white space, a sign, a
  `0x` prefix and prefix parsing. A JavaScript string is a `JsString`, a
  sequence of UTF-16 code units (section 6.1.4), because `substr` counts code
  units. `Utf16` is the UTF16Encoding of section 10.1.1. It turns the text of a
  string literal into the code units it denotes.
- `colors.dfy`, module `Colors`: the colour `{r, v, b}` and `ParseColor`, the
  object literal `setColor` builds. It also has a formatter `FormatColor` that
  serves as the parser's inverse in the round-trip lemmas.
- `pixels.dfy`, module `Pixels`: the byte offset of a pixel, the colour bytes
  (`Channel`) and the alpha byte (`Alpha`) in integer arithmetic, and `Ghosted`.
  `Ghosted` is a reference description of the whole transformed buffer, defined
  byte by byte.
- `ghoster.dfy`, module `Ghoster`: the instance `State` and its operations. It
  holds `RenderPoint` (a pure function on sequences) and `RenderPointInPlace`
  (the same write, done in place on an array). It also holds `Render`, which
  copies the destination into an array, runs the two loops calling
  `RenderPointInPlace` and returns the array's contents. `Render` also returns
  the order of its calls as a ghost sequence.
- `arith.dfy`, module `Arith`: facts about division and remainder used by the
  index proofs.

Behaviour of the code that the model follows:

- The alpha byte is rounded to nearest, not truncated. `255 - sum/3` is a
  fractional Number, and the clamped array rounds it when storing it. The
  fraction is always 0, 1/3 or 2/3, so there is never a tie, and the stored
  value equals `255 - (sum+1) div 3`. The source pixel (2,0,0) therefore gets
  alpha 254, not 255.
- `setColor` validates nothing. A malformed string produces NaN channels, and
  a channel that starts with digits produces a partial value. `renderPoint`
  turns NaN into 0 with `|| 0`, and the clamped array turns a negative value
  into 0. For example, `"bad"` renders as (173, 0, 0) and `"#ggg123"` renders
  as (0, 0, 35). No colour-format error exists.
- Positions in `substr` count UTF-16 code units, not characters. A character
  beyond U+FFFF takes two units. With an emoji in front, `"\u{1F600}4e21ed"`
  is read as (NaN, 226, 30), and the first pair starts with a trail surrogate.
- Nothing checks buffer lengths. The source and destination are
  `imgWidth*imgHeight*4` bytes long because `getImageData` returns buffers of
  exactly that size. The model states this as a precondition.

## Model

| member | source | states |
|---|---|---|
| Js.ToUint8Clamp | ghoster.js:105-108 | the clamped array's store: 0 below zero, 255 above 255, otherwise the nearest integer, with ties going to the even one |
| Js.ClampOfInteger | ghoster.js:105-107 | storing an integral channel value in a clamped array keeps 0..255 unchanged and saturates anything outside at 0 or 255 |
| Js.Substr | ghoster.js:119-121 | `substr(start, 2)` gives at most two UTF-16 code units: the exact two-unit slice when the string is long enough, and "" when start is past the end |
| Js.ParseIntHex | ghoster.js:119-121 | `parseInt(s, 16)` is NaN or an integer whose magnitude is below 16 to the power of the length of `s` |
| Js.ParseIntHexOfDigits | ghoster.js:119-121 | `parseInt(s, 16)` of a non-empty run of hex digits is the digits' value |
| Js.ParseIntHexNoDigit | ghoster.js:119-121 | `parseInt(s, 16)` is NaN when `s` starts with a code unit that is neither white space, a sign nor a hex digit |
| Js.ParseIntHexShort | ghoster.js:119-121 | `parseInt` of at most two code units is NaN or lies in -15..255 |
| Js.ParseIntHexPair | ghoster.js:119-121 | two hex digits, in either case, parse to 16 times the first digit plus the second, a value in 0..255 |
| Js.HexPairRoundTrip | ghoster.js:119-121 | `parseInt` reads every byte back from its two-digit lower-case spelling |
| Js.HexPairOfParsed | ghoster.js:119-121 | spelling the byte that two hex digits parse to gives the same digits back in lower case |
| Colors.ParseColor | ghoster.js:118-122 | the object literal `setColor` builds from the pairs at 1, 3 and 5; with hex digits in code units 1..6 every channel is a byte |
| Colors.ChannelOfPair | ghoster.js:119-121 | the channel read at position i is the byte spelled by code units i and i+1 when both are hex digits |
| Colors.ParseColorWellFormed | ghoster.js:117-122 | when code units 1..6 are hex digits, r, v and b are the bytes spelled by units 1-2, 3-4 and 5-6; unit 0 and anything after unit 6 are ignored |
| Colors.ParseColorRange | ghoster.js:117-122 | for any string, each channel is NaN or lies in -15..255 |
| Colors.ParseFormatRoundTrip | ghoster.js:117-122 | reading `#` followed by the hex spelling of three bytes gives back exactly those three bytes |
| Colors.FormatParseRoundTrip | ghoster.js:117-122 | a well-formed `#RRGGBB` is read as the three bytes its digit pairs spell, and formatting those bytes gives the string back in lower case, so reading a colour loses only the letter case |
| Colors.ParseColorDocumentedExample | ghoster.js:114-122 | the documented `'#4e21ed'` gives r=78, v=33, b=237 |
| Colors.ParseColorIgnoresCase | ghoster.js:117-122 | with hex digits in code units 1..6, upper- and lower-case digits are read as the same colour (`'#4E21ED'` and `'#4e21ed'` alike) |
| Colors.ParseColorShortString | ghoster.js:117-122 | `"bad"` gives r=0xad and NaN for v and b, with no error |
| Colors.ParseColorBadDigits | ghoster.js:117-122 | `"#ggg123"` gives NaN for r and v and 0x23 for b, with no error |
| Colors.ParseColorAstralPrefix | ghoster.js:117-122 | `"\u{1F600}4e21ed"` gives NaN, 226 and 30: the emoji takes two code units, so every pair is read one place to the left |
| Pixels.Channel | ghoster.js:105-107 | the colour byte stored for `channel \|\| 0`: NaN and negative values give 0, a byte is kept |
| Pixels.ChannelIsClampedStore | ghoster.js:105-107 | a colour byte is what the clamped array stores for `channel \|\| 0`: a NaN channel becomes 0 and a byte channel is kept |
| Pixels.Alpha | ghoster.js:108 | the alpha byte is the integer nearest to `255 - (R+G+B)/3`: three times its distance from 255 is within one of the sum |
| Pixels.AlphaIsClampedStore | ghoster.js:108 | the alpha byte equals ToUint8Clamp of the exact value `255 - (R+G+B)/3` |
| Pixels.AlphaRoundsThirds | ghoster.js:108 | for a sum of three bytes, `255 - sum/3` rounded to nearest equals `255 - (sum+1) div 3` |
| Pixels.AlphaDecreasesWithBrightness | ghoster.js:108 | a source pixel with a larger channel sum never gets a larger alpha |
| Pixels.AlphaVersusTruncation | ghoster.js:108 | alpha equals the truncated-mean formula `255 - sum div 3`, except when the sum leaves remainder 2, where it is one lower |
| Pixels.AlphaBlackAndWhite | ghoster.js:108 | black gives alpha 255 and white gives alpha 0 |
| Pixels.AlphaWholeMeans | ghoster.js:108 | (255,0,0) gives 170 and (10,20,30) gives 235 |
| Pixels.AlphaRoundsRatherThanTruncates | ghoster.js:108 | (2,0,0) gives 254, because `255 - 2/3` is rounded up |
| Pixels.Offset | ghoster.js:103-104 | `pos = posy*imgWidth*4 + posx*4` is a multiple of 4, and for `posx < imgWidth` the pixel number `pos div 4` has column `posx` and row `posy` |
| Pixels.OffsetInBounds | ghoster.js:103-104 | for an in-range pixel, `pos = posy*imgWidth*4 + posx*4` is a multiple of 4 and `pos+3` is inside the `imgWidth*imgHeight*4`-byte buffer |
| Pixels.ByteInPixel | ghoster.js:103-104 | byte k lies in pixel (x, y)'s block exactly when `k div 4` has column x and row y, so each byte belongs to exactly one pixel |
| Pixels.OffsetsDisjoint | ghoster.js:103-104 | distinct in-range pixels own disjoint four-byte blocks |
| Pixels.Ghosted | ghoster.js:102-109 | the reference transform, byte by byte: the same length as the source, with the fill colour in bytes 0-2 of every block of four and the source block's alpha in byte 3 |
| Pixels.GhostedAtPixel | ghoster.js:102-109 | in the transformed buffer, each in-range pixel holds the fill colour followed by the alpha of the same source pixel |
| Pixels.GhostedColourIgnoresSource | ghoster.js:105-107 | the R, G and B bytes of the result do not depend on the source |
| Ghoster.New | ghoster.js:18-20 | a new instance has width 0, height 0 and an all-zero colour, each channel a byte |
| Ghoster.FillBackupCanvas | ghoster.js:62-63 | loading an image replaces `imgWidth`/`imgHeight` with its dimensions and keeps the colour |
| Ghoster.SetColor | ghoster.js:113-124 | `setColor` replaces only the colour and leaves the dimensions alone; with hex digits in code units 1..6 every channel is a byte |
| Ghoster.NewRendersBlack | ghoster.js:20 | before any `setColor`, every rendered R, G and B byte is 0, whatever image is loaded |
| Ghoster.SetColorThenRender | ghoster.js:105-107 | after `setColor` with the hex spelling of (r, v, b), the rendered colour bytes are exactly r, v and b |
| Ghoster.RenderPoint | ghoster.js:102-109 | `renderPoint` yields a buffer of the destination's length; RenderPointWritesOnePixel states what it writes |
| Ghoster.RenderPointWritesOnePixel | ghoster.js:102-109 | `renderPoint` sets the four bytes at `pos..pos+3` to the transformed values and leaves every other destination byte unchanged |
| Ghoster.RenderPointByte | ghoster.js:102-109 | the same statement for a single byte k of the destination |
| Ghoster.RenderPointInPlace | ghoster.js:102-109 | writing the four bytes into the array in place leaves the array equal to RenderPoint of its previous contents |
| Ghoster.VisitOrderLength | ghoster.js:86-90 | the loops make `imgWidth*imgHeight` calls |
| Ghoster.VisitAt | ghoster.js:86-90 | call number k of the loops is for column `k div imgHeight`, row `k mod imgHeight` |
| Ghoster.VisitOrderIndex | ghoster.js:86-90 | the same statement for every k at once |
| Ghoster.VisitOrderReaches | ghoster.js:86-90 | every in-range pixel is visited |
| Ghoster.VisitsEachPixelOnce | ghoster.js:86-90 | the loops visit exactly the pixels with x < `imgWidth` and y < `imgHeight`, and none of them twice |
| Ghoster.InnerStep | ghoster.js:87-89 | one inner iteration renders one more pixel of the current column and touches no other pixel |
| Ghoster.OuterStep | ghoster.js:86-90 | a finished column means every pixel of that column is rendered |
| Ghoster.AllRendered | ghoster.js:86-90 | after the last column the whole buffer equals the transformed source |
| Ghoster.Render | ghoster.js:79-93 | `render` calls `renderPoint` once per pixel, column by column; the buffer handed to `putImageData` equals the byte-wise transform of the source for every byte, whatever the destination held before |

## Left out

- Canvas and DOM plumbing: `document.createElement`, `getContext`, `setAttribute`, `drawImage`, `getImageData` and `putImageData` (ghoster.js:17, 65-71, 81-84, 92) are browser APIs. Render takes the two pixel snapshots as inputs and returns the destination pixels.
- `setImageUrl` and `setImageObject` (ghoster.js:28-47): asynchronous image loading and a wrapper that only chains `fillBackupCanvas` and `render`.
- The constructor's `canvasDst`/`canvasSrc` fields: `New` keeps only the state the transform reads.
- Floating point: `/3` is computed on exact rationals instead of binary64. This does not change the stored byte, because the fraction is 0, 1/3 or 2/3 and the rounding error is far from a tie.
- Positive and negative zero are both `Num(0)`. Both are falsy for `|| 0`, and both are stored as 0.
- `parseInt` on more than 13 hex digits loses precision in JavaScript. This cannot occur here, because `substr(…, 2)` yields at most two code units.
- White space for `parseInt` follows the current Unicode Zs category, which does not contain U+180E. Older engines also skip U+180E.
- A non-string argument to `setColor` (a TypeError in JavaScript) is not modelled.
- RenderPoint: requires an in-range pixel and buffers of `imgWidth*imgHeight*4` bytes. An out-of-range call in JavaScript writes whatever bytes `pos..pos+3` name. `posx = imgWidth` lands on pixel (0, posy+1), for example. Only writes past the end of the buffer are dropped. `render` never makes such a call.
- Render: returns an empty buffer for a zero width or height. A browser's `getImageData` throws an IndexSizeError there instead.
