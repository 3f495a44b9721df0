/**
 The per-pixel arithmetic of the ghosting transform: where a pixel's four
 bytes lie in an RGBA buffer, what is stored in its colour bytes and in its
 alpha byte, and the whole transformed buffer described byte by byte.
 */
module Pixels {

  import opened Js
  import opened Colors
  import Arith

  /** The value a colour channel leaves in the destination: `channel || 0`,
      saturated to a byte. */
  function Channel(x: Number): (c: Byte)
    ensures x.NaN? ==> c == 0
    ensures x.Num? && 0 <= x.n < 256 ==> c == x.n
    ensures x.Num? && x.n < 0 ==> c == 0
  {
    var n := OrZero(x);
    if n < 0 then 0 else if n > 255 then 255 else n
  }

  /** Channel is what a clamped array stores for `channel || 0`: a missing
      (NaN) channel becomes 0, a parsed byte is kept, a negative parse
      becomes 0. */
  lemma ChannelIsClampedStore(x: Number)
    ensures Channel(x) == ToUint8Clamp(OrZero(x) as real)
    ensures x.NaN? ==> Channel(x) == 0
    ensures x.Num? && 0 <= x.n < 256 ==> Channel(x) == x.n
  {
    ClampOfInteger(OrZero(x));
  }

  /** The alpha byte for a source pixel, in integer arithmetic: the integer
      nearest to `255 - (R+G+B)/3`. */
  function Alpha(sr: Byte, sg: Byte, sb: Byte): (a: Byte)
    ensures -1 <= 3 * (255 - a) - (sr + sg + sb) <= 1
  {
    255 - (sr + sg + sb + 1) / 3
  }

  /** Alpha is what a clamped array stores for `255 - (R+G+B)/3`: the exact
      quotient rounded to the nearest integer. */
  lemma AlphaIsClampedStore(sr: Byte, sg: Byte, sb: Byte)
    ensures Alpha(sr, sg, sb) == ToUint8Clamp(255.0 - (sr + sg + sb) as real / 3.0)
  {
    AlphaRoundsThirds(sr + sg + sb);
  }

  /** For a sum of three bytes, `255 - sum/3` rounded to nearest is
      `255 - (sum+1) div 3`: the fraction is 0, 1/3 or 2/3, never a tie. */
  lemma AlphaRoundsThirds(s: int)
    requires 0 <= s <= 765
    ensures ToUint8Clamp(255.0 - s as real / 3.0) == 255 - (s + 1) / 3
  {
    var q, f := s / 3, s % 3;
    var x := 255.0 - s as real / 3.0;
    assert s as real / 3.0 == q as real + f as real / 3.0;
    if 0 < s < 765 {
      if f == 0 {
        assert x == (255 - q) as real;
        assert x.Floor == 255 - q;
      } else {
        assert (254 - q) as real < x < (255 - q) as real;
        assert x.Floor == 254 - q;
      }
    }
  }

  /** A brighter source pixel is never more opaque than a darker one. */
  lemma AlphaDecreasesWithBrightness(r1: Byte, g1: Byte, b1: Byte, r2: Byte, g2: Byte, b2: Byte)
    requires r1 + g1 + b1 <= r2 + g2 + b2
    ensures Alpha(r1, g1, b1) >= Alpha(r2, g2, b2)
  {
  }

  /** Alpha differs from the truncated mean `255 - sum div 3` exactly when the
      sum leaves remainder 2, where it is one lower. */
  lemma AlphaVersusTruncation(sr: Byte, sg: Byte, sb: Byte)
    ensures var s := sr + sg + sb;
            Alpha(sr, sg, sb) == if s % 3 == 2 then 254 - s / 3 else 255 - s / 3
  {
  }

  /** A black source pixel gives an opaque one, a white source pixel a fully
      transparent one. */
  lemma AlphaBlackAndWhite()
    ensures Alpha(0, 0, 0) == 255
    ensures Alpha(255, 255, 255) == 0
  {
  }

  /** Means with no fraction: pure red averages 85, (10,20,30) averages 20. */
  lemma AlphaWholeMeans()
    ensures Alpha(255, 0, 0) == 170
    ensures Alpha(10, 20, 30) == 235
  {
  }

  /** (2,0,0) gives 254 1/3, which is stored as 254, where the truncated mean
      would give 255. */
  lemma AlphaRoundsRatherThanTruncates()
    ensures Alpha(2, 0, 0) == 254
  {
  }

  /** Index of the red byte of pixel (x, y) in a buffer `w` pixels wide. */
  function Offset(w: nat, x: nat, y: nat): (pos: nat)
    ensures pos % 4 == 0
    ensures x < w ==> pos / 4 % w == x && pos / 4 / w == y
  {
    var p := y * w + x;
    Arith.DivModUnique(4 * p, 4, p, 0);
    if x < w then
      Arith.DivModUnique(p, w, y, x);
      y * w * 4 + x * 4
    else
      y * w * 4 + x * 4
  }

  /** All four bytes of an in-range pixel lie inside the buffer, and the block
      starts on a multiple of four. */
  lemma OffsetInBounds(w: nat, h: nat, x: nat, y: nat)
    requires x < w && y < h
    ensures Offset(w, x, y) + 4 <= w * h * 4
    ensures Offset(w, x, y) % 4 == 0
  {
    assert Offset(w, x, y) == (y * w + x) * 4;
    Arith.MulMono(y + 1, h, w);
    assert y * w + x + 1 <= (y + 1) * w;
  }

  /** A byte belongs to the block of pixel (x, y) exactly when its pixel
      number `k div 4` has column `x` and row `y`. */
  lemma ByteInPixel(w: nat, x: nat, y: nat, k: nat)
    requires x < w
    ensures Offset(w, x, y) <= k < Offset(w, x, y) + 4 <==> (k / 4 % w == x && k / 4 / w == y)
  {
    var p := y * w + x;
    assert Offset(w, x, y) == 4 * p;
    Arith.DivModUnique(p, w, y, x);
    if 4 * p <= k < 4 * p + 4 {
      Arith.DivModUnique(k, 4, p, k - 4 * p);
    }
    if k / 4 % w == x && k / 4 / w == y {
      assert k / 4 == (k / 4 / w) * w + k / 4 % w;
    }
  }

  /** Distinct in-range pixels own disjoint four-byte blocks. */
  lemma OffsetsDisjoint(w: nat, x1: nat, y1: nat, x2: nat, y2: nat)
    requires x1 < w && x2 < w && (x1, y1) != (x2, y2)
    ensures Offset(w, x1, y1) + 4 <= Offset(w, x2, y2) || Offset(w, x2, y2) + 4 <= Offset(w, x1, y1)
  {
    var p1, p2 := y1 * w + x1, y2 * w + x2;
    Arith.DivModUnique(p1, w, y1, x1);
    Arith.DivModUnique(p2, w, y2, x2);
    assert p1 != p2;
    assert Offset(w, x1, y1) == 4 * p1 && Offset(w, x2, y2) == 4 * p2;
  }

  /** Byte `k` of the transformed buffer: the fill colour in R, G and B, and
      in A the alpha of the source pixel the byte belongs to. */
  function GhostedByte(c: Color, src: seq<Byte>, k: nat): Byte
    requires k < |src|
  {
    if k % 4 == 0 then Channel(c.r)
    else if k % 4 == 1 then Channel(c.v)
    else if k % 4 == 2 then Channel(c.b)
    else Alpha(src[k - 3], src[k - 2], src[k - 1])
  }

  /** The whole transformed buffer, described byte by byte with no reference
      to pixel coordinates. */
  function Ghosted(c: Color, src: seq<Byte>): (dst: seq<Byte>)
    ensures |dst| == |src|
    ensures forall k :: 0 <= k < |src| ==> dst[k] == GhostedByte(c, src, k)
  {
    seq(|src|, k requires 0 <= k < |src| => GhostedByte(c, src, k))
  }

  /** Seen pixel by pixel, the transformed buffer holds the fill colour and
      the alpha of the same pixel of the source. */
  lemma GhostedAtPixel(c: Color, w: nat, h: nat, src: seq<Byte>, x: nat, y: nat)
    requires |src| == w * h * 4 && x < w && y < h
    ensures var pos := Offset(w, x, y);
            && pos + 4 <= |src|
            && Ghosted(c, src)[pos..pos + 4]
               == [Channel(c.r), Channel(c.v), Channel(c.b), Alpha(src[pos], src[pos + 1], src[pos + 2])]
  {
    OffsetInBounds(w, h, x, y);
    var pos := Offset(w, x, y);
    BlockOfGhosted(c, src, pos);
  }

  lemma BlockOfGhosted(c: Color, src: seq<Byte>, pos: nat)
    requires pos % 4 == 0 && pos + 4 <= |src|
    ensures Ghosted(c, src)[pos..pos + 4]
            == [Channel(c.r), Channel(c.v), Channel(c.b), Alpha(src[pos], src[pos + 1], src[pos + 2])]
  {
    var g := Ghosted(c, src);
    assert g[pos] == GhostedByte(c, src, pos) == Channel(c.r);
    assert g[pos + 1] == GhostedByte(c, src, pos + 1) == Channel(c.v);
    assert g[pos + 2] == GhostedByte(c, src, pos + 2) == Channel(c.b);
    assert g[pos + 3] == GhostedByte(c, src, pos + 3);
  }

  /** The colour bytes do not depend on the source at all. */
  lemma GhostedColourIgnoresSource(c: Color, src1: seq<Byte>, src2: seq<Byte>, k: nat)
    requires |src1| == |src2| && k < |src1| && k % 4 != 3
    ensures Ghosted(c, src1)[k] == Ghosted(c, src2)[k]
  {
  }
}
