/**
 A Ghoster instance as the transform sees it: the image dimensions and the
 fill colour. Its operations are the constructor, the dimension update of
 `fillBackupCanvas`, `setColor`, `renderPoint` and the pixel loop of `render`.
 The canvases are left out: `render` receives the source pixels and the
 destination's current pixels, as `getImageData` would copy them, and
 returns what it would hand to `putImageData`.
 */
module Ghoster {

  import opened Js
  import opened Colors
  import opened Pixels
  import Arith

  datatype State = State(imgWidth: nat, imgHeight: nat, color: Color)

  /** A pixel position: column `x`, row `y`. */
  datatype Pixel = Pixel(x: nat, y: nat)

  /** The constructor: no image yet and a black fill. */
  function New(): (g: State)
    ensures g.imgWidth == 0 && g.imgHeight == 0
    ensures IsByteColor(g.color) && g.color.r.n == g.color.v.n == g.color.b.n == 0
  {
    State(0, 0, Black)
  }

  /** The part of `fillBackupCanvas` the transform depends on: the new
      image's dimensions replace the old ones; the colour is kept. */
  function FillBackupCanvas(g: State, width: nat, height: nat): (g': State)
    ensures g'.imgWidth == width && g'.imgHeight == height
    ensures g'.color == g.color
  {
    g.(imgWidth := width, imgHeight := height)
  }

  /** `setColor`: only the colour changes and nothing is rendered. With hex
      digits in characters 1..6 every channel becomes a byte. */
  function SetColor(g: State, hex: JsString): (g': State)
    ensures g'.imgWidth == g.imgWidth && g'.imgHeight == g.imgHeight
    ensures g'.color == ParseColor(hex)
    ensures HasHexChannels(hex) ==> IsByteColor(g'.color)
  {
    g.(color := ParseColor(hex))
  }

  /** Until `setColor` is called every rendered pixel is black, whatever
      image is loaded. */
  lemma NewRendersBlack(width: nat, height: nat, src: seq<Byte>, k: nat)
    requires k < |src| && k % 4 != 3
    ensures Ghosted(FillBackupCanvas(New(), width, height).color, src)[k] == 0
  {
  }

  /** After `setColor` with a formatted colour, the rendered colour bytes are
      exactly that colour's bytes. */
  lemma SetColorThenRender(g: State, hex: JsString, r: Byte, v: Byte, b: Byte, src: seq<Byte>, k: nat)
    requires hex == FormatColor(r, v, b)
    requires k < |src| && k % 4 != 3
    ensures Ghosted(SetColor(g, hex).color, src)[k] == [r, v, b][k % 4]
  {
    ParseFormatRoundTrip(r, v, b);
    ChannelIsClampedStore(Num(r));
    ChannelIsClampedStore(Num(v));
    ChannelIsClampedStore(Num(b));
  }

  /** `renderPoint`: sets the four bytes of pixel (x, y). */
  function RenderPoint(g: State, src: seq<Byte>, dst: seq<Byte>, x: nat, y: nat): (r: seq<Byte>)
    requires x < g.imgWidth && y < g.imgHeight
    requires |src| == |dst| == g.imgWidth * g.imgHeight * 4
    ensures |r| == |dst|
  {
    var pos := Offset(g.imgWidth, x, y);
    OffsetInBounds(g.imgWidth, g.imgHeight, x, y);
    dst[pos := Channel(g.color.r)][pos + 1 := Channel(g.color.v)][pos + 2 := Channel(g.color.b)]
       [pos + 3 := Alpha(src[pos], src[pos + 1], src[pos + 2])]
  }

  /** `renderPoint` gives the four bytes of pixel (x, y) their transformed
      values and leaves every other destination byte alone. */
  lemma RenderPointWritesOnePixel(g: State, src: seq<Byte>, dst: seq<Byte>, x: nat, y: nat)
    requires x < g.imgWidth && y < g.imgHeight
    requires |src| == |dst| == g.imgWidth * g.imgHeight * 4
    ensures forall k :: 0 <= k < |dst| ==>
              RenderPoint(g, src, dst, x, y)[k]
              == if Offset(g.imgWidth, x, y) <= k < Offset(g.imgWidth, x, y) + 4
                 then Ghosted(g.color, src)[k] else dst[k]
  {
    forall k | 0 <= k < |dst|
      ensures RenderPoint(g, src, dst, x, y)[k]
              == if Offset(g.imgWidth, x, y) <= k < Offset(g.imgWidth, x, y) + 4
                 then Ghosted(g.color, src)[k] else dst[k]
    {
      RenderPointByte(g, src, dst, x, y, k);
    }
  }

  lemma RenderPointByte(g: State, src: seq<Byte>, dst: seq<Byte>, x: nat, y: nat, k: nat)
    requires x < g.imgWidth && y < g.imgHeight
    requires |src| == |dst| == g.imgWidth * g.imgHeight * 4
    requires k < |dst|
    ensures RenderPoint(g, src, dst, x, y)[k]
            == if Offset(g.imgWidth, x, y) <= k < Offset(g.imgWidth, x, y) + 4
               then Ghosted(g.color, src)[k] else dst[k]
  {
    var pos := Offset(g.imgWidth, x, y);
    OffsetInBounds(g.imgWidth, g.imgHeight, x, y);
    if pos <= k < pos + 4 {
      assert k % 4 == k - pos;
      assert Ghosted(g.color, src)[k] == GhostedByte(g.color, src, k);
    }
  }

  /** `renderPoint` writing into the destination array in place. */
  method RenderPointInPlace(g: State, src: seq<Byte>, dst: array<Byte>, x: nat, y: nat)
    requires x < g.imgWidth && y < g.imgHeight
    requires |src| == dst.Length == g.imgWidth * g.imgHeight * 4
    modifies dst
    ensures dst[..] == RenderPoint(g, src, old(dst[..]), x, y)
  {
    var pos := Offset(g.imgWidth, x, y);
    OffsetInBounds(g.imgWidth, g.imgHeight, x, y);
    dst[pos] := Channel(g.color.r);
    dst[pos + 1] := Channel(g.color.v);
    dst[pos + 2] := Channel(g.color.b);
    dst[pos + 3] := Alpha(src[pos], src[pos + 1], src[pos + 2]);
  }

  /** The first `n` pixels of column `x`, top to bottom: one run of the inner
      loop of `render`. */
  function Column(x: nat, n: nat): seq<Pixel>
  {
    if n == 0 then [] else Column(x, n - 1) + [Pixel(x, n - 1)]
  }

  /** The pixels `render` visits, in order: columns left to right, each from
      top to bottom. */
  function VisitOrder(w: nat, h: nat): seq<Pixel>
  {
    if w == 0 then [] else VisitOrder(w - 1, h) + Column(w - 1, h)
  }

  lemma {:induction false} ColumnIndex(x: nat, n: nat)
    ensures |Column(x, n)| == n
    ensures forall j :: 0 <= j < n ==> Column(x, n)[j] == Pixel(x, j)
  {
    if n > 0 {
      ColumnIndex(x, n - 1);
    }
  }

  lemma {:induction false} VisitOrderLength(w: nat, h: nat)
    ensures |VisitOrder(w, h)| == w * h
  {
    if w > 0 {
      VisitOrderLength(w - 1, h);
      ColumnIndex(w - 1, h);
      assert w * h == (w - 1) * h + h;
    }
  }

  /** Visit number `k` is column `k div h`, row `k mod h`. */
  lemma {:induction false} VisitAt(w: nat, h: nat, k: nat)
    requires h > 0 && k < |VisitOrder(w, h)|
    ensures VisitOrder(w, h)[k] == Pixel(k / h, k % h)
  {
    var prev, col := VisitOrder(w - 1, h), Column(w - 1, h);
    assert VisitOrder(w, h) == prev + col;
    VisitOrderLength(w - 1, h);
    if k < |prev| {
      VisitAt(w - 1, h, k);
    } else {
      ColumnIndex(w - 1, h);
      assert VisitOrder(w, h)[k] == col[k - |prev|];
      LastColumnVisit(w, h, k);
    }
  }

  lemma VisitOrderIndex(w: nat, h: nat)
    requires h > 0
    ensures forall k :: 0 <= k < |VisitOrder(w, h)| ==> VisitOrder(w, h)[k] == Pixel(k / h, k % h)
  {
    forall k | 0 <= k < |VisitOrder(w, h)|
      ensures VisitOrder(w, h)[k] == Pixel(k / h, k % h)
    {
      VisitAt(w, h, k);
    }
  }

  lemma LastColumnVisit(w: nat, h: nat, k: nat)
    requires h > 0 && w > 0 && (w - 1) * h <= k < (w - 1) * h + h
    ensures k / h == w - 1 && k % h == k - (w - 1) * h
  {
    Arith.DivModUnique(k, h, w - 1, k - (w - 1) * h);
  }

  lemma {:induction false} VisitOrderNoRows(w: nat)
    ensures VisitOrder(w, 0) == []
  {
    if w > 0 {
      VisitOrderNoRows(w - 1);
    }
  }

  /** The loops of `render` visit exactly the in-range pixels, each once. */
  lemma VisitsEachPixelOnce(w: nat, h: nat)
    ensures forall p :: p in VisitOrder(w, h) <==> p.x < w && p.y < h
    ensures forall i, j :: 0 <= i < j < |VisitOrder(w, h)| ==> VisitOrder(w, h)[i] != VisitOrder(w, h)[j]
  {
    if h == 0 {
      VisitOrderNoRows(w);
    } else {
      VisitOrderIndex(w, h);
      VisitOrderLength(w, h);
      var order := VisitOrder(w, h);
      forall p: Pixel | p.x < w && p.y < h
        ensures p in order
      {
        VisitOrderReaches(w, h, p);
      }
      forall p | p in order
        ensures p.x < w && p.y < h
      {
        var k :| 0 <= k < |order| && order[k] == p;
        Arith.QuotientBelow(k, h, w);
      }
      forall i, j | 0 <= i < j < |order|
        ensures order[i] != order[j]
      {
        DistinctVisits(h, i, j);
      }
    }
  }

  lemma VisitOrderReaches(w: nat, h: nat, p: Pixel)
    requires h > 0 && p.x < w && p.y < h
    ensures p in VisitOrder(w, h)
  {
    VisitOrderIndex(w, h);
    VisitOrderLength(w, h);
    var k := p.x * h + p.y;
    Arith.MulMono(p.x + 1, w, h);
    Arith.DivModUnique(k, h, p.x, p.y);
    assert VisitOrder(w, h)[k] == p;
  }

  lemma DistinctVisits(h: nat, i: nat, j: nat)
    requires h > 0 && i != j
    ensures Pixel(i / h, i % h) != Pixel(j / h, j % h)
  {
    assert i == (i / h) * h + i % h;
    assert j == (j / h) * h + j % h;
  }

  /** Whether the loops of `render`, about to render column `i`, row `j`,
      have already rendered the pixel that owns byte `k`. */
  ghost predicate Rendered(w: nat, i: nat, j: nat, k: nat)
  {
    w > 0 && (k / 4 % w < i || (k / 4 % w == i && k / 4 / w < j))
  }

  /** What the loops of `render` have achieved at column `i`, row `j`: the
      pixels already rendered hold the transformed values, all other bytes
      still hold the destination's earlier contents. */
  ghost predicate PartlyRendered(w: nat, i: nat, j: nat, buf: seq<Byte>, want: seq<Byte>, dst: seq<Byte>)
  {
    && |buf| == |want| == |dst|
    && forall k :: 0 <= k < |buf| ==> buf[k] == if Rendered(w, i, j, k) then want[k] else dst[k]
  }

  /** One call of `renderPoint` in the inner loop advances the row. */
  lemma InnerStep(g: State, src: seq<Byte>, dst: seq<Byte>, buf: seq<Byte>, i: nat, j: nat)
    requires i < g.imgWidth && j < g.imgHeight
    requires |src| == |dst| == g.imgWidth * g.imgHeight * 4
    requires PartlyRendered(g.imgWidth, i, j, buf, Ghosted(g.color, src), dst)
    ensures PartlyRendered(g.imgWidth, i, j + 1, RenderPoint(g, src, buf, i, j), Ghosted(g.color, src), dst)
  {
    var w, want, r := g.imgWidth, Ghosted(g.color, src), RenderPoint(g, src, buf, i, j);
    RenderPointWritesOnePixel(g, src, buf, i, j);
    forall k | 0 <= k < |r|
      ensures r[k] == if Rendered(w, i, j + 1, k) then want[k] else dst[k]
    {
      ByteInPixel(w, i, j, k);
    }
  }

  /** A finished column counts as rendered when the next column starts. */
  lemma OuterStep(w: nat, h: nat, i: nat, buf: seq<Byte>, want: seq<Byte>, dst: seq<Byte>)
    requires |buf| == w * h * 4
    requires PartlyRendered(w, i, h, buf, want, dst)
    ensures PartlyRendered(w, i + 1, 0, buf, want, dst)
  {
    forall k | 0 <= k < |buf|
      ensures Rendered(w, i, h, k) == Rendered(w, i + 1, 0, k)
    {
      if w > 0 {
        Arith.QuotientBelow(k / 4, w, h);
      }
    }
  }

  /** After the last column every byte holds its transformed value. */
  lemma AllRendered(w: nat, buf: seq<Byte>, want: seq<Byte>, dst: seq<Byte>)
    requires PartlyRendered(w, w, 0, buf, want, dst)
    requires w == 0 ==> |buf| == 0
    ensures buf == want
  {
    assert forall k :: 0 <= k < |buf| ==> Rendered(w, w, 0, k);
  }

  /** The pixel loop of `render`: every pixel is passed to `renderPoint`,
      column by column; the result is the transformed source whatever the
      destination held before. `visits` records the order of the calls. */
  method Render(g: State, src: seq<Byte>, dst: seq<Byte>) returns (out: seq<Byte>, ghost visits: seq<Pixel>)
    requires |src| == |dst| == g.imgWidth * g.imgHeight * 4
    ensures out == Ghosted(g.color, src)
    ensures visits == VisitOrder(g.imgWidth, g.imgHeight)
  {
    var w, h := g.imgWidth, g.imgHeight;
    ghost var want := Ghosted(g.color, src);
    var a := new Byte[|dst|](k requires 0 <= k < |dst| => dst[k]);
    assert a[..] == dst;
    visits := [];
    var i := 0;
    while i < w
      invariant i <= w
      invariant PartlyRendered(w, i, 0, a[..], want, dst)
      invariant visits == VisitOrder(i, h)
    {
      var j := 0;
      while j < h
        invariant j <= h
        invariant PartlyRendered(w, i, j, a[..], want, dst)
        invariant visits == VisitOrder(i, h) + Column(i, j)
      {
        ghost var before := a[..];
        RenderPointInPlace(g, src, a, i, j);
        InnerStep(g, src, dst, before, i, j);
        visits := visits + [Pixel(i, j)];
        j := j + 1;
      }
      OuterStep(w, h, i, a[..], want, dst);
      i := i + 1;
    }
    AllRendered(w, a[..], want, dst);
    out := a[..];
  }
}
