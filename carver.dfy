/** The process data of the seam carver (`ImageProcessData`,
    parallel_seam_carving.c, lines 45-54) and the stages that rewrite its
    buffers: the energy pass, the two cost passes, the seam tracer, the seam
    remover and the energy refresher. Each stage is proved against the pure
    definitions of the modules it imports. */
module Carver {
  import opened Grid
  import opened Sobel
  import opened Cost
  import opened Tiles
  import opened Trace
  import opened Removal
  import opened Refresh
  import opened Pipeline

  class ImageProcessData {
    /** The image, row-major, `channelCount` bytes per pixel. */
    var img: array<Byte>
    /** One Sobel energy per pixel (NULL before the first energy pass is an
        empty buffer here). */
    var imgEnergy: array<U32>
    /** One cumulative cost per pixel. */
    var imgSeam: array<U32>
    /** One seam per band, one column per row. */
    var seamPath: seq<seq<int>>
    var width: int
    var height: int
    var channelCount: int
    /** The number of bands, hence of seams removed per pass
        (`SIM_NUM_SEAM_REMOVAL`). */
    const k: int

    /** The shape every stage relies on. */
    predicate Valid()
      reads this
    {
      k > 0 && width > 0 && height > 0 && channelCount > 0 &&
      img.Length == width * height * channelCount && |seamPath| == k
    }

    /** The image the process data holds. */
    function Image(): (im: Raster)
      reads this, img
      ensures Valid() ==> im.Valid()
    {
      Raster(img[..], width, height, channelCount)
    }

    /** The process data of `main` right after the image is decoded
        (lines 597-604): no energy, no cost, no seams yet. */
    constructor (data: seq<Byte>, w: int, h: int, c: int, bands: int)
      requires w > 0 && h > 0 && c > 0 && bands > 0 && |data| == w * h * c
      ensures Valid() && Image() == Raster(data, w, h, c) && k == bands
      ensures imgEnergy.Length == 0 && imgSeam.Length == 0
      ensures seamPath == seq(bands, _ => [])
    {
      img := new Byte[|data|](i requires 0 <= i < |data| => data[i]);
      imgEnergy := new U32[0];
      imgSeam := new U32[0];
      seamPath := seq(bands, _ => []);
      width, height, channelCount := w, h, c;
      k := bands;
      new;
      assert img[..] == data;
    }

    /** Channel `ch` of the clamped neighbour (x, y): `getPixelE(...)[ch]`. */
    method SamplePixel(x: int, y: int, limitLowX: int, limitHighX: int, ch: int)
      returns (v: int)
      requires Valid() && 0 <= ch < channelCount
      requires ColumnReadable(x, width, limitLowX, limitHighX)
      ensures v == Sample(Image(), x, y, limitLowX, limitHighX, ch)
    {
      SampleIsGetPixelE(Image(), x, y, limitLowX, limitHighX, ch);
      var p := GetPixelE(x, y, width, height, channelCount, limitLowX, limitHighX);
      v := img[p.value + ch];
    }

    /** One channel's term of line 169: the Sobel gradients of lines 155-167
        over the clamped neighbours, and the truncated magnitude. */
    method ChannelMagnitude(x: int, y: int, limitLowX: int, limitHighX: int, ch: int)
      returns (magnitude: int)
      requires Valid() && 0 <= ch < channelCount
      requires KernelReadable(Image(), x, limitLowX, limitHighX)
      ensures magnitude == ChannelEnergy(Image(), x, y, limitLowX, limitHighX, ch)
    {
      var nw := SamplePixel(x - 1, y - 1, limitLowX, limitHighX, ch);
      var n := SamplePixel(x, y - 1, limitLowX, limitHighX, ch);
      var ne := SamplePixel(x + 1, y - 1, limitLowX, limitHighX, ch);
      var w := SamplePixel(x - 1, y, limitLowX, limitHighX, ch);
      var e := SamplePixel(x + 1, y, limitLowX, limitHighX, ch);
      var sw := SamplePixel(x - 1, y + 1, limitLowX, limitHighX, ch);
      var s := SamplePixel(x, y + 1, limitLowX, limitHighX, ch);
      var se := SamplePixel(x + 1, y + 1, limitLowX, limitHighX, ch);
      var gx := - nw - 2 * w - sw + ne + 2 * e + se;
      var gy := nw + 2 * n + ne - sw - 2 * s - se;
      assert gx == GradX(Image(), x, y, limitLowX, limitHighX, ch);
      assert gy == GradY(Image(), x, y, limitLowX, limitHighX, ch);
      magnitude := FloorSqrt(gx * gx + gy * gy);
    }

    /** `calculatePixelEnergyStripe` (lines 150-173): the per-channel Sobel
        magnitudes summed over the channels, then their truncated mean (the
        intent of line 171, which divides an uninitialised variable instead). */
    method CalculatePixelEnergyStripe(x: int, y: int, limitLowX: int, limitHighX: int)
      returns (energy: U32)
      requires Valid() && KernelReadable(Image(), x, limitLowX, limitHighX)
      ensures energy == PixelEnergy(Image(), x, y, limitLowX, limitHighX)
      ensures energy <= MAX_PIXEL_ENERGY
    {
      ghost var im := Image();
      var energyTotal := 0;
      var rgbChannel := 0;
      while rgbChannel < channelCount
        invariant 0 <= rgbChannel <= channelCount
        invariant energyTotal == EnergyTotal(im, x, y, limitLowX, limitHighX, rgbChannel)
      {
        var magnitude := ChannelMagnitude(x, y, limitLowX, limitHighX, rgbChannel);
        energyTotal := energyTotal + magnitude;
        rgbChannel := rgbChannel + 1;
      }
      var mean := energyTotal / channelCount;
      assert mean == PixelEnergy(im, x, y, limitLowX, limitHighX);
      energy := mean;
    }

    /** `calculatePixelEnergy` (lines 176-179): the energy with the whole width
        as clamp range. */
    method CalculatePixelEnergy(x: int, y: int) returns (energy: U32)
      requires Valid()
      ensures KernelReadable(Image(), x, 0, width)
      ensures energy == PixelEnergy(Image(), x, y, 0, width)
    {
      FullWidthReadable(Image(), x);
      energy := CalculatePixelEnergyStripe(x, y, 0, width);
    }

    /** `calculateEnergyFull` (lines 223-242): a fresh energy buffer holding
        every pixel's energy. */
    method CalculateEnergyFull()
      requires Valid()
      modifies this
      ensures Valid() && fresh(imgEnergy)
      ensures imgEnergy[..] == EnergyField(Image())
      ensures img == old(img) && imgSeam == old(imgSeam) && seamPath == old(seamPath)
      ensures width == old(width) && height == old(height) && channelCount == old(channelCount)
    {
      imgEnergy := EnergyBuffer();
    }

    /** The loops of `calculateEnergyFull` (lines 226-241), filling a fresh
        buffer row by row. */
    method EnergyBuffer() returns (buf: array<U32>)
      requires Valid()
      ensures fresh(buf) && buf[..] == EnergyField(Image())
    {
      buf := new U32[width * height];
      var y := 0;
      ghost var off := 0;
      while y < height
        invariant 0 <= y <= height && off == y * width && 0 <= off <= width * height
        invariant forall i :: 0 <= i < off ==> buf[i] == EnergyField(Image())[i]
        modifies buf
      {
        RowSlice(y, width, height);
        EnergyRow(buf, y, off);
        y := y + 1;
        off := off + width;
      }
      assert off == width * height;
      assert buf[..] == EnergyField(Image());
    }

    /** The inner loop of `calculateEnergyFull` (lines 235-240): row y, at
        offsets [off, off + width), receives the energies of row y; the rows
        above keep theirs. */
    method EnergyRow(buf: array<U32>, y: int, ghost off: int)
      requires Valid() && buf.Length == width * height && 0 <= y < height
      requires off == y * width && 0 <= off && off + width <= width * height
      requires forall i :: 0 <= i < off ==> buf[i] == EnergyField(Image())[i]
      modifies buf
      ensures forall i :: 0 <= i < off + width ==> buf[i] == EnergyField(Image())[i]
    {
      ghost var im := Image();
      var x := 0;
      while x < width
        invariant 0 <= x <= width
        invariant forall i :: 0 <= i < off + x ==> buf[..][i] == EnergyField(im)[i]
      {
        var pixelIdx := PixelIdx(x, y, width);
        RowOffset(x, y, width);
        var energy := CalculatePixelEnergy(x, y);
        EnergyFieldAt(im, x, y);
        assert pixelIdx == off + x;
        ghost var before := buf[..];
        buf[pixelIdx] := energy;
        SpanStep(before, buf[..], EnergyField(im), 0, off + x, |before|);
        x := x + 1;
      }
    }

    /** `seamIdentification` (lines 343-378): a fresh cost buffer holding the
        cumulative cost of every pixel, computed row by row from the bottom. */
    method SeamIdentification()
      requires Valid() && imgEnergy.Length == width * height
      modifies this
      ensures img == old(img) && imgEnergy == old(imgEnergy) && seamPath == old(seamPath)
      ensures width == old(width) && height == old(height) && channelCount == old(channelCount)
      ensures Valid() && fresh(imgSeam)
      ensures imgSeam[..] == CostField(imgEnergy[..], width, height)
    {
      imgSeam := CostBuffer();
    }

    /** The loops of `seamIdentification` (lines 352-377): the bottom row is
        the energy read through the sentinel lookup, then each row above is
        the cell rule over the row below it. */
    method CostBuffer() returns (seam: array<U32>)
      requires Valid() && imgEnergy.Length == width * height
      ensures fresh(seam) && seam[..] == CostField(imgEnergy[..], width, height)
    {
      ghost var F := CostField(imgEnergy[..], width, height);
      seam := new U32[width * height];
      FillBottomRow(seam, F);
      BottomRowFlat(seam[..], F, width, height);
      ghost var bottom := (height - 1) * width;
      RowSlice(height - 1, width, height);
      var y := height - 2;
      ghost var off := bottom - width;
      while y >= 0
        invariant -1 <= y <= height - 2 && off == y * width
        invariant forall i :: off + width <= i < |F| ==> seam[..][i] == F[i]
      {
        RowSlice(y, width, height);
        CostRowPass(seam, y, off, F);
        y := y - 1;
        off := off - width;
      }
      assert seam[..] == F;
    }

    /** The inner loop of `seamIdentification` (lines 366-376): with the rows
        below y final, every cell of row y receives its final cost. */
    method CostRowPass(seam: array<U32>, y: int, ghost off: int, ghost F: seq<U32>)
      requires Valid() && imgEnergy.Length == width * height
      requires seam.Length == width * height && seam != imgEnergy
      requires F == CostField(imgEnergy[..], width, height)
      requires 0 <= y < height - 1 && off == y * width && 0 <= off && off + width <= width * height
      requires forall i :: off + width <= i < |F| ==> seam[..][i] == F[i]
      modifies seam
      ensures forall i :: off <= i < |F| ==> seam[..][i] == F[i]
    {
      var x := 0;
      while x < width
        invariant 0 <= x <= width
        invariant forall i :: off <= i < off + x || off + width <= i < |F| ==> seam[..][i] == F[i]
      {
        RowAgrees(seam[..], F, width, height, x, y + 1, off + width);
        RowOffset(x, y, width);
        ghost var before := seam[..];
        StoreCellCost(seam, x, y, F);
        SpanStep(before, seam[..], F, off, off + x, off + width);
        x := x + 1;
      }
    }

    /** The bottom-row loop both cost passes share (lines 356-359 and
        390-393): the bottom row gets the sentinel view of its energy, which
        is its final cost; no row above it changes. */
    method FillBottomRow(seam: array<U32>, ghost F: seq<U32>)
      requires Valid() && imgEnergy.Length == width * height
      requires seam.Length == width * height && seam != imgEnergy
      requires F == CostField(imgEnergy[..], width, height)
      modifies seam
      ensures RowsAgree(seam[..], F, width, height, height - 2)
      ensures SameBelow(old(seam[..]), seam[..], width, height, height - 1)
    {
      ghost var bottom := height - 1;
      var x := 0;
      while x < width
        invariant 0 <= x <= width
        invariant forall x' :: 0 <= x' < x ==> At(seam[..], width, height, x', bottom) == At(F, width, height, x', bottom)
        invariant SameBelow(old(seam[..]), seam[..], width, height, height - 1)
      {
        BottomCellFinal(imgEnergy[..], width, height, x);
        ghost var before := seam[..];
        seam[PixelIdx(x, height - 1, width)] := EnergyPixelE(imgEnergy[..], x, height - 1, width, height);
        StoreAt(before, seam[..], F, width, height, x, height - 1);
        x := x + 1;
      }
    }

    /** `triangleSeamIdentification` (lines 381-458) with the strip loop
        running while stripBottom >= 0, so that the strip ending at row 0 is
        never skipped: the tiled order gives the row-by-row cost field. */
    method TriangleSeamIdentification()
      requires Valid() && imgEnergy.Length == width * height
      modifies this
      ensures img == old(img) && imgEnergy == old(imgEnergy) && seamPath == old(seamPath)
      ensures width == old(width) && height == old(height) && channelCount == old(channelCount)
      ensures Valid() && fresh(imgSeam)
      ensures imgSeam[..] == CostField(imgEnergy[..], width, height)
    {
      imgSeam := TiledBuffer();
    }

    /** The strip loop of the corrected tiled pass; whatever the fresh buffer
        holds is overwritten. */
    method TiledBuffer() returns (seam: array<U32>)
      requires Valid() && imgEnergy.Length == width * height
      ensures fresh(seam) && seam[..] == CostField(imgEnergy[..], width, height)
    {
      ghost var F := CostField(imgEnergy[..], width, height);
      seam := new U32[width * height];
      FillBottomRow(seam, F);
      var stripBottom := height - 2;
      while stripBottom >= 0
        invariant -15 <= stripBottom <= height - 2
        invariant RowsAgree(seam[..], F, width, height, stripBottom)
      {
        StripPass(seam, stripBottom, F);
        stripBottom := stripBottom - 15;
      }
      AllRowsAgree(seam[..], F, width, height, stripBottom);
    }

    /** `triangleSeamIdentification` as written (line 397 loops while
        stripBottom > 0). The contents `malloc` returns for the new buffer are
        the parameter junk; row 0 keeps them when height - 2 is a multiple of
        15. */
    method TriangleSeamIdentificationAsWritten(junk: seq<U32>)
      requires Valid() && imgEnergy.Length == width * height && |junk| == width * height
      modifies this
      ensures img == old(img) && imgEnergy == old(imgEnergy) && seamPath == old(seamPath)
      ensures width == old(width) && height == old(height) && channelCount == old(channelCount)
      ensures Valid() && fresh(imgSeam)
      ensures imgSeam[..] == TiledAsWritten(junk, CostField(imgEnergy[..], width, height), width, height)
    {
      imgSeam := TiledBufferAsWritten(junk);
    }

    /** The strip loop as written. */
    method TiledBufferAsWritten(junk: seq<U32>) returns (seam: array<U32>)
      requires Valid() && imgEnergy.Length == width * height && |junk| == width * height
      ensures fresh(seam)
      ensures seam[..] == TiledAsWritten(junk, CostField(imgEnergy[..], width, height), width, height)
    {
      ghost var F := CostField(imgEnergy[..], width, height);
      var n := width * height;
      seam := new U32[n](i requires 0 <= i < n => junk[i]);
      assert seam[..] == junk;
      FillBottomRow(seam, F);
      var stripBottom := height - 2;
      while stripBottom > 0
        invariant -15 < stripBottom <= height - 2 && (height - 2 - stripBottom) % 15 == 0
        invariant RowsAgree(seam[..], F, width, height, stripBottom)
        invariant SameBelow(junk, seam[..], width, height, stripBottom + 1)
      {
        StripPass(seam, stripBottom, F);
        stripBottom := stripBottom - 15;
      }
      TiledExit(seam[..], junk, F, width, height, stripBottom);
    }

    /** One strip of the tiled pass (lines 399-456): first every up triangle,
        then every down triangle. With the rows above the strip final, the
        strip's rows become final too; rows below the strip do not change. */
    method StripPass(seam: array<U32>, sb: int, ghost F: seq<U32>)
      requires Valid() && imgEnergy.Length == width * height
      requires seam.Length == width * height && seam != imgEnergy
      requires F == CostField(imgEnergy[..], width, height)
      requires 0 <= sb <= height - 2 && RowsAgree(seam[..], F, width, height, sb)
      modifies seam
      ensures RowsAgree(seam[..], F, width, height, sb - 15)
      ensures SameBelow(old(seam[..]), seam[..], width, height, sb - 14)
    {
      var triangleCount := (width + 29) / 30;
      UpStart(seam[..], F, width, height, sb);
      var t := 0;
      while t < triangleCount
        invariant 0 <= t <= triangleCount
        invariant UpAgree(seam[..], F, width, height, sb, t, 0, 0)
        invariant SameBelow(old(seam[..]), seam[..], width, height, sb - 14)
      {
        UpTriangle(seam, sb, t, F);
        t := t + 1;
      }
      UpToDown(seam[..], F, width, height, sb, triangleCount);
      triangleCount := (15 + width + 29) / 30;
      t := 0;
      while t < triangleCount
        invariant 0 <= t <= triangleCount
        invariant DownAgree(seam[..], F, width, height, sb, t, 0, 0)
        invariant SameBelow(old(seam[..]), seam[..], width, height, sb - 14)
      {
        DownTriangle(seam, sb, t, F);
        t := t + 1;
      }
      StripEnd(seam[..], F, width, height, sb, triangleCount);
    }

    /** Up triangle t of the strip (lines 405-424): its rows from the strip
        bottom upwards, stopping above row 0. */
    method UpTriangle(seam: array<U32>, sb: int, t: int, ghost F: seq<U32>)
      requires Valid() && imgEnergy.Length == width * height
      requires seam.Length == width * height && seam != imgEnergy
      requires F == CostField(imgEnergy[..], width, height)
      requires 0 <= sb <= height - 2 && t >= 0
      requires UpAgree(seam[..], F, width, height, sb, t, 0, 0)
      modifies seam
      ensures UpAgree(seam[..], F, width, height, sb, t + 1, 0, 0)
      ensures SameBelow(old(seam[..]), seam[..], width, height, sb - 14)
    {
      var yLocal := 0;
      while yLocal < 15 && sb - yLocal >= 0
        invariant 0 <= yLocal <= 15 && yLocal <= sb + 1
        invariant UpAgree(seam[..], F, width, height, sb, t, yLocal, 0)
        invariant SameBelow(old(seam[..]), seam[..], width, height, sb - 14)
      {
        UpRow(seam, sb, t, yLocal, F);
        yLocal := yLocal + 1;
      }
      UpTriangleEnd(seam[..], F, width, height, sb, t, yLocal);
    }

    /** Row yLocal of up triangle t (lines 410-423): the columns from
        30t + yLocal up to 30t + 30 - yLocal, cut at the image's right edge. */
    method UpRow(seam: array<U32>, sb: int, t: int, yLocal: int, ghost F: seq<U32>)
      requires Valid() && imgEnergy.Length == width * height
      requires seam.Length == width * height && seam != imgEnergy
      requires F == CostField(imgEnergy[..], width, height)
      requires 0 <= yLocal < 15 && 0 <= sb - yLocal && sb <= height - 2 && t >= 0
      requires UpAgree(seam[..], F, width, height, sb, t, yLocal, 0)
      modifies seam
      ensures UpAgree(seam[..], F, width, height, sb, t, yLocal + 1, 0)
      ensures SameBelow(old(seam[..]), seam[..], width, height, sb - yLocal)
    {
      var y := sb - yLocal;
      var xStart := t * 30 + yLocal;
      var xEnd := Min(xStart + 30 - 2 * yLocal, width);
      UpRowStart(seam[..], F, width, height, sb, t, yLocal);
      var x := xStart;
      while x < xEnd
        invariant xStart <= x && (x <= xEnd || x == xStart)
        invariant UpAgree(seam[..], F, width, height, sb, t, yLocal, x)
        invariant SameBelow(old(seam[..]), seam[..], width, height, y)
      {
        UpRowRange(x, yLocal, t);
        UpReady(seam[..], F, width, height, sb, yLocal, x);
        ghost var before := seam[..];
        StoreCellCost(seam, x, y, F);
        UpStore(before, seam[..], F, width, height, sb, yLocal, x);
        x := x + 1;
      }
      UpRowEnd(seam[..], F, width, height, sb, t, yLocal, x);
    }

    /** Down triangle t of the strip (lines 434-455); the down triangles
        start 15 columns left of the image. */
    method DownTriangle(seam: array<U32>, sb: int, t: int, ghost F: seq<U32>)
      requires Valid() && imgEnergy.Length == width * height
      requires seam.Length == width * height && seam != imgEnergy
      requires F == CostField(imgEnergy[..], width, height)
      requires 0 <= sb <= height - 2 && t >= 0
      requires DownAgree(seam[..], F, width, height, sb, t, 0, 0)
      modifies seam
      ensures DownAgree(seam[..], F, width, height, sb, t + 1, 0, 0)
      ensures SameBelow(old(seam[..]), seam[..], width, height, sb - 14)
    {
      var yLocal := 0;
      while yLocal < 15 && sb - yLocal >= 0
        invariant 0 <= yLocal <= 15 && yLocal <= sb + 1
        invariant DownAgree(seam[..], F, width, height, sb, t, yLocal, 0)
        invariant SameBelow(old(seam[..]), seam[..], width, height, sb - 14)
      {
        DownRow(seam, sb, t, yLocal, F);
        yLocal := yLocal + 1;
      }
      DownTriangleEnd(seam[..], F, width, height, sb, t, yLocal);
    }

    /** Row yLocal of down triangle t (lines 440-454): the columns from
        30t - 1 - yLocal up to 30t + 1 + yLocal, clamped to the image. */
    method DownRow(seam: array<U32>, sb: int, t: int, yLocal: int, ghost F: seq<U32>)
      requires Valid() && imgEnergy.Length == width * height
      requires seam.Length == width * height && seam != imgEnergy
      requires F == CostField(imgEnergy[..], width, height)
      requires 0 <= yLocal < 15 && 0 <= sb - yLocal && sb <= height - 2 && t >= 0
      requires DownAgree(seam[..], F, width, height, sb, t, yLocal, 0)
      modifies seam
      ensures DownAgree(seam[..], F, width, height, sb, t, yLocal + 1, 0)
      ensures SameBelow(old(seam[..]), seam[..], width, height, sb - yLocal)
    {
      var y := sb - yLocal;
      var invYLocal := 15 - yLocal - 1;
      var xStart := -15 + t * 30 + invYLocal;
      var xEnd := Min(xStart + 30 - 2 * invYLocal, width);
      var clampedXStart := if xStart < 0 then 0 else xStart;
      DownRowStart(seam[..], F, width, height, sb, t, yLocal, clampedXStart);
      var x := clampedXStart;
      while x < xEnd
        invariant clampedXStart <= x && (x <= xEnd || x == clampedXStart)
        invariant DownAgree(seam[..], F, width, height, sb, t, yLocal, x)
        invariant SameBelow(old(seam[..]), seam[..], width, height, y)
      {
        DownRowRange(x, yLocal, t);
        DownReady(seam[..], F, width, height, sb, yLocal, x);
        ghost var before := seam[..];
        StoreCellCost(seam, x, y, F);
        DownStore(before, seam[..], F, width, height, sb, yLocal, x);
        x := x + 1;
      }
      DownRowEnd(seam[..], F, width, height, sb, t, yLocal, x);
    }

    /** The loop body the cost passes share (lines 368-375, 415-422 and
        446-453): once the three cells below (x, y) hold their final costs,
        the cell receives its own final cost and no other cell changes. */
    method StoreCellCost(seam: array<U32>, x: int, y: int, ghost F: seq<U32>)
      requires Valid() && imgEnergy.Length == width * height
      requires seam.Length == width * height && seam != imgEnergy
      requires F == CostField(imgEnergy[..], width, height)
      requires 0 <= x < width && 0 <= y < height - 1
      requires AgreeNear(seam[..], F, width, height, x, y + 1)
      modifies seam
      ensures 0 <= PixelIdx(x, y, width) < |F|
      ensures seam[..] == old(seam[..])[PixelIdx(x, y, width) := F[PixelIdx(x, y, width)]]
    {
      var w, h := width, height;
      var leftEnergy := EnergyPixelE(seam[..], x - 1, y + 1, w, h);
      var centerEnergy := EnergyPixelE(seam[..], x, y + 1, w, h);
      var rightEnergy := EnergyPixelE(seam[..], x + 1, y + 1, w, h);
      var curEnergy := EnergyPixelE(imgEnergy[..], x, y, w, h);
      var minEnergy := Min(leftEnergy, Min(centerEnergy, rightEnergy));
      CellCostFinal(imgEnergy[..], seam[..], w, h, x, y);
      seam[PixelIdx(x, y, w)] := AddU32(curEnergy, minEnergy);
    }

    /** `seamAnnotate` (lines 461-513): one seam per band, traced on the cost
        buffer; the seam table gets one column per row for every band. */
    method SeamAnnotate()
      requires Valid() && imgSeam.Length == width * height
      modifies this
      ensures img == old(img) && imgEnergy == old(imgEnergy) && imgSeam == old(imgSeam)
      ensures width == old(width) && height == old(height) && channelCount == old(channelCount)
      ensures Valid() && seamPath == Seams(imgSeam[..], width, height, k)
    {
      var stripWidth := width / k;
      var seamIdx := 0;
      while seamIdx < k
        invariant 0 <= seamIdx <= k && Valid()
        invariant img == old(img) && imgEnergy == old(imgEnergy) && imgSeam == old(imgSeam)
        invariant width == old(width) && height == old(height) && channelCount == old(channelCount)
        invariant forall b :: 0 <= b < seamIdx ==> seamPath[b] == Seams(imgSeam[..], width, height, k)[b]
      {
        BandInImage(seamIdx, width, k);
        var lowX := seamIdx * stripWidth;
        var highX := lowX + stripWidth;
        var path := TraceBand(imgSeam[..], width, height, lowX, highX);
        seamPath := seamPath[seamIdx := path];
        seamIdx := seamIdx + 1;
      }
    }

    /** `seamRemove` (lines 516-556): the image loses the k seams of the pass,
        one pixel per seam and row; the width drops by k, the height and the
        channel count stay. */
    method SeamRemove()
      requires Valid() && Removable(seamPath, width, height) && k < width
      modifies this
      ensures imgEnergy == old(imgEnergy) && imgSeam == old(imgSeam) && seamPath == old(seamPath)
      ensures width == old(width) - k && height == old(height) && channelCount == old(channelCount)
      ensures Valid() && fresh(img)
      ensures img[..] == Carved(old(img[..]), old(width), height, channelCount, seamPath)
    {
      var image := CarveImage(img[..], width, height, channelCount, seamPath);
      img := image;
      width := width - k;
    }

    // ---- The energy refresh ---------------------------------------------------------

    /** The band width of the pass that produced the image: `stripWidth`
        of the old width (line 249). */
    function StripWidth(): int
      requires k > 0
      reads this
    {
      (width + k) / k
    }

    /** What the refresh is handed after a pass: the carved image of width w,
        the energy field of the old width w + k (a multiple of k) and the
        pass's in-band seams. */
    predicate RefreshReady()
      reads this, img, imgEnergy
    {
      Valid() && (width + k) % k == 0 && Shape(imgEnergy[..], Image(), seamPath, StripWidth())
    }

    /** `updateEnergyOnSeam` (lines 245-295) as written. When no iteration
        faults (`ok`), the energy buffer is replaced by a fresh one holding the
        refreshed field; an iteration that reads through a NULL pixel or
        stores past the buffer stops the refresh with `ok` false, and the
        model keeps the old buffer there. */
    method UpdateEnergyOnSeam() returns (ok: bool)
      requires Valid() && (width + k) % k == 0 && imgEnergy.Length == (width + k) * height
      requires InBands(seamPath, StripWidth(), height)
      modifies this
      ensures img == old(img) && imgSeam == old(imgSeam) && seamPath == old(seamPath)
      ensures width == old(width) && height == old(height) && channelCount == old(channelCount) && Valid()
      ensures Shape(old(imgEnergy[..]), Image(), seamPath, StripWidth())
      ensures ok <==> RefreshSafe(old(imgEnergy[..]), Image(), seamPath, StripWidth())
      ensures ok ==> fresh(imgEnergy) && imgEnergy.Length == width * height &&
                     forall i :: 0 <= i < width * height ==>
                       Refreshed(old(imgEnergy[..]), Image(), seamPath, StripWidth())[i] == Some(imgEnergy[i])
      ensures !ok ==> imgEnergy == old(imgEnergy)
    {
      StripWidthExact(width + k, k);
      var done, buf := RefreshBuffer();
      ok := done;
      if ok {
        imgEnergy := buf;
      }
    }

    /** The loops of `updateEnergyOnSeam` (lines 254-292), row by row into a
        fresh buffer, stopping at the first faulting iteration. */
    method RefreshBuffer() returns (ok: bool, buf: array<U32>)
      requires RefreshReady()
      ensures fresh(buf) && buf.Length == width * height
      ensures ok <==> RefreshSafe(imgEnergy[..], Image(), seamPath, StripWidth())
      ensures ok ==> forall i :: 0 <= i < width * height ==>
                       Refreshed(imgEnergy[..], Image(), seamPath, StripWidth())[i] == Some(buf[i])
    {
      ghost var E := imgEnergy[..];
      ghost var im := Image();
      ghost var sw := StripWidth();
      ghost var oldW := width + k;
      ghost var R := Refreshed(E, im, seamPath, sw);
      buf := new U32[width * height];
      ok := true;
      var y := 0;
      ghost var start := 0;
      while y < height
        invariant 0 <= y <= height && start == y * width && 0 <= start <= width * height
        invariant imgEnergy[..] == E && Image() == im
        invariant forall i :: 0 <= i < start ==> R[i] == Some(buf[i])
        invariant forall y' :: 0 <= y' < y ==> RowSafe(E, im, seamPath, sw, y', oldW)
        modifies buf
      {
        RowSlice(y, width, height);
        ok := RefreshRow(buf, y, start, E, im, sw, R);
        if !ok {
          RowFaultUnsafe(E, im, seamPath, sw, y);
          return;
        }
        y := y + 1;
        start := start + width;
      }
      RowsSafe(E, im, seamPath, sw);
    }

    /** What one row of the refresh works with: the old field E, the carved
        image im and the band width sw it reads, and the field R it builds
        into buf. */
    predicate RefreshContext(buf: array<U32>, E: seq<U32>, im: Raster, sw: int, R: seq<Option<U32>>)
      reads this, img, imgEnergy
    {
      Valid() && buf != imgEnergy && buf.Length == width * height &&
      E == imgEnergy[..] && im == Image() && sw == StripWidth() &&
      Shape(E, im, seamPath, sw) && R == Refreshed(E, im, seamPath, sw)
    }

    /** The inner loop of `updateEnergyOnSeam` (lines 256-291) on row y. Old
        column x stores at new offset start + x - (seams left of x), so the
        kept columns fill the row in order, and each seam column's store lands
        on the cell the next kept column overwrites. */
    method RefreshRow(buf: array<U32>, y: int, ghost start: int,
                      ghost E: seq<U32>, ghost im: Raster, ghost sw: int, ghost R: seq<Option<U32>>)
      returns (ok: bool)
      requires RefreshContext(buf, E, im, sw, R) && 0 <= y < height
      requires start == y * width && 0 <= start && start + width <= width * height
      requires forall i :: 0 <= i < start ==> R[i] == Some(buf[i])
      modifies buf
      ensures ok ==> forall i :: 0 <= i < start + width ==> R[i] == Some(buf[i])
      ensures ok == RowSafe(E, im, seamPath, sw, y, |seamPath| * sw)
    {
      ghost var s := RowSeams(seamPath, y);
      var oldWidth := width + k;
      BandsOrdered(seamPath, sw, height);
      CountEnds(s, oldWidth);
      ghost var pos := start;
      var x := 0;
      while x < oldWidth
        invariant 0 <= x <= oldWidth
        invariant pos == start + x - CountLess(s, x) && start <= pos <= start + width
        invariant forall i :: 0 <= i < pos ==> R[i] == Some(buf[i])
        invariant RowSafe(E, im, seamPath, sw, y, x)
      {
        ok, pos := RefreshStore(buf, x, y, start, pos, E, im, sw, R);
        if !ok {
          RowFault(E, im, seamPath, sw, y, x);
          return;
        }
        RowSafeStep(E, im, seamPath, sw, y, x);
        x := x + 1;
      }
      ok := true;
    }

    /** One iteration (x, y) of the inner loop: the store, when it does not
        fault, keeps the refreshed prefix of the row. */
    method RefreshStore(buf: array<U32>, x: int, y: int, ghost start: int, ghost pos: int,
                        ghost E: seq<U32>, ghost im: Raster, ghost sw: int, ghost R: seq<Option<U32>>)
      returns (ok: bool, ghost pos': int)
      requires RefreshContext(buf, E, im, sw, R)
      requires 0 <= x < width + k && 0 <= y < height
      requires start == y * width && start + width <= width * height
      requires pos == start + x - CountLess(RowSeams(seamPath, y), x) && pos <= start + width
      requires forall i :: 0 <= i < pos ==> R[i] == Some(buf[i])
      modifies buf
      ensures ok == IterSafe(E, im, seamPath, sw, x, y)
      ensures ok ==> pos' == start + (x + 1) - CountLess(RowSeams(seamPath, y), x + 1) && pos <= pos' <= start + width
      ensures ok ==> forall i :: 0 <= i < pos' ==> R[i] == Some(buf[i])
    {
      var idx, value := RefreshCell(x, y);
      ok := idx < width * height && value.Some?;
      assert ok == IterSafe(E, im, seamPath, sw, x, y);
      pos' := pos;
      if ok {
        pos' := StoreWritten(buf, x, y, idx, value.value, start, pos, E, im, sw, R);
      }
    }

    /** The store of a non-faulting iteration (x, y): the value it computed
        lands on its destination offset. */
    method StoreWritten(buf: array<U32>, x: int, y: int, idx: int, v: U32, ghost start: int, ghost pos: int,
                        ghost E: seq<U32>, ghost im: Raster, ghost sw: int, ghost R: seq<Option<U32>>)
      returns (ghost pos': int)
      requires buf.Length == width * height && Shape(E, im, seamPath, sw) && im.width == width && im.height == height
      requires R == Refreshed(E, im, seamPath, sw)
      requires 0 <= x < |seamPath| * sw && 0 <= y < height && IterSafe(E, im, seamPath, sw, x, y)
      requires idx == PixelIdx(NewColumn(seamPath, sw, height, x, y), y, width)
      requires v == Written(E, im, seamPath, sw, x, y).value
      requires start == y * width && start + width <= width * height
      requires pos == start + x - CountLess(RowSeams(seamPath, y), x) && pos <= start + width
      requires forall i :: 0 <= i < pos ==> R[i] == Some(buf[i])
      modifies buf
      ensures pos' == start + (x + 1) - CountLess(RowSeams(seamPath, y), x + 1) && pos <= pos' <= start + width
      ensures forall i :: 0 <= i < pos' ==> R[i] == Some(buf[i])
    {
      RowOffset(NewColumn(seamPath, sw, height, x, y), y, width);
      MulMono(0, y, width);
      ghost var before := buf[..];
      pos' := start + (x + 1) - CountLess(RowSeams(seamPath, y), x + 1);
      buf[idx] := v;
      RowStoreStep(E, im, seamPath, sw, x, y, start, pos, pos', before, buf[..]);
    }

    /** Iteration (x, y) of `updateEnergyOnSeam` up to its store (lines
        259-291): the destination offset `idx`, and the value stored there,
        None when the recompute reads through a NULL pixel. */
    method RefreshCell(x: int, y: int) returns (idx: int, value: Option<U32>)
      requires RefreshReady() && 0 <= x < width + k && 0 <= y < height
      ensures idx == PixelIdx(NewColumn(seamPath, StripWidth(), height, x, y), y, width)
      ensures value == Written(imgEnergy[..], Image(), seamPath, StripWidth(), x, y)
    {
      ghost var E := imgEnergy[..];
      ghost var im := Image();
      var oldWidth := width + k;
      var stripWidth := oldWidth / k;
      assert stripWidth == StripWidth() && Shape(E, im, seamPath, stripWidth);
      BandOf(x, stripWidth, k);
      var stripIdx := x / stripWidth;
      var lowX := stripIdx * stripWidth;
      var highX := lowX + stripWidth;
      var seamX0 := if y > 0 then seamPath[stripIdx][y - 1] else INT_MAX;
      var seamX1 := seamPath[stripIdx][y];
      var seamX2 := if y < height - 1 then seamPath[stripIdx][y + 1] else INT_MAX;
      var insertOffsetX := if x > seamX1 then stripIdx + 1 else stripIdx;
      ghost var nx := NewColumn(seamPath, stripWidth, height, x, y);
      assert x - insertOffsetX == nx;
      idx := PixelIdx(x - insertOffsetX, y, width);
      WrittenCases(E, im, seamPath, stripWidth, x, y, lowX, highX, idx);
      var shouldRecalculate := Abs(x - seamX0) <= 1 || Abs(x - seamX1) <= 1 || Abs(x - seamX2) <= 1;
      RecalculateFrom(seamPath, stripWidth, height, x, y, seamX0, seamX1, seamX2);
      if shouldRecalculate {
        var pos := PixelPos(idx, width);
        if KernelReadable(Image(), pos.0, lowX, highX) {
          var energy := CalculatePixelEnergyStripe(pos.0, pos.1, lowX, highX);
          value := Some(energy);
        } else {
          value := None;
        }
        assert value == Written(E, im, seamPath, stripWidth, x, y);
      } else {
        value := Some(imgEnergy[PixelIdx(x, y, oldWidth)]);
        assert value == Written(E, im, seamPath, stripWidth, x, y);
      }
      assert E == imgEnergy[..] && im == Image();
    }

    /** The corrected `updateEnergyOnSeam`: each seam pixel is skipped, and a
        recompute uses the limits of the pixel's band in the new image. The
        energy buffer is replaced by a fresh one holding the corrected field. */
    method UpdateEnergyOnSeamFixed()
      requires Valid() && (width + k) % k == 0 && imgEnergy.Length == (width + k) * height
      requires InBands(seamPath, StripWidth(), height)
      modifies this
      ensures img == old(img) && imgSeam == old(imgSeam) && seamPath == old(seamPath)
      ensures width == old(width) && height == old(height) && channelCount == old(channelCount) && Valid()
      ensures Shape(old(imgEnergy[..]), Image(), seamPath, StripWidth())
      ensures fresh(imgEnergy) && imgEnergy[..] == RefreshedFixed(old(imgEnergy[..]), Image(), seamPath, StripWidth())
    {
      StripWidthExact(width + k, k);
      imgEnergy := RefreshBufferFixed();
    }

    /** The loops of the corrected refresh, row by row into a fresh buffer. */
    method RefreshBufferFixed() returns (buf: array<U32>)
      requires RefreshReady()
      ensures fresh(buf) && buf[..] == RefreshedFixed(imgEnergy[..], Image(), seamPath, StripWidth())
    {
      ghost var E := imgEnergy[..];
      ghost var im := Image();
      ghost var sw := StripWidth();
      ghost var R := RefreshedFixed(E, im, seamPath, sw);
      buf := new U32[width * height];
      var y := 0;
      ghost var start := 0;
      while y < height
        invariant 0 <= y <= height && start == y * width && 0 <= start <= width * height
        invariant imgEnergy[..] == E && Image() == im
        invariant forall i :: 0 <= i < start ==> R[i] == buf[i]
        modifies buf
      {
        RowSlice(y, width, height);
        RefreshRowFixed(buf, y, start, E, im, sw, R);
        y := y + 1;
        start := start + width;
      }
      assert buf[..] == R;
    }

    /** The corrected inner loop on row y: the kept columns fill the row in
        order, and the seam columns store nothing. */
    method RefreshRowFixed(buf: array<U32>, y: int, ghost start: int,
                           ghost E: seq<U32>, ghost im: Raster, ghost sw: int, ghost R: seq<U32>)
      requires RefreshReady() && buf != imgEnergy && buf.Length == width * height && 0 <= y < height
      requires E == imgEnergy[..] && im == Image() && sw == StripWidth()
      requires Shape(E, im, seamPath, sw) && R == RefreshedFixed(E, im, seamPath, sw) && |R| == width * height
      requires start == y * width && 0 <= start && start + width <= width * height
      requires forall i :: 0 <= i < start ==> R[i] == buf[i]
      modifies buf
      ensures forall i :: 0 <= i < start + width ==> R[i] == buf[i]
    {
      ghost var s := RowSeams(seamPath, y);
      var oldWidth := width + k;
      BandsOrdered(seamPath, sw, height);
      CountEnds(s, oldWidth);
      ghost var pos := start;
      var x := 0;
      while x < oldWidth
        invariant 0 <= x <= oldWidth
        invariant imgEnergy[..] == E && Image() == im && StripWidth() == sw
        invariant pos == start + x - CountLess(s, x) && start <= pos <= start + width
        invariant forall i :: 0 <= i < pos ==> R[i] == buf[i]
      {
        pos := RefreshStoreFixed(buf, x, y, start, pos, E, im, sw, R);
        x := x + 1;
      }
    }

    /** One iteration (x, y) of the corrected inner loop: a seam column stores
        nothing, a kept column stores its corrected value on its own cell. */
    method RefreshStoreFixed(buf: array<U32>, x: int, y: int, ghost start: int, ghost pos: int,
                             ghost E: seq<U32>, ghost im: Raster, ghost sw: int, ghost R: seq<U32>)
      returns (ghost pos': int)
      requires RefreshReady() && buf != imgEnergy && buf.Length == width * height
      requires E == imgEnergy[..] && im == Image() && sw == StripWidth()
      requires Shape(E, im, seamPath, sw) && R == RefreshedFixed(E, im, seamPath, sw) && |R| == width * height
      requires 0 <= x < width + k && 0 <= y < height
      requires start == y * width && start + width <= width * height
      requires pos == start + x - CountLess(RowSeams(seamPath, y), x) && pos <= start + width
      requires forall i :: 0 <= i < pos ==> R[i] == buf[i]
      modifies buf
      ensures pos' == start + (x + 1) - CountLess(RowSeams(seamPath, y), x + 1) && pos <= pos' <= start + width
      ensures forall i :: 0 <= i < pos' ==> R[i] == buf[i]
    {
      var stripWidth := (width + k) / k;
      ghost var s := RowSeams(seamPath, y);
      BandsOrdered(seamPath, sw, height);
      SeamOfBand(seamPath, sw, height, x, y);
      CountStep(s, width + k, x);
      KeptPrefixBound(s, width + k, x + 1);
      pos' := pos;
      if x != seamPath[x / stripWidth][y] {
        var idx, value := RefreshCellFixed(x, y);
        pos' := StoreWrittenFixed(buf, x, y, idx, value, start, pos, E, im, sw, R);
      }
    }

    /** The store of the corrected refresh for kept column x of row y. */
    method StoreWrittenFixed(buf: array<U32>, x: int, y: int, idx: int, v: U32, ghost start: int, ghost pos: int,
                             ghost E: seq<U32>, ghost im: Raster, ghost sw: int, ghost R: seq<U32>)
      returns (ghost pos': int)
      requires buf.Length == width * height && Shape(E, im, seamPath, sw) && im.width == width && im.height == height
      requires R == RefreshedFixed(E, im, seamPath, sw)
      requires 0 <= x < |seamPath| * sw && 0 <= y < height && x !in RowSeams(seamPath, y)
      requires idx == PixelIdx(NewColumn(seamPath, sw, height, x, y), y, width)
      requires v == WrittenFixed(E, im, seamPath, sw, x, y)
      requires start == y * width && start + width <= width * height
      requires pos == start + x - CountLess(RowSeams(seamPath, y), x)
      requires forall i :: 0 <= i < pos ==> R[i] == buf[i]
      modifies buf
      ensures pos' == pos + 1 && pos' <= start + width
      ensures forall i :: 0 <= i < pos' ==> R[i] == buf[i]
    {
      ghost var nx := NewColumn(seamPath, sw, height, x, y);
      RowOffset(nx, y, width);
      MulMono(0, y, width);
      ghost var before := buf[..];
      buf[idx] := v;
      RowStoreStepFixed(E, im, seamPath, sw, x, y, start, pos, before, buf[..]);
      pos' := pos + 1;
    }

    /** Iteration (x, y) of the corrected refresh for a kept pixel: its new
        offset, and its Sobel energy at its new column under its band's new
        limits, or its old energy. The new column lies inside that new band. */
    method RefreshCellFixed(x: int, y: int) returns (idx: int, value: U32)
      requires RefreshReady() && 0 <= x < width + k && 0 <= y < height
      requires x !in RowSeams(seamPath, y)
      ensures idx == PixelIdx(NewColumn(seamPath, StripWidth(), height, x, y), y, width)
      ensures value == WrittenFixed(imgEnergy[..], Image(), seamPath, StripWidth(), x, y)
    {
      ghost var E := imgEnergy[..];
      ghost var im := Image();
      var oldWidth := width + k;
      var stripWidth := oldWidth / k;
      assert stripWidth == StripWidth() && Shape(E, im, seamPath, stripWidth);
      BandOf(x, stripWidth, k);
      var stripIdx := x / stripWidth;
      var lowX := stripIdx * (stripWidth - 1);
      var highX := lowX + (stripWidth - 1);
      var seamX0 := if y > 0 then seamPath[stripIdx][y - 1] else INT_MAX;
      var seamX1 := seamPath[stripIdx][y];
      var seamX2 := if y < height - 1 then seamPath[stripIdx][y + 1] else INT_MAX;
      var insertOffsetX := if x > seamX1 then stripIdx + 1 else stripIdx;
      var newX := x - insertOffsetX;
      assert newX == NewColumn(seamPath, stripWidth, height, x, y);
      WrittenFixedCases(E, im, seamPath, stripWidth, x, y, lowX, highX, newX);
      idx := PixelIdx(newX, y, width);
      var shouldRecalculate := Abs(x - seamX0) <= 1 || Abs(x - seamX1) <= 1 || Abs(x - seamX2) <= 1;
      RecalculateFrom(seamPath, stripWidth, height, x, y, seamX0, seamX1, seamX2);
      if shouldRecalculate {
        value := CalculatePixelEnergyStripe(newX, y, lowX, highX);
      } else {
        value := imgEnergy[PixelIdx(x, y, oldWidth)];
      }
      assert E == imgEnergy[..] && im == Image();
    }

    // ---- The pass loop of main -------------------------------------------------------

    /** The state n more passes start from, with E the energies of the
        current image, held by the energy buffer. */
    predicate EnergyCurrent(E: seq<U32>, n: int)
      reads this, img, imgEnergy
    {
      Valid() && RunReady(Image(), E, k, n) && imgEnergy[..] == E
    }

    /** The state n more passes start from after a pass: the energy buffer
        still holds the energies of the image before the removal, and the
        refresh still to come turns it into E. */
    predicate RefreshPending(E: seq<U32>, n: int)
      reads this, img, imgEnergy
    {
      Valid() && RunReady(Image(), E, k, n) && Handed(Image(), imgEnergy[..], seamPath, k, E)
    }

    /** The seam steps of one iteration of the pass loop (lines 647-662):
        the cost field, the seams and their removal. The refresh of the next
        pass is then pending. */
    method CarvePass(ghost E: seq<U32>, ghost n: int) returns (ghost E': seq<U32>, ghost n': int)
      requires EnergyCurrent(E, n) && n > 0
      modifies this
      ensures PassReady(old(Image()), E, k)
      ensures Image() == Carve(old(Image()), E, k) && E' == NextEnergy(old(Image()), E, k)
      ensures n' == n - 1 && RefreshPending(E', n')
      ensures Run(Image(), E', k, n') == Run(old(Image()), E, k, n)
      ensures imgEnergy == old(imgEnergy) && seamPath == PassSeams(old(Image()), E, k)
    {
      n' := n - 1;
      ghost var im := Image();
      RunStep(im, E, k, n);
      E' := NextEnergy(im, E, k);
      FindSeams(E);
      RemoveSeams(E);
      RefreshHandOff(im, E, k);
    }

    /** The refresh at the start of every pass but the first (lines 640-643),
        corrected: afterwards the energy buffer holds E. */
    method RefreshStage(ghost E: seq<U32>, ghost n: int)
      requires RefreshPending(E, n)
      modifies this
      ensures EnergyCurrent(E, n) && Image() == old(Image()) && seamPath == old(seamPath)
    {
      UpdateEnergyOnSeamFixed();
    }

    /** The cost field and the seams of one pass (lines 649 and 656). */
    method FindSeams(ghost E: seq<U32>)
      requires Valid() && imgEnergy[..] == E && PassReady(Image(), E, k)
      modifies this
      ensures Valid() && Image() == old(Image()) && imgEnergy == old(imgEnergy)
      ensures seamPath == PassSeams(Image(), E, k)
    {
      SeamIdentification();
      SeamAnnotate();
    }

    /** The removal of one pass (line 662). */
    method RemoveSeams(ghost E: seq<U32>)
      requires Valid() && imgEnergy[..] == E && PassReady(Image(), E, k)
      requires seamPath == PassSeams(Image(), E, k)
      modifies this
      ensures Valid() && imgEnergy == old(imgEnergy) && seamPath == old(seamPath)
      ensures Image() == Carve(old(Image()), E, k)
    {
      ghost var im := Image();
      SeamRemove();
      assert img[..] == Carved(im.data, im.width, im.height, im.channelCount, seamPath);
    }

    /** The processing of `main` (lines 612-669) after the image is loaded,
        with the corrected refresh: the argument check, then the full energy
        pass and seamCount / k passes. The image left is the image of the
        corrected passes, seamCount columns narrower. */
    method CarveSeams(seamCount: int) returns (verdict: ArgsCheck)
      requires Valid() && MaxPathEnergy(height) <= INT_MAX
      modifies this
      ensures verdict == CheckArgs(seamCount, old(width), k)
      ensures verdict != Accepted ==>
                unchanged(this) && unchanged(img) && Valid() && Image() == old(Image())
      ensures verdict == Accepted ==>
                Valid() && Image() == Process(old(Image()), seamCount, k) &&
                width == old(width) - seamCount && height == old(height) && channelCount == old(channelCount)
    {
      verdict := CheckArgs(seamCount, width, k);
      if verdict != Accepted {
        return;
      }
      AcceptedRun(Image(), seamCount, k);
      CalculateEnergyFull();
      PassLoop(seamCount / k, imgEnergy[..]);
    }

    /** The pass loop of lines 634-669 from the full energy field E0. */
    method PassLoop(passes: int, ghost E0: seq<U32>)
      requires EnergyCurrent(E0, passes)
      modifies this
      ensures Valid() && Image() == Run(old(Image()), E0, k, passes)
    {
      ghost var E := E0;
      ghost var left := passes;
      ghost var carved := Run(Image(), E0, k, passes);
      var passIdx := 0;
      while passIdx < passes
        invariant 0 <= passIdx <= passes && left == passes - passIdx
        invariant passIdx == 0 ==> EnergyCurrent(E, left)
        invariant passIdx != 0 ==> RefreshPending(E, left)
        invariant Run(Image(), E, k, left) == carved
      {
        E, left := PassIteration(passIdx, E, left);
        passIdx := passIdx + 1;
      }
    }

    /** One iteration of the pass loop (lines 640-662): every pass but the
        first starts with the pending refresh, then the seams are found and
        removed. */
    method PassIteration(passIdx: int, ghost E: seq<U32>, ghost n: int) returns (ghost E': seq<U32>, ghost n': int)
      requires n > 0
      requires passIdx == 0 ==> EnergyCurrent(E, n)
      requires passIdx != 0 ==> RefreshPending(E, n)
      modifies this
      ensures n' == n - 1 && RefreshPending(E', n')
      ensures Run(Image(), E', k, n') == Run(old(Image()), E, k, n)
    {
      if passIdx != 0 {
        RefreshStage(E, n);
      }
      E', n' := CarvePass(E, n);
    }

    // ---- The pass loop of main as written ----------------------------------------------

    /** The state n more passes as written start from after a pass: the
        energy buffer still holds the energies of the image before the
        removal, and the seams removed are still in `seamPath`. */
    predicate PendingAsWritten(n: int)
      reads this, img, imgEnergy
    {
      Valid() && PendingReady(Image(), imgEnergy[..], seamPath, k, n)
    }

    /** The refresh at the start of every pass but the first (lines 640-643)
        as written. A fault (`ok` false) leaves the run without an image; a
        fault-free refresh leaves the energies the rest of the run starts from. */
    method RefreshStageAsWritten(ghost n: int) returns (ok: bool)
      requires PendingAsWritten(n) && n > 0
      modifies this
      ensures Image() == old(Image())
      ensures ok <==> RefreshSafe(old(imgEnergy[..]), Image(), old(seamPath), StripWidth())
      ensures !ok ==> ResumeAsWritten(old(Image()), old(imgEnergy[..]), old(seamPath), k, n) == None
      ensures ok ==> EnergyCurrent(imgEnergy[..], n) &&
                     RunAsWritten(Image(), imgEnergy[..], k, n) ==
                       ResumeAsWritten(old(Image()), old(imgEnergy[..]), old(seamPath), k, n)
    {
      ghost var E := imgEnergy[..];
      ghost var im := Image();
      ok := UpdateEnergyOnSeam();
      if ok {
        RefreshKeepsReady(im, E, seamPath, k, n);
        assert imgEnergy[..] == RefreshedValues(E, im, seamPath, StripWidth());
      }
    }

    /** One iteration of the pass loop as written (lines 640-662): every pass
        but the first starts with the refresh as written, and a fault there
        ends the run; then the seams are found and removed. */
    method PassIterationAsWritten(passIdx: int, ghost n: int, ghost outcome: Option<Raster>) returns (ok: bool)
      requires n > 0
      requires passIdx == 0 ==> EnergyCurrent(imgEnergy[..], n) && RunAsWritten(Image(), imgEnergy[..], k, n) == outcome
      requires passIdx != 0 ==> PendingAsWritten(n) && ResumeAsWritten(Image(), imgEnergy[..], seamPath, k, n) == outcome
      modifies this
      ensures !ok ==> outcome == None
      ensures ok ==> PendingAsWritten(n - 1) && ResumeAsWritten(Image(), imgEnergy[..], seamPath, k, n - 1) == outcome
    {
      ok := true;
      if passIdx != 0 {
        ok := RefreshStageAsWritten(n);
        if !ok {
          return;
        }
      }
      ghost var E := imgEnergy[..];
      ghost var im := Image();
      ghost var E', n' := CarvePass(E, n);
      PassPending(im, E, k, n);
    }

    /** The pass loop of lines 634-669 as written from the full energy field
        E0: `ok` is false exactly when a refresh faults, and otherwise the
        image left is that of the passes as written. */
    method PassLoopAsWritten(passes: int, ghost E0: seq<U32>) returns (ok: bool)
      requires EnergyCurrent(E0, passes)
      modifies this
      ensures ok <==> RunAsWritten(old(Image()), E0, k, passes).Some?
      ensures ok ==> Valid() && Image() == RunAsWritten(old(Image()), E0, k, passes).value
    {
      ghost var outcome := RunAsWritten(Image(), E0, k, passes);
      ghost var left := passes;
      ok := true;
      var passIdx := 0;
      while passIdx < passes
        invariant 0 <= passIdx <= passes && left == passes - passIdx && ok
        invariant passIdx == 0 ==> EnergyCurrent(imgEnergy[..], left) && RunAsWritten(Image(), imgEnergy[..], k, left) == outcome
        invariant passIdx != 0 ==>
                    PendingAsWritten(left) && ResumeAsWritten(Image(), imgEnergy[..], seamPath, k, left) == outcome
      {
        ok := PassIterationAsWritten(passIdx, left, outcome);
        if !ok {
          return;
        }
        passIdx, left := passIdx + 1, left - 1;
      }
    }

    /** The processing of `main` (lines 612-669) as written after the image is
        loaded: the argument check, the full energy pass and seamCount / k
        passes whose refreshes can fault. `ok` says the run reached the end;
        the image left is then the outcome of the passes as written. */
    method CarveSeamsAsWritten(seamCount: int) returns (verdict: ArgsCheck, ok: bool)
      requires Valid() && MaxPathEnergy(height) <= INT_MAX
      modifies this
      ensures verdict == CheckArgs(seamCount, old(width), k)
      ensures verdict != Accepted ==>
                !ok && unchanged(this) && unchanged(img) && Valid() && Image() == old(Image())
      ensures verdict == Accepted ==>
                (ok <==> ProcessAsWritten(old(Image()), seamCount, k).Some?) &&
                (ok ==> Valid() && Image() == ProcessAsWritten(old(Image()), seamCount, k).value)
    {
      verdict := CheckArgs(seamCount, width, k);
      ok := false;
      if verdict != Accepted {
        return;
      }
      AcceptedRun(Image(), seamCount, k);
      CalculateEnergyFull();
      ok := PassLoopAsWritten(seamCount / k, imgEnergy[..]);
    }
  }

  /** The copy loops of `seamRemove` (lines 523-545), row by row, into a
      fresh buffer of (w - k) * h * c bytes: the carved image. */
  method CarveImage(src: seq<Byte>, w: int, h: int, c: int, seamPath: seq<seq<int>>)
    returns (image: array<Byte>)
    requires Removable(seamPath, w, h) && 0 < h && 0 < c && |src| == w * h * c
    ensures fresh(image) && image[..] == Carved(src, w, h, c, seamPath)
  {
    ghost var C := Carved(src, w, h, c, seamPath);
    var newWidth := w - |seamPath|;
    var pixelCount := newWidth * h;
    image := new Byte[pixelCount * c];
    ghost var start := 0;
    PixelStep(0, 0, newWidth, h, c);
    var y := 0;
    while y < h
      invariant 0 <= y <= h && start == PixelIdxC(0, y, newWidth, c) && 0 <= start <= |C|
      invariant forall i :: 0 <= i < start ==> image[i] == C[i]
    {
      CarveRow(image, src, w, h, c, seamPath, y, start, C);
      PixelStep(0, y, newWidth, h, c);
      start := PixelIdxC(newWidth, y, newWidth, c);
      y := y + 1;
    }
    PixelStep(0, h, newWidth, h, c);
    assert image[..] == C;
  }

  /** Row y of `seamRemove` (lines 528-543): the scan counts the seams it
      passes, and every other pixel is copied to its column minus that count.
      The row of the new image starts at offset `start`. */
  method CarveRow(image: array<Byte>, src: seq<Byte>, w: int, h: int, c: int, seamPath: seq<seq<int>>, y: int,
                  ghost start: int, ghost C: seq<Byte>)
    requires Removable(seamPath, w, h) && 0 <= y < h && 0 < c && |src| == w * h * c
    requires C == Carved(src, w, h, c, seamPath) && image.Length == |C|
    requires start == PixelIdxC(0, y, w - |seamPath|, c) && 0 <= start <= |C|
    requires forall i :: 0 <= i < start ==> image[i] == C[i]
    modifies image
    ensures PixelIdxC(w - |seamPath|, y, w - |seamPath|, c) <= |C|
    ensures forall i :: 0 <= i < PixelIdxC(w - |seamPath|, y, w - |seamPath|, c) ==> image[i] == C[i]
  {
    var k := |seamPath|;
    var newWidth := w - k;
    ghost var s := RowSeams(seamPath, y);
    CountEnds(s, w);
    var seanPassedCount := 0;
    ghost var pos := start;
    var x := 0;
    while x < w
      invariant 0 <= x <= w && seanPassedCount == CountLess(s, x)
      invariant pos == PixelIdxC(x - seanPassedCount, y, newWidth, c) && 0 <= pos <= |C|
      invariant forall i :: 0 <= i < pos ==> image[i] == C[i]
    {
      SeamTest(s, w, x);
      CountStep(s, w, x);
      if !IsSeam(seamPath, h, k, x, y, seanPassedCount) {
        var pixelIdxC := PixelIdxC(x, y, w, c);
        var pixelPos := PixelIdxC(x - seanPassedCount, y, newWidth, c);
        CarvedPixel(src, w, h, c, seamPath, x, y);
        CopyPixel(image, src, pixelIdxC, pixelPos, c, C);
        PixelStep(x - seanPassedCount, y, newWidth, h, c);
        pos := pos + c;
      } else {
        seanPassedCount := seanPassedCount + 1;
      }
      x := x + 1;
    }
  }

  /** The channel loop of lines 535-539: the c bytes of a kept pixel, from
      offset `pixelIdxC` of the old image to offset `pixelPos` of the new. */
  method CopyPixel(image: array<Byte>, src: seq<Byte>, pixelIdxC: int, pixelPos: int, c: int, ghost C: seq<Byte>)
    requires 0 <= c && 0 <= pixelIdxC && pixelIdxC + c <= |src|
    requires 0 <= pixelPos && pixelPos + c <= |C| && |C| == image.Length
    requires forall i :: pixelPos <= i < pixelPos + c ==> C[i] == src[pixelIdxC + (i - pixelPos)]
    requires forall i :: 0 <= i < pixelPos ==> image[i] == C[i]
    modifies image
    ensures forall i :: 0 <= i < pixelPos + c ==> image[i] == C[i]
  {
    var channel := 0;
    while channel < c
      invariant 0 <= channel <= c
      invariant forall i :: 0 <= i < pixelPos + channel ==> image[i] == C[i]
    {
      image[pixelPos + channel] := src[pixelIdxC + channel];
      channel := channel + 1;
    }
  }

  /** The top-row scan of `seamAnnotate` (lines 479-487) over the cost
      buffer c of a w x h image. */
  method TopRowMin(c: seq<U32>, w: int, h: int, lowX: int, highX: int) returns (curX: int)
    requires w > 0 && h > 0 && |c| == w * h && 0 <= lowX <= highX <= w
    ensures highX <= |c| && curX == FirstMin(c, lowX, highX)
  {
    MulMono(1, h, w);
    curX := lowX;
    if lowX < highX {
      var x := lowX + 1;
      while x < highX
        invariant lowX < x <= highX
        invariant curX == FirstMin(c, lowX, x)
      {
        RowOffset(x, 0, w);
        RowOffset(curX, 0, w);
        if c[PixelIdx(x, 0, w)] < c[PixelIdx(curX, 0, w)] {
          curX := x;
        }
        x := x + 1;
      }
    }
  }

  /** The body of the band loop of `seamAnnotate` (lines 478-511): the
      leftmost minimum of the band's top row, then one step per row. */
  method TraceBand(c: seq<U32>, w: int, h: int, lowX: int, highX: int) returns (path: seq<int>)
    requires w > 0 && h > 0 && |c| == w * h && 0 <= lowX <= highX <= w
    ensures path == TraceSeam(c, w, h, lowX, highX)
  {
    var curX := TopRowMin(c, w, h, lowX, highX);
    path := [curX];
    var y := 0;
    while y < h - 1
      invariant 0 <= y <= h - 1
      invariant path == SeamPrefix(c, w, h, lowX, highX, y + 1) && curX == path[y]
    {
      curX := StepBelow(c, w, h, lowX, highX, curX, y);
      SeamPrefixNext(c, w, h, lowX, highX, y + 1, path, curX);
      path := path + [curX];
      y := y + 1;
    }
  }

  /** One step of the tracer (lines 494-506): the three costs below the
      current column, read through the band-scoped lookup, decide the next
      column. */
  method StepBelow(c: seq<U32>, w: int, h: int, lowX: int, highX: int, curX: int, y: int) returns (nextX: int)
    requires 0 <= lowX && highX <= w && |c| == w * h
    ensures nextX == Step(c, w, h, lowX, highX, curX, y)
  {
    var leftEnergy := EnergyPixelEStripe(c, curX - 1, y + 1, w, h, lowX, highX);
    var centerEnergy := EnergyPixelEStripe(c, curX, y + 1, w, h, lowX, highX);
    var rightEnergy := EnergyPixelEStripe(c, curX + 1, y + 1, w, h, lowX, highX);
    nextX := Choose(leftEnergy, centerEnergy, rightEnergy, curX);
  }
}
