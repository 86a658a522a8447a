/** The Sobel energy of `calculatePixelEnergyStripe` (parallel_seam_carving.c,
    lines 150-173) as pure functions over a decoded image. */
module Sobel {
  import opened Grid

  /** |Gx| and |Gy| never exceed 4 * 255 for 8-bit channels. */
  const MAX_GRADIENT: int := 1020
  /** floor(sqrt(2 * 1020^2)): the largest per-channel (hence per-pixel) energy. */
  const MAX_PIXEL_ENERGY: int := 1442

  /** Column x, clamped to [limitLowX, limitHighX), is a column of the image,
      so `getPixel` does not return NULL for it. */
  predicate ColumnReadable(x: int, width: int, limitLowX: int, limitHighX: int)
  {
    0 <= ClampX(x, limitLowX, limitHighX) < width
  }

  /** Every clamped read of the 3x3 kernel at column x lands inside the image,
      so no `getPixelE` call of the kernel returns NULL. */
  predicate KernelReadable(im: Raster, x: int, lo: int, hi: int)
  {
    im.height > 0 &&
    ColumnReadable(x - 1, im.width, lo, hi) && ColumnReadable(x, im.width, lo, hi) &&
    ColumnReadable(x + 1, im.width, lo, hi)
  }

  /** A readable column is exactly one that `getPixelE` does not turn into NULL. */
  lemma ReadableIffNotNull(im: Raster, x: int, y: int, lo: int, hi: int)
    requires im.height > 0
    ensures ColumnReadable(x, im.width, lo, hi) <==>
            GetPixelE(x, y, im.width, im.height, im.channelCount, lo, hi).Some?
  {
  }

  /** The clamp limits of the whole image (those of `calculatePixelEnergy`)
      make every kernel readable. */
  lemma FullWidthReadable(im: Raster, x: int)
    requires im.Valid()
    ensures KernelReadable(im, x, 0, im.width)
  {
  }

  /** Channel `ch` of the clamped neighbour (x, y): `getPixelE(...)[ch]`. */
  function Sample(im: Raster, x: int, y: int, limitLowX: int, limitHighX: int, ch: int): (v: int)
    requires im.Valid() && 0 <= ch < im.channelCount
    requires ColumnReadable(x, im.width, limitLowX, limitHighX)
    ensures 0 <= v < 256
  {
    var cx, cy := ClampX(x, limitLowX, limitHighX), ClampY(y, im.height);
    IdxCInBuffer(cx, cy, im.width, im.height, im.channelCount, ch);
    im.data[PixelIdxC(cx, cy, im.width, im.channelCount) + ch]
  }

  /** `Sample` reads channel `ch` at the offset `getPixelE` returns. */
  lemma SampleIsGetPixelE(im: Raster, x: int, y: int, lo: int, hi: int, ch: int)
    requires im.Valid() && 0 <= ch < im.channelCount && ColumnReadable(x, im.width, lo, hi)
    ensures GetPixelE(x, y, im.width, im.height, im.channelCount, lo, hi).Some?
    ensures 0 <= GetPixelE(x, y, im.width, im.height, im.channelCount, lo, hi).value + ch < |im.data|
    ensures Sample(im, x, y, lo, hi, ch) ==
            im.data[GetPixelE(x, y, im.width, im.height, im.channelCount, lo, hi).value + ch]
  {
    var cx, cy := ClampX(x, lo, hi), ClampY(y, im.height);
    assert 0 <= cy < im.height;
    assert GetPixelE(x, y, im.width, im.height, im.channelCount, lo, hi)
        == Some(PixelIdxC(cx, cy, im.width, im.channelCount));
    IdxCInBuffer(cx, cy, im.width, im.height, im.channelCount, ch);
  }

  /** The horizontal Sobel gradient of lines 155-160. */
  function GradX(im: Raster, x: int, y: int, lo: int, hi: int, ch: int): int
    requires im.Valid() && 0 <= ch < im.channelCount && KernelReadable(im, x, lo, hi)
  {
    - Sample(im, x - 1, y - 1, lo, hi, ch)
    - 2 * Sample(im, x - 1, y, lo, hi, ch)
    - Sample(im, x - 1, y + 1, lo, hi, ch)
    + Sample(im, x + 1, y - 1, lo, hi, ch)
    + 2 * Sample(im, x + 1, y, lo, hi, ch)
    + Sample(im, x + 1, y + 1, lo, hi, ch)
  }

  /** The vertical Sobel gradient of lines 162-167. */
  function GradY(im: Raster, x: int, y: int, lo: int, hi: int, ch: int): int
    requires im.Valid() && 0 <= ch < im.channelCount && KernelReadable(im, x, lo, hi)
  {
    Sample(im, x - 1, y - 1, lo, hi, ch)
    + 2 * Sample(im, x, y - 1, lo, hi, ch)
    + Sample(im, x + 1, y - 1, lo, hi, ch)
    - Sample(im, x - 1, y + 1, lo, hi, ch)
    - 2 * Sample(im, x, y + 1, lo, hi, ch)
    - Sample(im, x + 1, y + 1, lo, hi, ch)
  }

  /** Integer square root: the C adds `sqrt(Gx^2 + Gy^2)` to an `int`, which
      truncates, so each channel contributes floor(sqrt(n)). */
  function FloorSqrt(n: nat): (r: nat)
    ensures r * r <= n < (r + 1) * (r + 1)
  {
    SqrtFrom(n, 0)
  }

  /** The first r' >= r whose successor squared exceeds n. */
  function SqrtFrom(n: nat, r: nat): (s: nat)
    requires r * r <= n
    ensures s * s <= n < (s + 1) * (s + 1)
    decreases n - r * r
  {
    if (r + 1) * (r + 1) > n then r
    else
      assert (r + 1) * (r + 1) > r * r;
      SqrtFrom(n, r + 1)
  }

  /** The contribution of one channel: floor(sqrt(Gx^2 + Gy^2)). */
  function ChannelEnergy(im: Raster, x: int, y: int, lo: int, hi: int, ch: int): nat
    requires im.Valid() && 0 <= ch < im.channelCount && KernelReadable(im, x, lo, hi)
  {
    var gx, gy := GradX(im, x, y, lo, hi, ch), GradY(im, x, y, lo, hi, ch);
    FloorSqrt(gx * gx + gy * gy)
  }

  /** `energyTotal` after the first n channels. */
  function EnergyTotal(im: Raster, x: int, y: int, lo: int, hi: int, n: int): (t: int)
    requires im.Valid() && 0 <= n <= im.channelCount && KernelReadable(im, x, lo, hi)
    ensures 0 <= t <= n * MAX_PIXEL_ENERGY
  {
    if n == 0 then 0
    else
      ChannelEnergyBound(im, x, y, lo, hi, n - 1);
      EnergyTotal(im, x, y, lo, hi, n - 1) + ChannelEnergy(im, x, y, lo, hi, n - 1)
  }

  /** The energy of pixel (x, y) with clamping to [lo, hi): the truncated mean of
      the channel contributions (the evident intent of line 171). */
  function PixelEnergy(im: Raster, x: int, y: int, lo: int, hi: int): (e: U32)
    requires im.Valid() && KernelReadable(im, x, lo, hi)
    ensures e <= MAX_PIXEL_ENERGY
  {
    var total := EnergyTotal(im, x, y, lo, hi, im.channelCount);
    DivBound(total, im.channelCount, MAX_PIXEL_ENERGY);
    total / im.channelCount
  }

  lemma DivBound(t: int, c: int, m: int)
    requires c > 0 && 0 <= t <= c * m
    ensures 0 <= t / c <= m
  {
    var q := t / c;
    assert q * c <= t;
    MulMonoWhen(m + 1, q, c);
  }

  /** |Gx| <= 1020 and |Gy| <= 1020 for 8-bit channels. */
  lemma GradientBound(im: Raster, x: int, y: int, lo: int, hi: int, ch: int)
    requires im.Valid() && 0 <= ch < im.channelCount && KernelReadable(im, x, lo, hi)
    ensures -MAX_GRADIENT <= GradX(im, x, y, lo, hi, ch) <= MAX_GRADIENT
    ensures -MAX_GRADIENT <= GradY(im, x, y, lo, hi, ch) <= MAX_GRADIENT
  {
  }

  lemma SquareBound(a: int, m: int)
    requires 0 <= m && -m <= a <= m
    ensures a * a <= m * m
  {
    if a >= 0 {
      MulMono(a, m, a);
      MulMono(a, m, m);
    } else {
      MulMono(-a, m, -a);
      MulMono(-a, m, m);
    }
  }

  /** A channel contributes at most floor(sqrt(2 * 1020^2)) = 1442. */
  lemma ChannelEnergyBound(im: Raster, x: int, y: int, lo: int, hi: int, ch: int)
    requires im.Valid() && 0 <= ch < im.channelCount && KernelReadable(im, x, lo, hi)
    ensures ChannelEnergy(im, x, y, lo, hi, ch) <= MAX_PIXEL_ENERGY
  {
    var gx, gy := GradX(im, x, y, lo, hi, ch), GradY(im, x, y, lo, hi, ch);
    GradientBound(im, x, y, lo, hi, ch);
    SquareBound(gx, MAX_GRADIENT);
    SquareBound(gy, MAX_GRADIENT);
    var r := FloorSqrt(gx * gx + gy * gy);
    MulMonoWhen(MAX_PIXEL_ENERGY + 1, r, r);
    MulMonoWhen(MAX_PIXEL_ENERGY + 1, r, MAX_PIXEL_ENERGY + 1);
  }

  /** floor(sqrt(r^2)) == r. */
  lemma FloorSqrtOfSquare(r: nat)
    ensures FloorSqrt(r * r) == r
  {
    var s := FloorSqrt(r * r);
    MulMonoWhen(r + 1, s, s);
    MulMonoWhen(r + 1, s, r + 1);
    MulMono(r, r + 1, r);
    MulMonoWhen(s + 1, r, s + 1);
    MulMonoWhen(s + 1, r, r);
  }

  /** The Sobel weights sum to zero: a neighbourhood whose eight clamped reads
      all hold the same value has Gx = Gy = 0 and contributes nothing. */
  lemma UniformNeighbourhoodZero(im: Raster, x: int, y: int, lo: int, hi: int, ch: int, v: int)
    requires im.Valid() && 0 <= ch < im.channelCount && KernelReadable(im, x, lo, hi)
    requires Sample(im, x - 1, y - 1, lo, hi, ch) == v && Sample(im, x, y - 1, lo, hi, ch) == v
    requires Sample(im, x + 1, y - 1, lo, hi, ch) == v && Sample(im, x - 1, y, lo, hi, ch) == v
    requires Sample(im, x + 1, y, lo, hi, ch) == v && Sample(im, x - 1, y + 1, lo, hi, ch) == v
    requires Sample(im, x, y + 1, lo, hi, ch) == v && Sample(im, x + 1, y + 1, lo, hi, ch) == v
    ensures GradX(im, x, y, lo, hi, ch) == 0 && GradY(im, x, y, lo, hi, ch) == 0
    ensures ChannelEnergy(im, x, y, lo, hi, ch) == 0
  {
    FloorSqrtOfSquare(0);
  }

  /** A uniform image (every channel of every pixel equal to v) has energy 0 at
      every pixel. */
  lemma UniformImageZeroEnergy(im: Raster, x: int, y: int, v: Byte)
    requires im.Valid()
    requires forall i :: 0 <= i < |im.data| ==> im.data[i] == v
    ensures KernelReadable(im, x, 0, im.width)
    ensures PixelEnergy(im, x, y, 0, im.width) == 0
  {
    FullWidthReadable(im, x);
    forall ch | 0 <= ch < im.channelCount
      ensures ChannelEnergy(im, x, y, 0, im.width, ch) == 0
    {
      var w := im.width;
      SampleOfUniform(im, x - 1, y - 1, 0, w, ch, v); SampleOfUniform(im, x, y - 1, 0, w, ch, v);
      SampleOfUniform(im, x + 1, y - 1, 0, w, ch, v); SampleOfUniform(im, x - 1, y, 0, w, ch, v);
      SampleOfUniform(im, x + 1, y, 0, w, ch, v); SampleOfUniform(im, x - 1, y + 1, 0, w, ch, v);
      SampleOfUniform(im, x, y + 1, 0, w, ch, v); SampleOfUniform(im, x + 1, y + 1, 0, w, ch, v);
      UniformNeighbourhoodZero(im, x, y, 0, im.width, ch, v);
    }
    EnergyTotalZero(im, x, y, 0, im.width, im.channelCount);
  }

  lemma SampleOfUniform(im: Raster, x: int, y: int, lo: int, hi: int, ch: int, v: int)
    requires im.Valid() && 0 <= ch < im.channelCount && ColumnReadable(x, im.width, lo, hi)
    requires forall i :: 0 <= i < |im.data| ==> im.data[i] == v
    ensures Sample(im, x, y, lo, hi, ch) == v
  {
    SampleIsGetPixelE(im, x, y, lo, hi, ch);
  }

  lemma {:induction false} EnergyTotalZero(im: Raster, x: int, y: int, lo: int, hi: int, n: int)
    requires im.Valid() && 0 <= n <= im.channelCount && KernelReadable(im, x, lo, hi)
    requires forall ch :: 0 <= ch < im.channelCount ==> ChannelEnergy(im, x, y, lo, hi, ch) == 0
    ensures EnergyTotal(im, x, y, lo, hi, n) == 0
  {
    if n > 0 {
      EnergyTotalZero(im, x, y, lo, hi, n - 1);
    }
  }

  /** The energies of `calculateEnergyFull`, row by row: every pixel's energy
      with the whole image as clamp range. */
  function EnergyRows(im: Raster): (rows: seq<seq<U32>>)
    requires im.Valid()
    ensures |rows| == im.height && IsGrid(rows, im.width)
  {
    seq(im.height, y requires 0 <= y < im.height =>
      seq(im.width, x requires 0 <= x < im.width =>
        FullWidthReadable(im, x);
        PixelEnergy(im, x, y, 0, im.width)))
  }

  /** The energy buffer of `calculateEnergyFull`: the energy rows laid out
      row-major. */
  function EnergyField(im: Raster): (f: seq<U32>)
    requires im.Valid()
    ensures |f| == im.width * im.height
  {
    Flatten(EnergyRows(im), im.width)
  }

  /** The field entry of pixel (x, y) is that pixel's full-width energy. */
  lemma EnergyFieldAt(im: Raster, x: int, y: int)
    requires im.Valid() && 0 <= x < im.width && 0 <= y < im.height
    ensures 0 <= PixelIdx(x, y, im.width) < im.width * im.height
    ensures KernelReadable(im, x, 0, im.width)
    ensures EnergyField(im)[PixelIdx(x, y, im.width)] == PixelEnergy(im, x, y, 0, im.width)
  {
    FlattenAt(EnergyRows(im), im.width, x, y);
    FullWidthReadable(im, x);
  }

  /** No entry of the energy field exceeds 1442. */
  lemma EnergyFieldBounded(im: Raster)
    requires im.Valid()
    ensures forall i :: 0 <= i < |EnergyField(im)| ==> EnergyField(im)[i] <= MAX_PIXEL_ENERGY
  {
    forall i | 0 <= i < |EnergyField(im)|
      ensures EnergyField(im)[i] <= MAX_PIXEL_ENERGY
    {
      PosInGrid(i, im.width, im.height);
      EnergyFieldAt(im, i % im.width, i / im.width);
    }
  }

  // ---- Line 171 as written -------------------------------------------------

  /** Line 171 as written: `int energy = energy / channelCount;` divides the
      variable being declared, whose value is indeterminate (`uninit` here),
      and never uses `energyTotal`. */
  function PixelEnergyAsWritten(uninit: int, channelCount: int): int
    requires channelCount > 0
  {
    uninit / channelCount
  }

  /** Whatever value the uninitialised variable holds, the as-written energy of
      the middle pixel is wrong for the one-row image black, black, white
      (energy 1020) or for the one-row image of three black pixels (energy 0):
      it cannot follow the gradient. */
  lemma AsWrittenIgnoresGradient(uninit: int, edge: Raster, flat: Raster)
    requires edge == Raster([0, 0, 255], 3, 1, 1) && flat == Raster([0, 0, 0], 3, 1, 1)
    ensures FullWidthReadableAt(edge, 1) && FullWidthReadableAt(flat, 1)
    ensures PixelEnergy(edge, 1, 0, 0, 3) == 1020
    ensures PixelEnergy(flat, 1, 0, 0, 3) == 0
    ensures PixelEnergyAsWritten(uninit, 1) != PixelEnergy(edge, 1, 0, 0, 3) ||
            PixelEnergyAsWritten(uninit, 1) != PixelEnergy(flat, 1, 0, 0, 3)
  {
    OneRowEnergy(edge, 0, 255);
    OneRowEnergy(flat, 0, 0);
  }

  /** The middle pixel of a one-row, one-channel image of width 3 whose ends
      hold a and b has energy 4 * |b - a|. */
  lemma OneRowEnergy(im: Raster, a: int, b: int)
    requires im.Valid() && im.width == 3 && im.height == 1 && im.channelCount == 1
    requires im.data[0] == a && im.data[2] == b && a <= b
    ensures FullWidthReadableAt(im, 1)
    ensures PixelEnergy(im, 1, 0, 0, 3) == 4 * (b - a)
  {
    FullWidthReadable(im, 1);
    SingleRowGradients(im, 1, 0, 3, 0);
    OneRowSample(im, 0);
    OneRowSample(im, 2);
    var g := 4 * (b - a);
    assert GradX(im, 1, 0, 0, 3, 0) == g;
    assert GradY(im, 1, 0, 0, 3, 0) == 0;
    FloorSqrtOfSquare(g);
    assert ChannelEnergy(im, 1, 0, 0, 3, 0) == g;
    assert EnergyTotal(im, 1, 0, 0, 3, 1) == g;
  }

  lemma OneRowSample(im: Raster, x: int)
    requires im.Valid() && im.width == 3 && im.height == 1 && im.channelCount == 1
    requires 0 <= x < 3
    ensures Sample(im, x, 0, 0, 3, 0) == im.data[x]
  {
    assert ClampX(x, 0, 3) == x && ClampY(0, 1) == 0;
    assert PixelIdxC(x, 0, 3, 1) == x;
  }

  /** In a one-row image every kernel row clamps to row 0: Gy is 0 and Gx is
      4 * (right - left). */
  lemma SingleRowGradients(im: Raster, x: int, lo: int, hi: int, ch: int)
    requires im.Valid() && im.height == 1 && 0 <= ch < im.channelCount && KernelReadable(im, x, lo, hi)
    ensures GradY(im, x, 0, lo, hi, ch) == 0
    ensures GradX(im, x, 0, lo, hi, ch) == 4 * (Sample(im, x + 1, 0, lo, hi, ch) - Sample(im, x - 1, 0, lo, hi, ch))
  {
    assert ClampY(-1, 1) == ClampY(0, 1) == ClampY(1, 1) == 0;
  }

  predicate FullWidthReadableAt(im: Raster, x: int)
  {
    im.Valid() && KernelReadable(im, x, 0, im.width)
  }
}
