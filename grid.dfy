/** Row-major indexing, the border policy and the sentinel lookups that every
    stage of the seam carver uses (parallel_seam_carving.c, lines 29-147). */
module Grid {

  const UINT_MAX: int := 0xFFFF_FFFF
  const INT_MAX: int := 0x7FFF_FFFF
  /** `UNDEFINED_UINT`: what an out-of-range energy lookup returns. */
  const UNDEFINED_UINT: int := UINT_MAX
  /** Energy and cost fields hold one value per pixel. */
  const ENERGY_CHANNEL_COUNT: int := 1
  /** The band count used by the program (`SIM_NUM_SEAM_REMOVAL`). */
  const SIM_NUM_SEAM_REMOVAL: int := 8
  /** Height of the horizontal strips of the tiled cost pass. */
  const STRIP_HEIGHT: int := 15

  /** An 8-bit colour channel. */
  type Byte = v: int | 0 <= v < 256
  /** A C `unsigned int`, 32 bits wide. */
  type U32 = v: int | 0 <= v <= UINT_MAX

  datatype Option<T> = None | Some(value: T)

  /** A decoded image: row-major pixels, channels interleaved, 8 bits each
      (the `img`, `width`, `height` and `channelCount` of the process data). */
  datatype Raster = Raster(data: seq<Byte>, width: int, height: int, channelCount: int)
  {
    predicate Valid()
    {
      width > 0 && height > 0 && channelCount > 0 &&
      |data| == width * height * channelCount
    }
  }

  /** `getPixelIdxC`: offset of the first channel of pixel (x, y). */
  function PixelIdxC(x: int, y: int, width: int, channelCount: int): int
  {
    (y * width + x) * channelCount
  }

  /** `getPixelIdx`: offset of pixel (x, y) in a one-channel field. */
  function PixelIdx(x: int, y: int, width: int): int
  {
    PixelIdxC(x, y, width, ENERGY_CHANNEL_COUNT)
  }

  /** `getPixelPos`: the coordinates of an unsigned field offset. */
  function PixelPos(idx: nat, width: int): (pos: (int, int))
    requires width > 0
    ensures 0 <= pos.0 < width && 0 <= pos.1
    ensures PixelIdx(pos.0, pos.1, width) == idx
  {
    (idx % width, idx / width)
  }

  /** `getPixelPos` inverts `getPixelIdx` on every in-row column. */
  lemma PixelPosInverse(x: int, y: int, w: int)
    requires 0 <= x < w && 0 <= y
    ensures PixelIdx(x, y, w) >= 0
    ensures PixelPos(PixelIdx(x, y, w), w) == (x, y)
  {
    var i := y * w + x;
    assert PixelIdx(x, y, w) == i;
    DivModUnique(i, w, y, x);
  }

  /** Every offset of a w*h field decodes to an in-grid pixel. */
  lemma PosInGrid(i: int, w: int, h: int)
    requires w > 0 && 0 <= i < w * h
    ensures 0 <= i % w < w && 0 <= i / w < h
    ensures PixelIdx(i % w, i / w, w) == i
  {
    var q := i / w;
    assert q * w <= i;
    MulMonoWhen(h, q, w);
  }

  lemma DivModUnique(i: int, w: int, q: int, r: int)
    requires w > 0 && 0 <= r < w && i == q * w + r
    ensures i / w == q && i % w == r
  {
    var q', r' := i / w, i % w;
    assert i == q' * w + r';
    MulMonoWhen(q + 1, q', w);
    MulMonoWhen(q' + 1, q, w);
    assert (q + 1) * w == q * w + w;
    assert (q' + 1) * w == q' * w + w;
  }

  lemma MulMono(a: int, b: int, w: int)
    requires a <= b && w >= 0
    ensures a * w <= b * w
  {
    assert b * w - a * w == (b - a) * w;
  }

  /** `MulMono` as an implication, for an ordering that holds only in some
      cases. */
  lemma MulMonoWhen(a: int, b: int, w: int)
    ensures a <= b && w >= 0 ==> a * w <= b * w
  {
    if a <= b && w >= 0 {
      MulMono(a, b, w);
    }
  }

  /** Every in-grid pixel has an offset inside a w*h field. */
  lemma IdxInGrid(x: int, y: int, w: int, h: int)
    requires 0 <= x < w && 0 <= y < h
    ensures 0 <= PixelIdx(x, y, w) < w * h
  {
    MulMono(y + 1, h, w);
    assert PixelIdx(x, y, w) == y * w + x;
    assert (y + 1) * w == y * w + w;
  }

  /** Every channel of an in-grid pixel lies inside a w*h*c buffer. */
  lemma IdxCInBuffer(x: int, y: int, w: int, h: int, c: int, ch: int)
    requires 0 <= x < w && 0 <= y < h && 0 <= ch < c
    ensures 0 <= PixelIdxC(x, y, w, c) + ch < w * h * c
  {
    IdxInGrid(x, y, w, h);
    var i := y * w + x;
    MulMono(i + 1, w * h, c);
    assert (i + 1) * c == i * c + c;
    assert PixelIdxC(x, y, w, c) == i * c;
    assert i * c >= 0;
  }

  /** The pixel offsets of one row at width w are y*w + x. */
  lemma RowOffset(x: int, y: int, w: int)
    ensures PixelIdx(x, y, w) == y * w + x
    ensures PixelIdx(x, y + 1, w) == y * w + w + x
  {
    assert (y + 1) * w == y * w + w;
  }

  /** Storing F[n] at n, the first offset past the span [lo, n), extends the
      span on which a agrees with F by one and keeps the agreement on the tail
      [hi, |a|). */
  lemma SpanStep<T>(a: seq<T>, b: seq<T>, F: seq<T>, lo: int, n: int, hi: int)
    requires 0 <= lo <= n < hi <= |a| && |a| == |F| && b == a[n := F[n]]
    requires forall i :: lo <= i < n || hi <= i < |a| ==> a[i] == F[i]
    ensures forall i :: lo <= i < n + 1 || hi <= i < |b| ==> b[i] == F[i]
  {
  }

  /** The value a one-channel w*h field holds for pixel (x, y). */
  function At<T>(f: seq<T>, w: int, h: int, x: int, y: int): T
    requires |f| == w * h && 0 <= x < w && 0 <= y < h
  {
    IdxInGrid(x, y, w, h);
    f[PixelIdx(x, y, w)]
  }

  /** Fields c and F agree on the in-image cells of row r next to column x. */
  predicate AgreeNear<T(==)>(c: seq<T>, F: seq<T>, w: int, h: int, x: int, r: int)
    requires |c| == w * h && |F| == w * h && 0 <= r < h
  {
    forall x' :: x - 1 <= x' <= x + 1 && 0 <= x' < w ==> At(c, w, h, x', r) == At(F, w, h, x', r)
  }

  /** Two fields that agree from offset r * w on agree next to every column
      of row r. */
  lemma RowAgrees<T>(c: seq<T>, F: seq<T>, w: int, h: int, x: int, r: int, lo: int)
    requires |c| == w * h && |F| == w * h && 0 <= r < h && lo == r * w
    requires forall i :: lo <= i < |F| ==> c[i] == F[i]
    ensures AgreeNear(c, F, w, h, x, r)
  {
    forall x' | x - 1 <= x' <= x + 1 && 0 <= x' < w
      ensures At(c, w, h, x', r) == At(F, w, h, x', r)
    {
      RowOffset(x', r, w);
      IdxInGrid(x', r, w, h);
    }
  }

  /** Offsets of distinct in-grid pixels differ. */
  lemma PixelIdxInjective(x: int, y: int, x': int, y': int, w: int)
    requires 0 <= x < w && 0 <= y && 0 <= x' < w && 0 <= y'
    requires PixelIdx(x, y, w) == PixelIdx(x', y', w)
    ensures x == x' && y == y'
  {
    PixelPosInverse(x, y, w);
    PixelPosInverse(x', y', w);
  }

  /** Storing F's value at the offset of (x, y) changes the cell (x, y) of the
      grid view and no other. */
  lemma StoreAt<T>(a: seq<T>, b: seq<T>, F: seq<T>, w: int, h: int, x: int, y: int)
    requires |a| == w * h && |F| == w * h && 0 <= x < w && 0 <= y < h
    requires 0 <= PixelIdx(x, y, w) < |a| && b == a[PixelIdx(x, y, w) := F[PixelIdx(x, y, w)]]
    ensures |b| == w * h && At(b, w, h, x, y) == At(F, w, h, x, y)
    ensures forall x', y' :: 0 <= x' < w && 0 <= y' < h && (x' != x || y' != y) ==>
              At(b, w, h, x', y') == At(a, w, h, x', y')
  {
    forall x', y' | 0 <= x' < w && 0 <= y' < h && (x' != x || y' != y)
      ensures At(b, w, h, x', y') == At(a, w, h, x', y')
    {
      IdxInGrid(x', y', w, h);
      if PixelIdx(x', y', w) == PixelIdx(x, y, w) {
        PixelIdxInjective(x, y, x', y', w);
      }
    }
  }

  /** Every row of a grid of rows has w entries. */
  predicate IsGrid<T>(rows: seq<seq<T>>, w: int)
  {
    forall y :: 0 <= y < |rows| ==> |rows[y]| == w
  }

  /** The row view of a row-major one-channel w*h field: row y is the slice
      [y*w, y*w + w). */
  function RowsOf<T>(f: seq<T>, w: int, h: int): (rows: seq<seq<T>>)
    requires w > 0 && h >= 0 && |f| == w * h
    ensures |rows| == h && IsGrid(rows, w)
  {
    seq(h, y requires 0 <= y < h => Row(f, w, h, y))
  }

  /** Row y of a row-major w*h field. */
  function Row<T>(f: seq<T>, w: int, h: int, y: int): (r: seq<T>)
    requires w > 0 && |f| == w * h && 0 <= y < h
    ensures |r| == w
  {
    RowSlice(y, w, h);
    f[y * w .. y * w + w]
  }

  lemma RowSlice(y: int, w: int, h: int)
    requires w > 0 && 0 <= y < h
    ensures 0 <= y * w && y * w + w <= w * h && (y + 1) * w == y * w + w
  {
    MulMono(y + 1, h, w);
    assert (y + 1) * w == y * w + w;
  }

  /** The row-major field whose rows are `rows`: their concatenation. */
  function Flatten<T>(rows: seq<seq<T>>, w: int): (f: seq<T>)
    requires IsGrid(rows, w) && w >= 0
    ensures |f| == |rows| * w
    decreases |rows|
  {
    if |rows| == 0 then []
    else
      assert (|rows| - 1) * w + w == |rows| * w;
      rows[0] + Flatten(rows[1..], w)
  }

  /** Offset `getPixelIdx(x, y)` of the concatenated rows holds rows[y][x]. */
  lemma {:induction false} FlattenAt<T>(rows: seq<seq<T>>, w: int, x: int, y: int)
    requires IsGrid(rows, w) && 0 <= x < w && 0 <= y < |rows|
    ensures 0 <= PixelIdx(x, y, w) < |rows| * w
    ensures Flatten(rows, w)[PixelIdx(x, y, w)] == rows[y][x]
    decreases y
  {
    IdxInGrid(x, y, w, |rows|);
    if y > 0 {
      FlattenAt(rows[1..], w, x, y - 1);
      RowOffset(x, y - 1, w);
    }
  }

  /** Entry (x, y) of the row view is the field value at offset `getPixelIdx(x, y)`. */
  lemma RowsOfAt<T>(f: seq<T>, w: int, h: int, x: int, y: int)
    requires w > 0 && |f| == w * h && 0 <= x < w && 0 <= y < h
    ensures 0 <= PixelIdx(x, y, w) < |f|
    ensures RowsOf(f, w, h)[y][x] == f[PixelIdx(x, y, w)]
  {
    RowSlice(y, w, h);
    IdxInGrid(x, y, w, h);
    assert PixelIdx(x, y, w) == y * w + x;
    assert RowsOf(f, w, h)[y] == Row(f, w, h, y);
  }

  /** `getPixel`: the channel offset of (x, y), or NULL (None) outside the image. */
  function GetPixel(x: int, y: int, width: int, height: int, channelCount: int): Option<int>
  {
    if x >= width || y >= height || x < 0 || y < 0 then None
    else Some(PixelIdxC(x, y, width, channelCount))
  }

  /** The clamp of `getPixelE` on x: below limitLowX goes to limitLowX, then
      at or above limitHighX goes to limitHighX - 1. */
  function ClampX(x: int, limitLowX: int, limitHighX: int): int
  {
    var x1 := if x < limitLowX then limitLowX else x;
    if x1 >= limitHighX then limitHighX - 1 else x1
  }

  /** The clamp of `getPixelE` on y, to [0, height). */
  function ClampY(y: int, height: int): int
  {
    var y1 := if y < 0 then 0 else y;
    if y1 >= height then height - 1 else y1
  }

  /** The clamps land inside a non-empty range and leave a coordinate already
      inside it alone. */
  lemma ClampInRange(x: int, y: int, limitLowX: int, limitHighX: int, height: int)
    ensures limitLowX < limitHighX ==> limitLowX <= ClampX(x, limitLowX, limitHighX) < limitHighX
    ensures limitLowX <= x < limitHighX ==> ClampX(x, limitLowX, limitHighX) == x
    ensures height > 0 ==> 0 <= ClampY(y, height) < height
    ensures 0 <= y < height ==> ClampY(y, height) == y
  {
  }

  /** `getPixelE`: `getPixel` at the clamped coordinates. */
  function GetPixelE(x: int, y: int, width: int, height: int, channelCount: int,
                     limitLowX: int, limitHighX: int): Option<int>
  {
    GetPixel(ClampX(x, limitLowX, limitHighX), ClampY(y, height), width, height, channelCount)
  }

  /** With limits inside the image, `getPixelE` never returns NULL: it gives the
      channel offset of a pixel of [limitLowX, limitHighX) x [0, height), and
      of (x, y) itself when (x, y) is in that rectangle. */
  lemma GetPixelENeverNull(x: int, y: int, width: int, height: int, channelCount: int,
                           limitLowX: int, limitHighX: int)
    requires 0 <= limitLowX < limitHighX <= width && height > 0
    ensures var r := GetPixelE(x, y, width, height, channelCount, limitLowX, limitHighX);
      r.Some? &&
      limitLowX <= ClampX(x, limitLowX, limitHighX) < limitHighX &&
      0 <= ClampY(y, height) < height &&
      r.value == PixelIdxC(ClampX(x, limitLowX, limitHighX), ClampY(y, height), width, channelCount) &&
      (limitLowX <= x < limitHighX && 0 <= y < height ==> r.value == PixelIdxC(x, y, width, channelCount))
  {
  }

  /** `getEnergyPixel`: the stored value inside [limitLowX, limitHighX) x [0, height),
      `UNDEFINED_UINT` outside. */
  function EnergyPixel(data: seq<U32>, x: int, y: int, width: int, height: int,
                       limitLowX: int, limitHighX: int): U32
    requires 0 <= limitLowX && limitHighX <= width && |data| == width * height
  {
    if x < limitLowX || y < 0 || x >= limitHighX || y >= height then UNDEFINED_UINT
    else
      IdxInGrid(x, y, width, height);
      data[PixelIdx(x, y, width)]
  }

  /** `getEnergyPixelEStripe`: like `getEnergyPixel`, with `UNDEFINED_UINT`
      turned into `INT_MAX`. */
  function EnergyPixelEStripe(data: seq<U32>, x: int, y: int, width: int, height: int,
                              limitLowX: int, limitHighX: int): U32
    requires 0 <= limitLowX && limitHighX <= width && |data| == width * height
  {
    var energy := EnergyPixel(data, x, y, width, height, limitLowX, limitHighX);
    if energy == UNDEFINED_UINT then INT_MAX else energy
  }

  /** `getEnergyPixelE`: the sentinel lookup over the whole width. */
  function EnergyPixelE(data: seq<U32>, x: int, y: int, width: int, height: int): U32
    requires |data| == width * height && width >= 0
  {
    EnergyPixelEStripe(data, x, y, width, height, 0, width)
  }

  /** Whether (x, y) lies in [lo, hi) x [0, height). */
  predicate InRect(x: int, y: int, lo: int, hi: int, height: int)
  {
    lo <= x < hi && 0 <= y < height
  }

  /** What the sentinel lookup makes of an in-range stored value: `UINT_MAX`
      reads as `INT_MAX`, every other value as itself. */
  function Sentinel(v: U32): U32
  {
    if v == UNDEFINED_UINT then INT_MAX else v
  }

  /** The band-scoped lookup returns the stored value inside its rectangle
      (`INT_MAX` only when that value is `UINT_MAX`) and `INT_MAX` outside. */
  lemma StripeLookup(data: seq<U32>, x: int, y: int, width: int, height: int,
                     limitLowX: int, limitHighX: int)
    requires 0 <= limitLowX && limitHighX <= width && |data| == width * height
    ensures var r := EnergyPixelEStripe(data, x, y, width, height, limitLowX, limitHighX);
      (InRect(x, y, limitLowX, limitHighX, height) ==>
         0 <= PixelIdx(x, y, width) < |data| && r == Sentinel(data[PixelIdx(x, y, width)])) &&
      (!InRect(x, y, limitLowX, limitHighX, height) ==> r == INT_MAX)
  {
    if InRect(x, y, limitLowX, limitHighX, height) {
      IdxInGrid(x, y, width, height);
    }
  }

  /** `isSeam`: whether column x of row y is the `seanIdx`-th seam of the
      current pass. The seam table is always allocated in the program, so its
      NULL test is not modelled. */
  function IsSeam(seamPath: seq<seq<int>>, height: int, k: int, x: int, y: int, seanIdx: int): bool
    requires 0 <= y && 0 <= seanIdx && |seamPath| == k
    requires forall b :: 0 <= b < k ==> |seamPath[b]| == height
  {
    if y >= height || seanIdx >= k then false
    else seamPath[seanIdx][y] == x
  }
}
