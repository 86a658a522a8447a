/** The energy refresh of `updateEnergyOnSeam` (parallel_seam_carving.c,
    lines 245-295) after a pass has removed one seam per band. It walks the
    old columns of every row. Each column x stores at new column
    x - insertOffsetX of the same row, where insertOffsetX is the band index
    plus one when x lies right of the band's seam. The stored value is
    recomputed when the band's seam passes within one column of x in the row
    above, the row itself or the row below, and is copied from the old
    energy field otherwise.

    The image here is the carved image of width w; the old field has width
    w + k = k * sw, with sw the band width of the pass. */
module Refresh {
  import opened Grid
  import opened Sobel
  import opened Removal

  function Abs(v: int): nat
  {
    if v < 0 then -v else v
  }

  /** Every seam b of the pass lies, in every row, inside its band
      [b * sw, b * sw + sw): the tracer keeps it there
      (`Trace.SeamInBand`). */
  predicate InBands(seamPath: seq<seq<int>>, sw: int, h: int)
  {
    forall b :: 0 <= b < |seamPath| ==>
      |seamPath[b]| == h &&
      forall y :: 0 <= y < h ==> b * sw <= seamPath[b][y] < b * sw + sw
  }

  /** The buffers the refresh is handed: the carved image of width w, the old
      energy field of width w + k = k * sw, and k in-band seams. */
  predicate Shape(E: seq<U32>, im: Raster, seamPath: seq<seq<int>>, sw: int)
  {
    im.Valid() && |seamPath| > 0 && sw > 0 &&
    im.width + |seamPath| == |seamPath| * sw &&
    |E| == |seamPath| * sw * im.height &&
    InBands(seamPath, sw, im.height)
  }

  /** A width divisible by k is k bands of width w / k. */
  lemma StripWidthExact(w: int, k: int)
    requires k > 0 && w % k == 0
    ensures k * (w / k) == w
  {
  }

  /** Column x of the old width lies in band x / sw, one of the k bands. */
  lemma BandOf(x: int, sw: int, k: int)
    requires 0 <= x < k * sw && sw > 0
    ensures 0 <= x / sw < k && (x / sw) * sw <= x < (x / sw) * sw + sw
  {
    var b := x / sw;
    assert b * sw + x % sw == x;
    if b >= k {
      MulMono(k, b, sw);
    }
  }

  /** In an ordered row of seams, p is the number left of x when the first p
      are left of x and the rest are not. */
  lemma CountAt(s: seq<int>, w: int, x: int, p: int)
    requires Ordered(s, w) && 0 <= p <= |s|
    requires forall b :: 0 <= b < p ==> s[b] < x
    requires forall b :: p <= b < |s| ==> x <= s[b]
    ensures CountLess(s, x) == p
  {
    CountLessSplits(s, w, x);
    var q := CountLess(s, x);
    assert q < |s| ==> x <= s[q];
    assert p < |s| ==> x <= s[p];
  }

  /** `insertOffsetX` (line 268): the band index, plus one right of the
      band's seam. */
  function InsertOffset(seamPath: seq<seq<int>>, sw: int, h: int, x: int, y: int): int
    requires sw > 0 && 0 <= x < |seamPath| * sw && 0 <= y < h && InBands(seamPath, sw, h)
  {
    BandOf(x, sw, |seamPath|);
    var stripIdx := x / sw;
    if x > seamPath[stripIdx][y] then stripIdx + 1 else stripIdx
  }

  /** `shouldRecalculate` (lines 273-276), with `INT_MAX` standing for the
      missing row above the top row and below the bottom row. */
  predicate ShouldRecalculate(seamPath: seq<seq<int>>, sw: int, h: int, x: int, y: int)
    requires sw > 0 && 0 <= x < |seamPath| * sw && 0 <= y < h && InBands(seamPath, sw, h)
  {
    BandOf(x, sw, |seamPath|);
    var s := seamPath[x / sw];
    var seamX0 := if y > 0 then s[y - 1] else INT_MAX;
    var seamX1 := s[y];
    var seamX2 := if y < h - 1 then s[y + 1] else INT_MAX;
    Abs(x - seamX0) <= 1 || Abs(x - seamX1) <= 1 || Abs(x - seamX2) <= 1
  }

  /** `shouldRecalculate` from the three seam columns lines 264-266 read. */
  lemma RecalculateFrom(seamPath: seq<seq<int>>, sw: int, h: int, x: int, y: int, seamX0: int, seamX1: int, seamX2: int)
    requires sw > 0 && 0 <= x < |seamPath| * sw && 0 <= y < h && InBands(seamPath, sw, h)
    requires 0 <= x / sw < |seamPath|
    requires seamX0 == (if y > 0 then seamPath[x / sw][y - 1] else INT_MAX)
    requires seamX1 == seamPath[x / sw][y]
    requires seamX2 == (if y < h - 1 then seamPath[x / sw][y + 1] else INT_MAX)
    ensures ShouldRecalculate(seamPath, sw, h, x, y) == (Abs(x - seamX0) <= 1 || Abs(x - seamX1) <= 1 || Abs(x - seamX2) <= 1)
  {
  }

  /** The in-band seams of a row are ordered, so they are removable. */
  lemma BandsOrdered(seamPath: seq<seq<int>>, sw: int, h: int)
    requires sw > 0 && InBands(seamPath, sw, h)
    ensures Removable(seamPath, |seamPath| * sw, h)
  {
    var k := |seamPath|;
    forall y | 0 <= y < h
      ensures Ordered(RowSeams(seamPath, y), k * sw)
    {
      var s := RowSeams(seamPath, y);
      forall b | 0 <= b < k
        ensures 0 <= s[b] < k * sw
      {
        MulMono(b + 1, k, sw);
        MulMono(0, b, sw);
      }
      forall b, b' | 0 <= b < b' < k
        ensures s[b] < s[b']
      {
        MulMono(b + 1, b', sw);
      }
    }
  }

  /** Relative to its band's seam, column x lies right of the seams of the
      bands before its own and left of those of the bands after it. */
  lemma OtherBandsAround(seamPath: seq<seq<int>>, sw: int, h: int, x: int, y: int)
    requires sw > 0 && 0 <= x < |seamPath| * sw && 0 <= y < h && InBands(seamPath, sw, h)
    ensures 0 <= x / sw < |seamPath|
    ensures forall b :: 0 <= b < x / sw ==> seamPath[b][y] < x
    ensures forall b :: x / sw < b < |seamPath| ==> x < seamPath[b][y]
  {
    var k := |seamPath|;
    BandOf(x, sw, k);
    var b := x / sw;
    assert b * sw <= x < b * sw + sw;
    forall b' | 0 <= b' < b
      ensures seamPath[b'][y] < x
    {
      MulMono(b' + 1, b, sw);
      assert (b' + 1) * sw == b' * sw + sw;
    }
    forall b' | b < b' < k
      ensures x < seamPath[b'][y]
    {
      MulMono(b + 1, b', sw);
      assert (b + 1) * sw == b * sw + sw;
    }
  }

  /** The offset of line 268 counts exactly the seams left of x in its row:
      those of the bands before x's band, and x's own band's seam when x lies
      right of it. */
  lemma OffsetIsSeamsPassed(seamPath: seq<seq<int>>, sw: int, h: int, x: int, y: int)
    requires sw > 0 && 0 <= x < |seamPath| * sw && 0 <= y < h && InBands(seamPath, sw, h)
    ensures InsertOffset(seamPath, sw, h, x, y) == CountLess(RowSeams(seamPath, y), x)
  {
    var k := |seamPath|;
    var s := RowSeams(seamPath, y);
    OtherBandsAround(seamPath, sw, h, x, y);
    var b := x / sw;
    BandsOrdered(seamPath, sw, h);
    var p := if x > s[b] then b + 1 else b;
    CountAt(s, k * sw, x, p);
  }

  /** The new column `x - insertOffsetX` that old column x of row y is
      stored at: x minus the seams left of it, between 0 and the new width
      (the new width itself only for a seam pixel). */
  function NewColumn(seamPath: seq<seq<int>>, sw: int, h: int, x: int, y: int): (nx: int)
    requires sw > 0 && 0 <= x < |seamPath| * sw && 0 <= y < h && InBands(seamPath, sw, h)
    ensures nx == x - CountLess(RowSeams(seamPath, y), x)
    ensures 0 <= nx <= |seamPath| * sw - |seamPath|
    ensures x !in RowSeams(seamPath, y) ==> nx < |seamPath| * sw - |seamPath|
  {
    OffsetIsSeamsPassed(seamPath, sw, h, x, y);
    PassedBounds(seamPath, sw, h, x, y);
    x - InsertOffset(seamPath, sw, h, x, y)
  }

  lemma PassedBounds(seamPath: seq<seq<int>>, sw: int, h: int, x: int, y: int)
    requires sw > 0 && 0 <= x < |seamPath| * sw && 0 <= y < h && InBands(seamPath, sw, h)
    ensures var nx := x - CountLess(RowSeams(seamPath, y), x);
            0 <= nx <= |seamPath| * sw - |seamPath| &&
            (x !in RowSeams(seamPath, y) ==> nx < |seamPath| * sw - |seamPath|)
  {
    var s := RowSeams(seamPath, y);
    var oldW := |seamPath| * sw;
    BandsOrdered(seamPath, sw, h);
    KeptLength(s, oldW, x);
    KeptLength(s, oldW, oldW);
    KeptExtends(s, x, oldW);
    RowWidth(s, oldW);
    if x !in s {
      KeptAt(s, oldW, x);
    }
  }

  /** A column of its band is the band's seam exactly when it is one of the
      row's seams. */
  lemma SeamOfBand(seamPath: seq<seq<int>>, sw: int, h: int, x: int, y: int)
    requires sw > 0 && 0 <= x < |seamPath| * sw && 0 <= y < h && InBands(seamPath, sw, h)
    ensures 0 <= x / sw < |seamPath|
    ensures x in RowSeams(seamPath, y) <==> x == seamPath[x / sw][y]
  {
    OtherBandsAround(seamPath, sw, h, x, y);
  }

  /** The value iteration (x, y) of `updateEnergyOnSeam` stores (lines
      279-288): the Sobel energy at the decoded offset `getPixelPos(idx)` under
      the old band limits [lowX, highX), or the old energy of (x, y). None
      marks a recompute whose kernel reads through a NULL pixel. */
  function Written(E: seq<U32>, im: Raster, seamPath: seq<seq<int>>, sw: int, x: int, y: int): (v: Option<U32>)
    requires Shape(E, im, seamPath, sw) && 0 <= x < |seamPath| * sw && 0 <= y < im.height
    ensures !ShouldRecalculate(seamPath, sw, im.height, x, y) ==> v.Some?
  {
    BandOf(x, sw, |seamPath|);
    var lowX := (x / sw) * sw;
    var highX := lowX + sw;
    var nx := NewColumn(seamPath, sw, im.height, x, y);
    MulMono(0, y, im.width);
    RowOffset(nx, y, im.width);
    var idx := PixelIdx(nx, y, im.width);
    if ShouldRecalculate(seamPath, sw, im.height, x, y) then
      var pos := PixelPos(idx, im.width);
      if KernelReadable(im, pos.0, lowX, highX) then Some(PixelEnergy(im, pos.0, pos.1, lowX, highX))
      else None
    else
      IdxInGrid(x, y, |seamPath| * sw, im.height);
      Some(E[PixelIdx(x, y, |seamPath| * sw)])
  }

  /** The two cases of `Written`, with the band limits and the destination
      offset computed as lines 258-270 compute them. */
  lemma WrittenCases(E: seq<U32>, im: Raster, seamPath: seq<seq<int>>, sw: int, x: int, y: int,
                     lowX: int, highX: int, idx: int)
    requires Shape(E, im, seamPath, sw) && 0 <= x < |seamPath| * sw && 0 <= y < im.height
    requires lowX == (x / sw) * sw && highX == lowX + sw
    requires idx == PixelIdx(NewColumn(seamPath, sw, im.height, x, y), y, im.width)
    ensures 0 <= idx
    ensures ShouldRecalculate(seamPath, sw, im.height, x, y) ==>
              var pos := PixelPos(idx, im.width);
              Written(E, im, seamPath, sw, x, y) ==
                (if KernelReadable(im, pos.0, lowX, highX) then Some(PixelEnergy(im, pos.0, pos.1, lowX, highX)) else None)
    ensures !ShouldRecalculate(seamPath, sw, im.height, x, y) ==>
              0 <= PixelIdx(x, y, |seamPath| * sw) < |E| && Written(E, im, seamPath, sw, x, y) == Some(E[PixelIdx(x, y, |seamPath| * sw)])
  {
    MulMono(0, y, im.width);
    RowOffset(NewColumn(seamPath, sw, im.height, x, y), y, im.width);
    IdxInGrid(x, y, |seamPath| * sw, im.height);
  }

  /** Iteration (x, y) neither reads through NULL nor stores past the buffer. */
  predicate IterSafe(E: seq<U32>, im: Raster, seamPath: seq<seq<int>>, sw: int, x: int, y: int)
    requires Shape(E, im, seamPath, sw) && 0 <= x < |seamPath| * sw && 0 <= y < im.height
  {
    PixelIdx(NewColumn(seamPath, sw, im.height, x, y), y, im.width) < im.width * im.height &&
    Written(E, im, seamPath, sw, x, y).Some?
  }

  /** The first n iterations of row y do not fault. */
  predicate RowSafe(E: seq<U32>, im: Raster, seamPath: seq<seq<int>>, sw: int, y: int, n: int)
    requires Shape(E, im, seamPath, sw) && 0 <= y < im.height && n <= |seamPath| * sw
  {
    forall x :: 0 <= x < n ==> IterSafe(E, im, seamPath, sw, x, y)
  }

  /** One more safe iteration extends a safe prefix of the row. */
  lemma RowSafeStep(E: seq<U32>, im: Raster, seamPath: seq<seq<int>>, sw: int, y: int, n: int)
    requires Shape(E, im, seamPath, sw) && 0 <= y < im.height && 0 <= n < |seamPath| * sw
    requires RowSafe(E, im, seamPath, sw, y, n) && IterSafe(E, im, seamPath, sw, n, y)
    ensures RowSafe(E, im, seamPath, sw, y, n + 1)
  {
  }

  /** A faulting iteration leaves the row unsafe. */
  lemma RowFault(E: seq<U32>, im: Raster, seamPath: seq<seq<int>>, sw: int, y: int, x: int)
    requires Shape(E, im, seamPath, sw) && 0 <= y < im.height && 0 <= x < |seamPath| * sw
    requires !IterSafe(E, im, seamPath, sw, x, y)
    ensures !RowSafe(E, im, seamPath, sw, y, |seamPath| * sw)
  {
  }

  /** No iteration of the refresh faults. */
  predicate RefreshSafe(E: seq<U32>, im: Raster, seamPath: seq<seq<int>>, sw: int)
    requires Shape(E, im, seamPath, sw)
  {
    forall y, x :: 0 <= y < im.height && 0 <= x < |seamPath| * sw ==> IterSafe(E, im, seamPath, sw, x, y)
  }

  /** An unsafe row makes the refresh unsafe. */
  lemma RowFaultUnsafe(E: seq<U32>, im: Raster, seamPath: seq<seq<int>>, sw: int, y: int)
    requires Shape(E, im, seamPath, sw) && 0 <= y < im.height
    requires !RowSafe(E, im, seamPath, sw, y, |seamPath| * sw)
    ensures !RefreshSafe(E, im, seamPath, sw)
  {
  }

  /** Safe rows make the refresh safe. */
  lemma RowsSafe(E: seq<U32>, im: Raster, seamPath: seq<seq<int>>, sw: int)
    requires Shape(E, im, seamPath, sw)
    requires forall y :: 0 <= y < im.height ==> RowSafe(E, im, seamPath, sw, y, |seamPath| * sw)
    ensures RefreshSafe(E, im, seamPath, sw)
  {
    forall y, x | 0 <= y < im.height && 0 <= x < |seamPath| * sw
      ensures IterSafe(E, im, seamPath, sw, x, y)
    {
      assert RowSafe(E, im, seamPath, sw, y, |seamPath| * sw);
    }
  }

  /** Row y of the refreshed field: new column nx holds what its kept old
      column stored, the last store to it. */
  function RefreshedRow(E: seq<U32>, im: Raster, seamPath: seq<seq<int>>, sw: int, y: int): (r: seq<Option<U32>>)
    requires Shape(E, im, seamPath, sw) && 0 <= y < im.height
    ensures |r| == im.width
  {
    var s := RowSeams(seamPath, y);
    var oldW := |seamPath| * sw;
    BandsOrdered(seamPath, sw, im.height);
    RowWidth(s, oldW);
    KeptColumns(s, oldW);
    seq(im.width, nx requires 0 <= nx < im.width => Written(E, im, seamPath, sw, Kept(s, oldW)[nx], y))
  }

  /** The field `updateEnergyOnSeam` leaves behind when no iteration faults. */
  function Refreshed(E: seq<U32>, im: Raster, seamPath: seq<seq<int>>, sw: int): (r: seq<Option<U32>>)
    requires Shape(E, im, seamPath, sw)
    ensures |r| == im.width * im.height
  {
    Flatten(seq(im.height, y requires 0 <= y < im.height => RefreshedRow(E, im, seamPath, sw, y)), im.width)
  }

  /** The energy of kept pixel (x, y) lands on the cell of its new column:
      the column the removal moved the pixel to (`Removal.CarvedAt`). */
  lemma RefreshedAt(E: seq<U32>, im: Raster, seamPath: seq<seq<int>>, sw: int, x: int, y: int)
    requires Shape(E, im, seamPath, sw) && 0 <= x < |seamPath| * sw && 0 <= y < im.height
    requires x !in RowSeams(seamPath, y)
    ensures NewColumn(seamPath, sw, im.height, x, y) < im.width
    ensures 0 <= PixelIdx(NewColumn(seamPath, sw, im.height, x, y), y, im.width) < im.width * im.height
    ensures Refreshed(E, im, seamPath, sw)[PixelIdx(NewColumn(seamPath, sw, im.height, x, y), y, im.width)]
            == Written(E, im, seamPath, sw, x, y)
  {
    var s := RowSeams(seamPath, y);
    var oldW := |seamPath| * sw;
    BandsOrdered(seamPath, sw, im.height);
    KeptAt(s, oldW, x);
    RowWidth(s, oldW);
    var nx := x - CountLess(s, x);
    assert NewColumn(seamPath, sw, im.height, x, y) == nx;
    var row := RefreshedRow(E, im, seamPath, sw, y);
    assert row[nx] == Written(E, im, seamPath, sw, x, y);
    var rows := seq(im.height, y requires 0 <= y < im.height => RefreshedRow(E, im, seamPath, sw, y));
    var R := Refreshed(E, im, seamPath, sw);
    assert R == Flatten(rows, im.width);
    FlattenAt(rows, im.width, nx, y);
    assert rows[y] == row;
    assert R[PixelIdx(nx, y, im.width)] == row[nx];
  }

  /** One store of row y keeps the refreshed prefix of the row: a kept
      column's store extends it by the column's own cell, and a seam column's
      store lands on the first cell not yet final. */
  lemma RowStoreStep(E: seq<U32>, im: Raster, seamPath: seq<seq<int>>, sw: int, x: int, y: int,
                     start: int, pos: int, pos': int, a: seq<U32>, b: seq<U32>)
    requires Shape(E, im, seamPath, sw) && 0 <= x < |seamPath| * sw && 0 <= y < im.height
    requires IterSafe(E, im, seamPath, sw, x, y) && |a| == im.width * im.height
    requires start == y * im.width && start + im.width <= im.width * im.height
    requires pos == start + x - CountLess(RowSeams(seamPath, y), x) && pos <= start + im.width
    requires pos' == start + (x + 1) - CountLess(RowSeams(seamPath, y), x + 1)
    requires forall i :: 0 <= i < pos ==> Refreshed(E, im, seamPath, sw)[i] == Some(a[i])
    requires 0 <= PixelIdx(NewColumn(seamPath, sw, im.height, x, y), y, im.width) < |a|
    requires b == a[PixelIdx(NewColumn(seamPath, sw, im.height, x, y), y, im.width) := Written(E, im, seamPath, sw, x, y).value]
    ensures pos <= pos' <= start + im.width
    ensures forall i :: 0 <= i < pos' ==> Refreshed(E, im, seamPath, sw)[i] == Some(b[i])
  {
    var s := RowSeams(seamPath, y);
    var oldW := |seamPath| * sw;
    BandsOrdered(seamPath, sw, im.height);
    CountStep(s, oldW, x);
    KeptPrefixBound(s, oldW, x + 1);
    RowOffset(NewColumn(seamPath, sw, im.height, x, y), y, im.width);
    if x !in s {
      RefreshedAt(E, im, seamPath, sw, x, y);
    }
  }

  /** A store of the refresh as written is a Sobel energy or an old energy,
      so it is bounded when the old field is. */
  lemma WrittenBounded(E: seq<U32>, im: Raster, seamPath: seq<seq<int>>, sw: int, x: int, y: int)
    requires Shape(E, im, seamPath, sw) && 0 <= x < |seamPath| * sw && 0 <= y < im.height
    requires forall i :: 0 <= i < |E| ==> E[i] <= MAX_PIXEL_ENERGY
    ensures Written(E, im, seamPath, sw, x, y).Some? ==> Written(E, im, seamPath, sw, x, y).value <= MAX_PIXEL_ENERGY
  {
    BandOf(x, sw, |seamPath|);
    WrittenCases(E, im, seamPath, sw, x, y, (x / sw) * sw, (x / sw) * sw + sw,
                 PixelIdx(NewColumn(seamPath, sw, im.height, x, y), y, im.width));
  }

  /** When no iteration faults, every cell of the refreshed field holds a
      value: the store of the kept pixel that moved there. */
  lemma RefreshedCellSafe(E: seq<U32>, im: Raster, seamPath: seq<seq<int>>, sw: int, i: int)
    requires Shape(E, im, seamPath, sw) && 0 <= i < im.width * im.height
    requires RefreshSafe(E, im, seamPath, sw)
    requires forall j :: 0 <= j < |E| ==> E[j] <= MAX_PIXEL_ENERGY
    ensures Refreshed(E, im, seamPath, sw)[i].Some?
    ensures Refreshed(E, im, seamPath, sw)[i].value <= MAX_PIXEL_ENERGY
  {
    var w, h := im.width, im.height;
    PosInGrid(i, w, h);
    var nx, y := i % w, i / w;
    var s := RowSeams(seamPath, y);
    var oldW := |seamPath| * sw;
    BandsOrdered(seamPath, sw, h);
    RowWidth(s, oldW);
    KeptInverse(s, oldW, nx);
    var x := Kept(s, oldW)[nx];
    RefreshedAt(E, im, seamPath, sw, x, y);
    assert IterSafe(E, im, seamPath, sw, x, y);
    WrittenBounded(E, im, seamPath, sw, x, y);
  }

  /** The energies a fault-free refresh leaves in the buffer: the refreshed
      field without its fault marks, bounded like a field of Sobel energies. */
  function RefreshedValues(E: seq<U32>, im: Raster, seamPath: seq<seq<int>>, sw: int): (r: seq<U32>)
    requires Shape(E, im, seamPath, sw) && RefreshSafe(E, im, seamPath, sw)
    requires forall i :: 0 <= i < |E| ==> E[i] <= MAX_PIXEL_ENERGY
    ensures |r| == im.width * im.height
    ensures forall i :: 0 <= i < |r| ==> Refreshed(E, im, seamPath, sw)[i] == Some(r[i])
    ensures forall i :: 0 <= i < |r| ==> r[i] <= MAX_PIXEL_ENERGY
  {
    var R := Refreshed(E, im, seamPath, sw);
    forall i | 0 <= i < |R|
      ensures R[i].Some? && R[i].value <= MAX_PIXEL_ENERGY
    {
      RefreshedCellSafe(E, im, seamPath, sw, i);
    }
    seq(|R|, i requires 0 <= i < |R| => R[i].value)
  }

  // ---- The corrected refresh -------------------------------------------------------

  /** The new image splits into k bands of sw - 1 columns, the layout of the
      next pass (width w / k): band b is [b * (sw - 1), b * (sw - 1) + sw - 1). */
  lemma NewBands(w: int, k: int, sw: int, b: int)
    requires w > 0 && k > 0 && w + k == k * sw && 0 <= b < k
    ensures sw - 1 == w / k
    ensures 0 <= b * (sw - 1) < b * (sw - 1) + (sw - 1) <= w
  {
    var d := sw - 1;
    assert w == d * k;
    assert d > 0;
    DivModUnique(w, k, d, 0);
    MulMono(b + 1, k, d);
    MulMono(0, b, d);
    assert (b + 1) * d == b * d + d;
  }

  /** The store of the corrected refresh for a kept pixel (x, y): the Sobel
      energy at its new column under its band's new limits, or the old energy
      of the pixel. */
  function WrittenFixed(E: seq<U32>, im: Raster, seamPath: seq<seq<int>>, sw: int, x: int, y: int): U32
    requires Shape(E, im, seamPath, sw) && 0 <= x < |seamPath| * sw && 0 <= y < im.height
  {
    BandOf(x, sw, |seamPath|);
    var b := x / sw;
    NewBands(im.width, |seamPath|, sw, b);
    var lowX := b * (sw - 1);
    var highX := lowX + (sw - 1);
    var nx := NewColumn(seamPath, sw, im.height, x, y);
    IdxInGrid(x, y, |seamPath| * sw, im.height);
    if ShouldRecalculate(seamPath, sw, im.height, x, y) then
      FixedReadable(im, nx, lowX, highX);
      PixelEnergy(im, nx, y, lowX, highX)
    else
      E[PixelIdx(x, y, |seamPath| * sw)]
  }

  /** One store of the corrected refresh on row y, for kept column x,
      extends the refreshed prefix of the row by the column's own cell. */
  lemma RowStoreStepFixed(E: seq<U32>, im: Raster, seamPath: seq<seq<int>>, sw: int, x: int, y: int,
                          start: int, pos: int, a: seq<U32>, b: seq<U32>)
    requires Shape(E, im, seamPath, sw) && 0 <= x < |seamPath| * sw && 0 <= y < im.height
    requires x !in RowSeams(seamPath, y) && |a| == im.width * im.height
    requires start == y * im.width && start + im.width <= im.width * im.height
    requires pos == start + x - CountLess(RowSeams(seamPath, y), x) && pos < start + im.width
    requires forall i :: 0 <= i < pos ==> RefreshedFixed(E, im, seamPath, sw)[i] == a[i]
    requires NewColumn(seamPath, sw, im.height, x, y) < im.width
    requires 0 <= PixelIdx(NewColumn(seamPath, sw, im.height, x, y), y, im.width) < |a|
    requires b == a[PixelIdx(NewColumn(seamPath, sw, im.height, x, y), y, im.width) := WrittenFixed(E, im, seamPath, sw, x, y)]
    ensures forall i :: 0 <= i < pos + 1 ==> RefreshedFixed(E, im, seamPath, sw)[i] == b[i]
  {
    RowOffset(NewColumn(seamPath, sw, im.height, x, y), y, im.width);
    RefreshedFixedAt(E, im, seamPath, sw, x, y);
  }

  /** The two cases of `WrittenFixed`, with the new band limits and the new
      column computed as the corrected refresh computes them. */
  lemma WrittenFixedCases(E: seq<U32>, im: Raster, seamPath: seq<seq<int>>, sw: int, x: int, y: int,
                          lowX: int, highX: int, nx: int)
    requires Shape(E, im, seamPath, sw) && 0 <= x < |seamPath| * sw && 0 <= y < im.height
    requires lowX == (x / sw) * (sw - 1) && highX == lowX + (sw - 1)
    requires nx == NewColumn(seamPath, sw, im.height, x, y)
    ensures 0 <= lowX < highX <= im.width && KernelReadable(im, nx, lowX, highX)
    ensures ShouldRecalculate(seamPath, sw, im.height, x, y) ==>
              WrittenFixed(E, im, seamPath, sw, x, y) == PixelEnergy(im, nx, y, lowX, highX)
    ensures !ShouldRecalculate(seamPath, sw, im.height, x, y) ==>
              0 <= PixelIdx(x, y, |seamPath| * sw) < |E| && WrittenFixed(E, im, seamPath, sw, x, y) == E[PixelIdx(x, y, |seamPath| * sw)]
  {
    BandOf(x, sw, |seamPath|);
    NewBands(im.width, |seamPath|, sw, x / sw);
    FixedReadable(im, nx, lowX, highX);
    IdxInGrid(x, y, |seamPath| * sw, im.height);
  }

  /** The corrected limits lie inside the new image, so no kernel read is NULL. */
  lemma FixedReadable(im: Raster, x: int, lo: int, hi: int)
    requires im.Valid() && 0 <= lo < hi <= im.width
    ensures KernelReadable(im, x, lo, hi)
  {
  }

  /** Row y of the field the corrected refresh builds. */
  function RefreshedFixedRow(E: seq<U32>, im: Raster, seamPath: seq<seq<int>>, sw: int, y: int): (r: seq<U32>)
    requires Shape(E, im, seamPath, sw) && 0 <= y < im.height
    ensures |r| == im.width
  {
    var s := RowSeams(seamPath, y);
    var oldW := |seamPath| * sw;
    BandsOrdered(seamPath, sw, im.height);
    RowWidth(s, oldW);
    KeptColumns(s, oldW);
    seq(im.width, nx requires 0 <= nx < im.width => WrittenFixed(E, im, seamPath, sw, Kept(s, oldW)[nx], y))
  }

  /** The field the corrected refresh builds: one value for every cell of the
      new image. */
  function RefreshedFixed(E: seq<U32>, im: Raster, seamPath: seq<seq<int>>, sw: int): (r: seq<U32>)
    requires Shape(E, im, seamPath, sw)
    ensures |r| == im.width * im.height
  {
    Flatten(seq(im.height, y requires 0 <= y < im.height => RefreshedFixedRow(E, im, seamPath, sw, y)), im.width)
  }

  /** Kept pixel (x, y) gets its corrected value on the cell of its new column. */
  lemma RefreshedFixedAt(E: seq<U32>, im: Raster, seamPath: seq<seq<int>>, sw: int, x: int, y: int)
    requires Shape(E, im, seamPath, sw) && 0 <= x < |seamPath| * sw && 0 <= y < im.height
    requires x !in RowSeams(seamPath, y)
    ensures NewColumn(seamPath, sw, im.height, x, y) < im.width
    ensures 0 <= PixelIdx(NewColumn(seamPath, sw, im.height, x, y), y, im.width) < im.width * im.height
    ensures RefreshedFixed(E, im, seamPath, sw)[PixelIdx(NewColumn(seamPath, sw, im.height, x, y), y, im.width)]
            == WrittenFixed(E, im, seamPath, sw, x, y)
  {
    var s := RowSeams(seamPath, y);
    var oldW := |seamPath| * sw;
    BandsOrdered(seamPath, sw, im.height);
    KeptAt(s, oldW, x);
    RowWidth(s, oldW);
    var nx := x - CountLess(s, x);
    assert NewColumn(seamPath, sw, im.height, x, y) == nx;
    var row := RefreshedFixedRow(E, im, seamPath, sw, y);
    assert row[nx] == WrittenFixed(E, im, seamPath, sw, x, y);
    var rows := seq(im.height, y requires 0 <= y < im.height => RefreshedFixedRow(E, im, seamPath, sw, y));
    var R := RefreshedFixed(E, im, seamPath, sw);
    assert R == Flatten(rows, im.width);
    FlattenAt(rows, im.width, nx, y);
    assert rows[y] == row;
    assert R[PixelIdx(nx, y, im.width)] == row[nx];
  }

  // ---- What the refresh does ---------------------------------------------------

  /** The recompute test: column x is recomputed exactly when its own band's
      seam passes within one column of it in the row above, the row itself or
      the row below (the missing rows beyond the image edge never count,
      since no column is within one of `INT_MAX`). */
  lemma RecalculateNearSeam(seamPath: seq<seq<int>>, sw: int, h: int, x: int, y: int)
    requires sw > 0 && 0 <= x < |seamPath| * sw && 0 <= y < h && InBands(seamPath, sw, h)
    requires |seamPath| * sw < INT_MAX
    ensures 0 <= x / sw < |seamPath|
    ensures ShouldRecalculate(seamPath, sw, h, x, y) <==>
            exists r :: y - 1 <= r <= y + 1 && 0 <= r < h && Abs(x - seamPath[x / sw][r]) <= 1
  {
    BandOf(x, sw, |seamPath|);
    var s := seamPath[x / sw];
    assert Abs(x - INT_MAX) > 1;
    if ShouldRecalculate(seamPath, sw, h, x, y) {
      if y > 0 && Abs(x - s[y - 1]) <= 1 {
        assert y - 1 <= y - 1 <= y + 1;
      } else if Abs(x - s[y]) <= 1 {
        assert y - 1 <= y <= y + 1;
      } else {
        assert y < h - 1 && Abs(x - s[y + 1]) <= 1;
      }
    }
  }

  /** The new column of a kept pixel lies in its band of the next pass: band b
      of the carved image is [b * (sw - 1), b * (sw - 1) + sw - 1). */
  lemma KeptInNewBand(seamPath: seq<seq<int>>, sw: int, h: int, x: int, y: int)
    requires sw > 0 && 0 <= x < |seamPath| * sw && 0 <= y < h && InBands(seamPath, sw, h)
    requires x !in RowSeams(seamPath, y)
    ensures (x / sw) * (sw - 1) <= NewColumn(seamPath, sw, h, x, y) < (x / sw) * (sw - 1) + (sw - 1)
  {
    BandOf(x, sw, |seamPath|);
    SeamOfBand(seamPath, sw, h, x, y);
    OffsetIsSeamsPassed(seamPath, sw, h, x, y);
    var b := x / sw;
    assert b * (sw - 1) == b * sw - b;
  }

  /** A kept pixel far from its band's seam keeps its old energy, in the
      field as written and in the corrected one alike. */
  lemma CopiedWhenFar(E: seq<U32>, im: Raster, seamPath: seq<seq<int>>, sw: int, x: int, y: int)
    requires Shape(E, im, seamPath, sw) && 0 <= x < |seamPath| * sw && 0 <= y < im.height
    requires x !in RowSeams(seamPath, y) && !ShouldRecalculate(seamPath, sw, im.height, x, y)
    ensures 0 <= PixelIdx(NewColumn(seamPath, sw, im.height, x, y), y, im.width) < im.width * im.height
    ensures 0 <= PixelIdx(x, y, |seamPath| * sw) < |E|
    ensures Refreshed(E, im, seamPath, sw)[PixelIdx(NewColumn(seamPath, sw, im.height, x, y), y, im.width)]
            == Some(E[PixelIdx(x, y, |seamPath| * sw)])
    ensures RefreshedFixed(E, im, seamPath, sw)[PixelIdx(NewColumn(seamPath, sw, im.height, x, y), y, im.width)]
            == E[PixelIdx(x, y, |seamPath| * sw)]
  {
    RefreshedAt(E, im, seamPath, sw, x, y);
    RefreshedFixedAt(E, im, seamPath, sw, x, y);
    BandOf(x, sw, |seamPath|);
    WrittenCases(E, im, seamPath, sw, x, y, (x / sw) * sw, (x / sw) * sw + sw,
                 PixelIdx(NewColumn(seamPath, sw, im.height, x, y), y, im.width));
    WrittenFixedCases(E, im, seamPath, sw, x, y, (x / sw) * (sw - 1), (x / sw) * (sw - 1) + (sw - 1),
                      NewColumn(seamPath, sw, im.height, x, y));
  }

  /** In the corrected field, a kept pixel near its band's seam gets the Sobel
      energy of its new column in the carved image, read within its band of
      the next pass. */
  lemma RecomputedWhenNear(E: seq<U32>, im: Raster, seamPath: seq<seq<int>>, sw: int, x: int, y: int)
    requires Shape(E, im, seamPath, sw) && 0 <= x < |seamPath| * sw && 0 <= y < im.height
    requires x !in RowSeams(seamPath, y) && ShouldRecalculate(seamPath, sw, im.height, x, y)
    ensures 0 <= x / sw
    ensures 0 <= (x / sw) * (sw - 1) < (x / sw) * (sw - 1) + (sw - 1) <= im.width
    ensures KernelReadable(im, NewColumn(seamPath, sw, im.height, x, y), (x / sw) * (sw - 1), (x / sw) * (sw - 1) + (sw - 1))
    ensures 0 <= PixelIdx(NewColumn(seamPath, sw, im.height, x, y), y, im.width) < im.width * im.height
    ensures RefreshedFixed(E, im, seamPath, sw)[PixelIdx(NewColumn(seamPath, sw, im.height, x, y), y, im.width)]
            == PixelEnergy(im, NewColumn(seamPath, sw, im.height, x, y), y,
                           (x / sw) * (sw - 1), (x / sw) * (sw - 1) + (sw - 1))
  {
    RefreshedFixedAt(E, im, seamPath, sw, x, y);
    BandOf(x, sw, |seamPath|);
    WrittenFixedCases(E, im, seamPath, sw, x, y, (x / sw) * (sw - 1), (x / sw) * (sw - 1) + (sw - 1),
                      NewColumn(seamPath, sw, im.height, x, y));
  }

  /** A corrected store is a Sobel energy or an old energy, so it is bounded
      when the old field is. */
  lemma WrittenFixedBounded(E: seq<U32>, im: Raster, seamPath: seq<seq<int>>, sw: int, x: int, y: int)
    requires Shape(E, im, seamPath, sw) && 0 <= x < |seamPath| * sw && 0 <= y < im.height
    requires forall i :: 0 <= i < |E| ==> E[i] <= MAX_PIXEL_ENERGY
    ensures WrittenFixed(E, im, seamPath, sw, x, y) <= MAX_PIXEL_ENERGY
  {
    BandOf(x, sw, |seamPath|);
    WrittenFixedCases(E, im, seamPath, sw, x, y, (x / sw) * (sw - 1), (x / sw) * (sw - 1) + (sw - 1),
                      NewColumn(seamPath, sw, im.height, x, y));
  }

  /** Cell i of the corrected field holds the store of the kept pixel that
      moved there. */
  lemma RefreshedFixedCellBounded(E: seq<U32>, im: Raster, seamPath: seq<seq<int>>, sw: int, i: int)
    requires Shape(E, im, seamPath, sw) && 0 <= i < im.width * im.height
    requires forall j :: 0 <= j < |E| ==> E[j] <= MAX_PIXEL_ENERGY
    ensures RefreshedFixed(E, im, seamPath, sw)[i] <= MAX_PIXEL_ENERGY
  {
    var w, h := im.width, im.height;
    PosInGrid(i, w, h);
    var nx, y := i % w, i / w;
    var s := RowSeams(seamPath, y);
    var oldW := |seamPath| * sw;
    BandsOrdered(seamPath, sw, h);
    RowWidth(s, oldW);
    KeptInverse(s, oldW, nx);
    var x := Kept(s, oldW)[nx];
    RefreshedFixedAt(E, im, seamPath, sw, x, y);
    WrittenFixedBounded(E, im, seamPath, sw, x, y);
  }

  /** The corrected field of a field of Sobel energies is one too, so the
      next pass's cost field stays below `INT_MAX`. */
  lemma RefreshedFixedBounded(E: seq<U32>, im: Raster, seamPath: seq<seq<int>>, sw: int)
    requires Shape(E, im, seamPath, sw)
    requires forall i :: 0 <= i < |E| ==> E[i] <= MAX_PIXEL_ENERGY
    ensures forall i :: 0 <= i < im.width * im.height ==> RefreshedFixed(E, im, seamPath, sw)[i] <= MAX_PIXEL_ENERGY
  {
    forall i | 0 <= i < im.width * im.height
      ensures RefreshedFixed(E, im, seamPath, sw)[i] <= MAX_PIXEL_ENERGY
    {
      RefreshedFixedCellBounded(E, im, seamPath, sw, i);
    }
  }

  // ---- The faults of the refresh as written ----------------------------------------

  /** A carved image of positive width leaves at least two columns per band. */
  lemma WideBands(w: int, k: int, sw: int)
    requires w > 0 && k > 0 && w + k == k * sw
    ensures sw >= 2
  {
    if sw < 2 {
      MulMono(sw, 1, k);
    }
  }

  /** The old last column lies in the last band, whose seam there moves it
      to new column w, one past the carved row. */
  lemma LastColumn(seamPath: seq<seq<int>>, sw: int, h: int, x: int, y: int)
    requires sw >= 2 && |seamPath| > 0 && 0 <= y < h && InBands(seamPath, sw, h)
    requires x == |seamPath| * sw - 1 || x == |seamPath| * sw - 2
    requires seamPath[|seamPath| - 1][y] == |seamPath| * sw - 1
    ensures 0 <= x < |seamPath| * sw && x / sw == |seamPath| - 1
    ensures NewColumn(seamPath, sw, h, x, y) == x - (|seamPath| - 1)
  {
    var k := |seamPath|;
    assert (k - 1) * sw == k * sw - sw;
    DivModUnique(x, sw, k - 1, x - (k - 1) * sw);
    assert x < seamPath[k - 1][y] <==> x == k * sw - 2;
    assert InsertOffset(seamPath, sw, h, x, y) == k - 1;
  }

  /** The NULL read: whenever the last band's seam takes the old last column
      in some row, its left neighbour is recomputed at new column w - 1 under
      the old limits [(k - 1) * sw, k * sw). The kernel's right neighbour,
      column w, clamps to a column at least w, past the carved row: a NULL
      pixel, so the refresh as written faults. */
  lemma LastColumnSeamReadsNull(E: seq<U32>, im: Raster, seamPath: seq<seq<int>>, sw: int, y: int)
    requires Shape(E, im, seamPath, sw) && 0 <= y < im.height
    requires seamPath[|seamPath| - 1][y] == |seamPath| * sw - 1
    ensures 0 <= |seamPath| * sw - 2
    ensures ShouldRecalculate(seamPath, sw, im.height, |seamPath| * sw - 2, y)
    ensures Written(E, im, seamPath, sw, |seamPath| * sw - 2, y) == None
    ensures !RefreshSafe(E, im, seamPath, sw)
  {
    var k, w := |seamPath|, im.width;
    var x := k * sw - 2;
    WideBands(w, k, sw);
    LastColumn(seamPath, sw, im.height, x, y);
    var lowX, highX := (k - 1) * sw, (k - 1) * sw + sw;
    var idx := PixelIdx(w - 1, y, w);
    WrittenCases(E, im, seamPath, sw, x, y, lowX, highX, idx);
    RecalculateFrom(seamPath, sw, im.height, x, y,
                    if y > 0 then seamPath[k - 1][y - 1] else INT_MAX, seamPath[k - 1][y],
                    if y < im.height - 1 then seamPath[k - 1][y + 1] else INT_MAX);
    PixelPosInverse(w - 1, y, w);
    assert !ColumnReadable(w, w, lowX, highX);
    assert !IterSafe(E, im, seamPath, sw, x, y);
  }

  /** The store past the buffer: whenever the last band's seam takes the old
      last column in the bottom row, the seam pixel stores at new column w of
      that row, offset w * h, one past the buffer, so the refresh as written
      faults. */
  lemma LastRowSeamStoresPastBuffer(E: seq<U32>, im: Raster, seamPath: seq<seq<int>>, sw: int)
    requires Shape(E, im, seamPath, sw)
    requires seamPath[|seamPath| - 1][im.height - 1] == |seamPath| * sw - 1
    ensures 0 <= |seamPath| * sw - 1
    ensures PixelIdx(NewColumn(seamPath, sw, im.height, |seamPath| * sw - 1, im.height - 1), im.height - 1, im.width)
            == im.width * im.height
    ensures !RefreshSafe(E, im, seamPath, sw)
  {
    var k, w, h := |seamPath|, im.width, im.height;
    WideBands(w, k, sw);
    LastColumn(seamPath, sw, h, k * sw - 1, h - 1);
    assert PixelIdx(w, h - 1, w) == w * h;
    assert !IterSafe(E, im, seamPath, sw, k * sw - 1, h - 1);
  }

  /** A stale copy: two bands of width 3 in one row, seams at columns 0 and
      3. Column 2 lies two columns from its own band's seam and is copied,
      although the other band's seam was its right neighbour: in the carved
      row its right neighbour is old column 4. */
  lemma StaleCopyExample(E: seq<U32>, im: Raster)
    requires E == [0, 0, 0, 0, 0, 0] && im == Raster([0, 0, 0, 0], 4, 1, 1)
    ensures Shape(E, im, [[0], [3]], 3)
    ensures !ShouldRecalculate([[0], [3]], 3, 1, 2, 0) && Abs(2 - 3) <= 1
    ensures NewColumn([[0], [3]], 3, 1, 2, 0) == 1
    ensures Kept(RowSeams([[0], [3]], 0), 6)[2] == 4
  {
    var s := RowSeams([[0], [3]], 0);
    assert s == [0, 3];
    assert CountLess(s, 2) == 1;
    assert Kept(s, 6) == [1, 2, 4, 5];
  }
}
