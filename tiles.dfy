// The tiling of `triangleSeamIdentification` (parallel_seam_carving.c,
// lines 381-458). The rows are cut into horizontal strips of STRIP_HEIGHT
// (15) rows, from the row above the bottom one upwards. Row l of a strip is
// the row stripBottom - l. Inside a strip the up-pointing triangles are
// computed first: triangle t covers the columns [30t + l, 30t + 30 - l) of
// row l. The down-pointing triangles come second: triangle t covers the
// columns [30t - 1 - l, 30t + 1 + l) of row l. This module shows that the two
// kinds of triangle together cover every column, and that every cell reads
// only cells finished before it. These two facts are why the tiled order
// computes the same cost field as the row-by-row pass.

module Tiles {
  import opened Grid
  import opened Cost

  // ---- The two kinds of triangle -----------------------------------------------

  /** Column x lies in row l of the up-pointing triangle x / 30. */
  predicate InUp(x: int, l: int)
  {
    l <= x % 30 < 30 - l
  }

  /** Column x lies in row l of the down-pointing triangle (x + 15) / 30. */
  predicate InDown(x: int, l: int)
  {
    14 - l <= (x + 15) % 30 < 16 + l
  }

  /** Row l of up triangle t is the column range the loop of lines 411-413
      walks: from 30t + l up to, not including, 30t + 30 - l. */
  lemma UpRowRange(x: int, l: int, t: int)
    requires 0 <= l < 15
    ensures (x / 30 == t && InUp(x, l)) <==> 30 * t + l <= x < 30 * t + 30 - l
  {
  }

  /** Row l of down triangle t is the column range the loop of lines 440-443
      walks before clamping: from 30t - 1 - l up to, not including,
      30t + 1 + l. */
  lemma DownRowRange(x: int, l: int, t: int)
    requires 0 <= l < 15
    ensures ((x + 15) / 30 == t && InDown(x, l)) <==> 30 * t - 1 - l <= x < 30 * t + 1 + l
  {
  }

  /** The triangles of a strip cover every column of each of its rows. */
  lemma Coverage(x: int, l: int)
    requires 0 <= l < 15
    ensures InUp(x, l) || InDown(x, l)
  {
    UpRowRange(x, l, x / 30);
    DownRowRange(x, l, (x + 15) / 30);
  }

  /** The triangle counts of lines 400 and 431 reach every column of the image. */
  lemma CountsSuffice(x: int, w: int)
    requires 0 <= x < w
    ensures x / 30 < (w + 29) / 30
    ensures (x + 15) / 30 < (15 + w + 29) / 30
  {
  }

  /** A cell of an up triangle above its first row reads only cells of the
      row below in the same up triangle. */
  lemma UpDependency(x: int, l: int, x': int)
    requires 0 < l < 15 && InUp(x, l) && x - 1 <= x' <= x + 1
    ensures x' / 30 == x / 30 && InUp(x', l - 1)
  {
    UpRowRange(x, l, x / 30);
    UpRowRange(x', l - 1, x / 30);
  }

  /** A cell of a down triangle above its first row reads only cells of up
      triangles or of the row below in the same down triangle. */
  lemma DownDependency(x: int, l: int, x': int)
    requires 0 < l < 15 && InDown(x, l) && x - 1 <= x' <= x + 1
    ensures InUp(x', l - 1) || ((x' + 15) / 30 == (x + 15) / 30 && InDown(x', l - 1))
  {
    var t := (x + 15) / 30;
    DownRowRange(x, l, t);
    Coverage(x', l - 1);
    DownRowRange(x', l - 1, (x' + 15) / 30);
  }

  // ---- What each stage has finished -------------------------------------------

  /** In the up stage, with up triangle t at row l0 and column xc next, the
      up cell of row l and column x is already finished. */
  predicate UpBefore(x: int, l: int, t: int, l0: int, xc: int)
  {
    x / 30 < t || (x / 30 == t && (l < l0 || (l == l0 && x < xc)))
  }

  /** In the down stage, with down triangle t at row l0 and column xc next,
      the down cell of row l and column x is already finished. */
  predicate DownBefore(x: int, l: int, t: int, l0: int, xc: int)
  {
    (x + 15) / 30 < t || ((x + 15) / 30 == t && (l < l0 || (l == l0 && x < xc)))
  }

  /** The cells the tiled pass has finished during the up stage of the strip
      whose bottom row is sb: every row above the strip, and the up cells
      already passed. */
  predicate UpDone(x: int, y: int, sb: int, t: int, l0: int, xc: int)
  {
    y > sb || (sb - 14 <= y && InUp(x, sb - y) && UpBefore(x, sb - y, t, l0, xc))
  }

  /** The cells finished during the down stage: every row above the strip,
      every up cell of the strip, and the down cells already passed. */
  predicate DownDone(x: int, y: int, sb: int, t: int, l0: int, xc: int)
  {
    y > sb || (sb - 14 <= y && (InUp(x, sb - y) || (InDown(x, sb - y) && DownBefore(x, sb - y, t, l0, xc))))
  }

  // ---- Agreement of a buffer with the final field on the finished cells --------

  /** c holds F's value in every row above sb. */
  predicate RowsAgree<T(==)>(c: seq<T>, F: seq<T>, w: int, h: int, sb: int)
    requires |c| == w * h && |F| == w * h
  {
    forall x, y :: 0 <= x < w && 0 <= y < h && y > sb ==> At(c, w, h, x, y) == At(F, w, h, x, y)
  }

  /** c holds F's value on every cell the up stage has finished. */
  predicate UpAgree<T(==)>(c: seq<T>, F: seq<T>, w: int, h: int, sb: int, t: int, l0: int, xc: int)
    requires |c| == w * h && |F| == w * h
  {
    forall x, y :: 0 <= x < w && 0 <= y < h && UpDone(x, y, sb, t, l0, xc) ==>
      At(c, w, h, x, y) == At(F, w, h, x, y)
  }

  /** c holds F's value on every cell the down stage has finished. */
  predicate DownAgree<T(==)>(c: seq<T>, F: seq<T>, w: int, h: int, sb: int, t: int, l0: int, xc: int)
    requires |c| == w * h && |F| == w * h
  {
    forall x, y :: 0 <= x < w && 0 <= y < h && DownDone(x, y, sb, t, l0, xc) ==>
      At(c, w, h, x, y) == At(F, w, h, x, y)
  }

  /** a and b agree on every row below lo. */
  predicate SameBelow<T(==)>(a: seq<T>, b: seq<T>, w: int, h: int, lo: int)
    requires |a| == w * h && |b| == w * h
  {
    forall x, y :: 0 <= x < w && 0 <= y < h && y < lo ==> At(a, w, h, x, y) == At(b, w, h, x, y)
  }

  /** A buffer that agrees on every row agrees everywhere. */
  lemma AllRowsAgree<T>(c: seq<T>, F: seq<T>, w: int, h: int, sb: int)
    requires w > 0 && |c| == w * h && |F| == w * h && sb < 0 && RowsAgree(c, F, w, h, sb)
    ensures c == F
  {
    forall i | 0 <= i < |c|
      ensures c[i] == F[i]
    {
      PosInGrid(i, w, h);
      var (x, y) := PixelPos(i, w);
      assert At(c, w, h, x, y) == At(F, w, h, x, y);
    }
  }

  // ---- The up stage ------------------------------------------------------------------

  /** At the start of the up stage only the rows above the strip are finished. */
  lemma UpStart<T>(c: seq<T>, F: seq<T>, w: int, h: int, sb: int)
    requires |c| == w * h && |F| == w * h && RowsAgree(c, F, w, h, sb)
    ensures UpAgree(c, F, w, h, sb, 0, 0, 0)
  {
  }

  /** The cells of row l of up triangle t left of its first column are not up
      cells of that row, so the row starts with nothing of it finished. */
  lemma UpRowStart<T>(c: seq<T>, F: seq<T>, w: int, h: int, sb: int, t: int, l: int)
    requires |c| == w * h && |F| == w * h && 0 <= l < 15
    requires UpAgree(c, F, w, h, sb, t, l, 0)
    ensures UpAgree(c, F, w, h, sb, t, l, 30 * t + l)
  {
    forall x, y | 0 <= x < w && 0 <= y < h && UpDone(x, y, sb, t, l, 30 * t + l)
      ensures UpDone(x, y, sb, t, l, 0)
    {
      if y <= sb && sb - y == l && x / 30 == t {
        UpRowRange(x, l, t);
      }
    }
  }

  /** Once the row loop reaches the triangle's right edge or the image's, the
      whole row of the triangle is finished. */
  lemma UpRowEnd<T>(c: seq<T>, F: seq<T>, w: int, h: int, sb: int, t: int, l: int, xc: int)
    requires |c| == w * h && |F| == w * h && 0 <= l < 15
    requires xc >= 30 * t + 30 - l || xc >= w
    requires UpAgree(c, F, w, h, sb, t, l, xc)
    ensures UpAgree(c, F, w, h, sb, t, l + 1, 0)
  {
    forall x, y | 0 <= x < w && 0 <= y < h && UpDone(x, y, sb, t, l + 1, 0)
      ensures UpDone(x, y, sb, t, l, xc)
    {
      if y <= sb && sb - y == l && x / 30 == t {
        UpRowRange(x, l, t);
      }
    }
  }

  /** Once every row of the strip that lies in the image is done, the whole
      up triangle is finished. */
  lemma UpTriangleEnd<T>(c: seq<T>, F: seq<T>, w: int, h: int, sb: int, t: int, l: int)
    requires |c| == w * h && |F| == w * h && (l >= 15 || l > sb)
    requires UpAgree(c, F, w, h, sb, t, l, 0)
    ensures UpAgree(c, F, w, h, sb, t + 1, 0, 0)
  {
  }

  /** The up cell (x, sb - l) reads only finished cells. */
  lemma UpReady<T>(c: seq<T>, F: seq<T>, w: int, h: int, sb: int, l: int, x: int)
    requires |c| == w * h && |F| == w * h && 0 <= x < w && 0 <= l < 15
    requires 0 <= sb - l && sb + 1 < h && InUp(x, l)
    requires UpAgree(c, F, w, h, sb, x / 30, l, x)
    ensures AgreeNear(c, F, w, h, x, sb - l + 1)
  {
    var r := sb - l + 1;
    forall x' | x - 1 <= x' <= x + 1 && 0 <= x' < w
      ensures At(c, w, h, x', r) == At(F, w, h, x', r)
    {
      if l > 0 {
        UpDependency(x, l, x');
      }
      assert UpDone(x', sb - l + 1, sb, x / 30, l, x);
    }
  }

  /** Storing F's value at the up cell (x, sb - l) finishes it. */
  lemma UpStore<T>(a: seq<T>, b: seq<T>, F: seq<T>, w: int, h: int, sb: int, l: int, x: int)
    requires |a| == w * h && |F| == w * h && 0 <= x < w && 0 <= l && 0 <= sb - l < h
    requires 0 <= PixelIdx(x, sb - l, w) < |a|
    requires b == a[PixelIdx(x, sb - l, w) := F[PixelIdx(x, sb - l, w)]]
    requires UpAgree(a, F, w, h, sb, x / 30, l, x)
    ensures |b| == w * h && UpAgree(b, F, w, h, sb, x / 30, l, x + 1)
    ensures SameBelow(a, b, w, h, sb - l)
  {
    StoreAt(a, b, F, w, h, x, sb - l);
  }

  /** When the up stage has passed every triangle, the down stage starts with
      every up cell of the strip finished. */
  lemma UpToDown<T>(c: seq<T>, F: seq<T>, w: int, h: int, sb: int, tc: int)
    requires |c| == w * h && |F| == w * h && tc == (w + 29) / 30
    requires UpAgree(c, F, w, h, sb, tc, 0, 0)
    ensures DownAgree(c, F, w, h, sb, 0, 0, 0)
  {
    forall x, y | 0 <= x < w && 0 <= y < h && DownDone(x, y, sb, 0, 0, 0)
      ensures UpDone(x, y, sb, tc, 0, 0)
    {
      CountsSuffice(x, w);
    }
  }

  // ---- The down stage ----------------------------------------------------------------

  /** The row of down triangle t starts with nothing of that row finished. */
  lemma DownRowStart<T>(c: seq<T>, F: seq<T>, w: int, h: int, sb: int, t: int, l: int, xs: int)
    requires |c| == w * h && |F| == w * h && 0 <= l < 15
    requires xs == if 30 * t - 1 - l < 0 then 0 else 30 * t - 1 - l
    requires DownAgree(c, F, w, h, sb, t, l, 0)
    ensures DownAgree(c, F, w, h, sb, t, l, xs)
  {
    forall x, y | 0 <= x < w && 0 <= y < h && DownDone(x, y, sb, t, l, xs)
      ensures DownDone(x, y, sb, t, l, 0)
    {
      if y <= sb && sb - y == l && (x + 15) / 30 == t {
        DownRowRange(x, l, t);
      }
    }
  }

  /** Once the row loop reaches the triangle's right edge or the image's, the
      whole row of the down triangle is finished. */
  lemma DownRowEnd<T>(c: seq<T>, F: seq<T>, w: int, h: int, sb: int, t: int, l: int, xc: int)
    requires |c| == w * h && |F| == w * h && 0 <= l < 15
    requires xc >= 30 * t + 1 + l || xc >= w
    requires DownAgree(c, F, w, h, sb, t, l, xc)
    ensures DownAgree(c, F, w, h, sb, t, l + 1, 0)
  {
    forall x, y | 0 <= x < w && 0 <= y < h && DownDone(x, y, sb, t, l + 1, 0)
      ensures DownDone(x, y, sb, t, l, xc)
    {
      if y <= sb && sb - y == l && (x + 15) / 30 == t {
        DownRowRange(x, l, t);
      }
    }
  }

  /** Once every row of the strip that lies in the image is done, the whole
      down triangle is finished. */
  lemma DownTriangleEnd<T>(c: seq<T>, F: seq<T>, w: int, h: int, sb: int, t: int, l: int)
    requires |c| == w * h && |F| == w * h && (l >= 15 || l > sb)
    requires DownAgree(c, F, w, h, sb, t, l, 0)
    ensures DownAgree(c, F, w, h, sb, t + 1, 0, 0)
  {
  }

  /** The down cell (x, sb - l) reads only finished cells. */
  lemma DownReady<T>(c: seq<T>, F: seq<T>, w: int, h: int, sb: int, l: int, x: int)
    requires |c| == w * h && |F| == w * h && 0 <= x < w && 0 <= l < 15
    requires 0 <= sb - l && sb + 1 < h && InDown(x, l)
    requires DownAgree(c, F, w, h, sb, (x + 15) / 30, l, x)
    ensures AgreeNear(c, F, w, h, x, sb - l + 1)
  {
    var r := sb - l + 1;
    forall x' | x - 1 <= x' <= x + 1 && 0 <= x' < w
      ensures At(c, w, h, x', r) == At(F, w, h, x', r)
    {
      if l > 0 {
        DownDependency(x, l, x');
      }
      assert DownDone(x', sb - l + 1, sb, (x + 15) / 30, l, x);
    }
  }

  /** Storing F's value at the down cell (x, sb - l) finishes it. */
  lemma DownStore<T>(a: seq<T>, b: seq<T>, F: seq<T>, w: int, h: int, sb: int, l: int, x: int)
    requires |a| == w * h && |F| == w * h && 0 <= x < w && 0 <= l && 0 <= sb - l < h
    requires 0 <= PixelIdx(x, sb - l, w) < |a|
    requires b == a[PixelIdx(x, sb - l, w) := F[PixelIdx(x, sb - l, w)]]
    requires DownAgree(a, F, w, h, sb, (x + 15) / 30, l, x)
    ensures |b| == w * h && DownAgree(b, F, w, h, sb, (x + 15) / 30, l, x + 1)
    ensures SameBelow(a, b, w, h, sb - l)
  {
    StoreAt(a, b, F, w, h, x, sb - l);
  }

  /** When the down stage has passed every triangle, the whole strip is
      finished. */
  lemma StripEnd<T>(c: seq<T>, F: seq<T>, w: int, h: int, sb: int, tc: int)
    requires |c| == w * h && |F| == w * h && tc == (15 + w + 29) / 30
    requires DownAgree(c, F, w, h, sb, tc, 0, 0)
    ensures RowsAgree(c, F, w, h, sb - 15)
  {
    forall x, y | 0 <= x < w && 0 <= y < h && y > sb - 15
      ensures DownDone(x, y, sb, tc, 0, 0)
    {
      CountsSuffice(x, w);
      if y <= sb {
        Coverage(x, sb - y);
      }
    }
  }
  // ---- The strip loop ----------------------------------------------------------------

  /** The bottom row read as row-major offsets: the last w entries. */
  lemma BottomRowFlat<T>(c: seq<T>, F: seq<T>, w: int, h: int)
    requires w > 0 && h > 0 && |c| == w * h && |F| == w * h
    requires RowsAgree(c, F, w, h, h - 2)
    ensures forall i :: (h - 1) * w <= i < |F| ==> c[i] == F[i]
  {
    forall i | (h - 1) * w <= i < |F|
      ensures c[i] == F[i]
    {
      var x := i - (h - 1) * w;
      assert h * w == (h - 1) * w + w;
      RowOffset(x, h - 1, w);
      assert At(c, w, h, x, h - 1) == At(F, w, h, x, h - 1);
    }
  }

  /** The buffer `triangleSeamIdentification` leaves as written: the strip
      loop of line 397 stops while stripBottom is still positive, so when
      height - 2 is a multiple of 15 the strip ending at row 0 never runs and
      row 0 keeps what `malloc` returned (junk). For every other height the
      buffer is the cost field. */
  function TiledAsWritten<T>(junk: seq<T>, F: seq<T>, w: int, h: int): (r: seq<T>)
    requires w > 0 && h > 0 && |junk| == w * h && |F| == w * h
    ensures |r| == w * h
    ensures r == F <==> !(h >= 2 && (h - 2) % 15 == 0) || junk[..w] == F[..w]
  {
    assert F == F[..w] + F[w..];
    if h >= 2 && (h - 2) % 15 == 0 then junk[..w] + F[w..] else F
  }

  /** The as-written strip loop ends with stripBottom == 0, that is with
      row 0 skipped, exactly when height - 2 is a multiple of 15. */
  lemma StripExit(h: int, sb: int)
    requires h > 0 && -15 < sb <= 0 && sb <= h - 2 && (h - 2 - sb) % 15 == 0
    ensures sb == 0 <==> h >= 2 && (h - 2) % 15 == 0
  {
  }

  /** When the as-written strip loop stops at sb, the buffer it leaves is
      the as-written buffer. */
  lemma TiledExit<T>(c: seq<T>, junk: seq<T>, F: seq<T>, w: int, h: int, sb: int)
    requires w > 0 && h > 0 && |c| == w * h && |junk| == w * h && |F| == w * h
    requires -15 < sb <= 0 && sb <= h - 2 && (h - 2 - sb) % 15 == 0
    requires RowsAgree(c, F, w, h, sb) && SameBelow(junk, c, w, h, sb + 1)
    ensures c == TiledAsWritten(junk, F, w, h)
  {
    StripExit(h, sb);
    if sb == 0 {
      TopRowKept(c, junk, F, w, h);
    } else {
      AllRowsAgree(c, F, w, h, sb);
    }
  }

  /** A buffer whose row 0 is still junk and whose other rows agree with F is
      the as-written buffer. */
  lemma TopRowKept<T>(c: seq<T>, junk: seq<T>, F: seq<T>, w: int, h: int)
    requires w > 0 && h > 0 && |c| == w * h && |junk| == w * h && |F| == w * h
    requires RowsAgree(c, F, w, h, 0) && SameBelow(junk, c, w, h, 1)
    ensures c == junk[..w] + F[w..]
  {
    forall i | 0 <= i < |c|
      ensures c[i] == (junk[..w] + F[w..])[i]
    {
      PosInGrid(i, w, h);
      var (x, y) := PixelPos(i, w);
      RowOffset(x, y, w);
      if y == 0 {
        assert At(junk, w, h, x, y) == At(c, w, h, x, y);
      } else {
        MulMono(1, y, w);
        assert At(c, w, h, x, y) == At(F, w, h, x, y);
      }
    }
  }

  /** A two-row image: the as-written pass leaves the top row as junk, so a
      junk top row of zeros differs from the cost field, whose top cell is
      5 + 7. */
  lemma TwoRowImageSkipsTopRow(e: seq<U32>, junk: seq<U32>)
    requires e == [5, 7] && junk == [0, 0]
    ensures TiledAsWritten(junk, CostField(e, 1, 2), 1, 2) != CostField(e, 1, 2)
  {
    var F := CostField(e, 1, 2);
    CellCostExample(e);
    assert F[..1] != junk[..1] by {
      assert F[..1][0] == F[0];
    }
  }

  /** The top cost of the two-row example. */
  lemma CellCostExample(e: seq<U32>)
    requires e == [5, 7]
    ensures CostField(e, 1, 2)[0] == 12
  {
    var E := RowsOf(e, 1, 2);
    RowsOfAt(e, 1, 2, 0, 0);
    RowsOfAt(e, 1, 2, 0, 1);
    CostStep(E, 1, 0, 0);
    CostFieldAt(e, 1, 2, 0, 0);
    assert CostRow(E, 1, 1)[0] == 7;
  }
}
