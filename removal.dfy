/** What `seamRemove` (parallel_seam_carving.c, lines 516-556) makes of the
    image: every row loses the k columns the seams of the pass take in it,
    and the remaining pixels close up to the left in their old order. */
module Removal {
  import opened Grid

  /** The columns the k seams take in row y, one per band. */
  function RowSeams(seamPath: seq<seq<int>>, y: int): (s: seq<int>)
    requires 0 <= y && forall b :: 0 <= b < |seamPath| ==> y < |seamPath[b]|
    ensures |s| == |seamPath| && forall b :: 0 <= b < |s| ==> s[b] == seamPath[b][y]
  {
    seq(|seamPath|, b requires 0 <= b < |seamPath| => seamPath[b][y])
  }

  /** Strictly increasing columns of [0, w). */
  predicate Ordered(s: seq<int>, w: int)
  {
    (forall b :: 0 <= b < |s| ==> 0 <= s[b] < w) &&
    (forall b, b' :: 0 <= b < b' < |s| ==> s[b] < s[b'])
  }

  /** The seams of a pass the removal handles: one column per row of a
      height-h image, ordered left to right in every row. The seams traced
      one per band are (`Pipeline.SeamsInBands`, `Refresh.BandsOrdered`). */
  predicate Removable(seamPath: seq<seq<int>>, w: int, h: int)
  {
    (forall b :: 0 <= b < |seamPath| ==> |seamPath[b]| == h) &&
    (forall y :: 0 <= y < h ==> Ordered(RowSeams(seamPath, y), w))
  }

  /** How many of the columns s lie left of x. */
  function CountLess(s: seq<int>, x: int): (n: nat)
    ensures n <= |s|
  {
    if |s| == 0 then 0 else (if s[0] < x then 1 else 0) + CountLess(s[1..], x)
  }

  /** The columns of [0, n) the removal keeps, from left to right. */
  function Kept(s: seq<int>, n: int): (r: seq<int>)
    requires n >= 0
    decreases n
  {
    if n == 0 then [] else Kept(s, n - 1) + (if n - 1 in s then [] else [n - 1])
  }

  // ---- Counting the seams passed ------------------------------------------------

  /** In an increasing row of seams, the ones left of x are exactly the first
      CountLess(s, x). */
  lemma {:induction false} CountLessSplits(s: seq<int>, w: int, x: int)
    requires Ordered(s, w)
    ensures forall b :: 0 <= b < CountLess(s, x) ==> s[b] < x
    ensures forall b :: CountLess(s, x) <= b < |s| ==> x <= s[b]
  {
    if |s| > 0 {
      assert Ordered(s[1..], w);
      CountLessSplits(s[1..], w, x);
      assert |s| > 1 ==> s[1..][0] == s[1];
    }
  }

  /** The test `isSeam(x, y, passed)` of line 533: with `passed` the number of
      seams left of x, the `passed`-th seam sits at x exactly when some seam
      of the row does. */
  lemma SeamTest(s: seq<int>, w: int, x: int)
    requires Ordered(s, w)
    ensures var p := CountLess(s, x); (p < |s| && s[p] == x) <==> x in s
  {
    CountLessSplits(s, w, x);
  }

  /** Passing column x bumps the count exactly when x is a seam (line 542). */
  lemma {:induction false} CountStep(s: seq<int>, w: int, x: int)
    requires Ordered(s, w)
    ensures CountLess(s, x + 1) == CountLess(s, x) + (if x in s then 1 else 0)
  {
    if |s| > 0 {
      assert Ordered(s[1..], w);
      CountStep(s[1..], w, x);
      assert s == [s[0]] + s[1..];
      if s[0] >= x {
        assert x !in s[1..] by {
          forall b | 0 <= b < |s[1..]|
            ensures s[1..][b] != x
          {
            assert s[1..][b] == s[b + 1];
          }
        }
      }
    }
  }

  /** No seam lies left of column 0, and every seam lies left of w: the row
      loses exactly |s| columns. */
  lemma {:induction false} CountEnds(s: seq<int>, w: int)
    requires Ordered(s, w)
    ensures CountLess(s, 0) == 0 && CountLess(s, w) == |s|
  {
    if |s| > 0 {
      assert Ordered(s[1..], w);
      CountEnds(s[1..], w);
    }
  }

  // ---- The kept columns ---------------------------------------------------------

  /** The first n columns keep n minus the seams among them. */
  lemma {:induction false} KeptLength(s: seq<int>, w: int, n: int)
    requires Ordered(s, w) && n >= 0
    ensures |Kept(s, n)| == n - CountLess(s, n)
    decreases n
  {
    if n == 0 {
      CountEnds(s, w);
    } else {
      KeptLength(s, w, n - 1);
      CountStep(s, w, n - 1);
    }
  }

  /** The kept columns of [0, n) lie in [0, n), are no seam, and increase. */
  lemma {:induction false} KeptColumns(s: seq<int>, n: int)
    requires n >= 0
    ensures forall i :: 0 <= i < |Kept(s, n)| ==> 0 <= Kept(s, n)[i] < n && Kept(s, n)[i] !in s
    ensures forall i, j :: 0 <= i < j < |Kept(s, n)| ==> Kept(s, n)[i] < Kept(s, n)[j]
    decreases n
  {
    if n > 0 {
      KeptColumns(s, n - 1);
    }
  }

  /** Scanning further only appends kept columns. */
  lemma {:induction false} KeptExtends(s: seq<int>, m: int, n: int)
    requires 0 <= m <= n
    ensures |Kept(s, m)| <= |Kept(s, n)|
    ensures forall i :: 0 <= i < |Kept(s, m)| ==> Kept(s, n)[i] == Kept(s, m)[i]
    decreases n
  {
    if m < n {
      KeptExtends(s, m, n - 1);
    }
  }

  /** A kept column x ends up at x minus the seams left of it. */
  lemma KeptAt(s: seq<int>, w: int, x: int)
    requires Ordered(s, w) && 0 <= x < w && x !in s
    ensures 0 <= x - CountLess(s, x) < |Kept(s, w)|
    ensures Kept(s, w)[x - CountLess(s, x)] == x
  {
    KeptLength(s, w, x);
    assert Kept(s, x + 1) == Kept(s, x) + [x];
    KeptExtends(s, x + 1, w);
  }

  /** Every kept position j holds the column that lands on j. */
  lemma KeptInverse(s: seq<int>, w: int, j: int)
    requires Ordered(s, w) && w >= 0 && 0 <= j < |Kept(s, w)|
    ensures var x := Kept(s, w)[j];
            0 <= x < w && x !in s && x - CountLess(s, x) == j
  {
    KeptColumns(s, w);
    var x := Kept(s, w)[j];
    KeptAt(s, w, x);
  }

  /** The kept columns keep their order: left of each other before, left of
      each other after. */
  lemma KeptOrder(s: seq<int>, w: int, x: int, x': int)
    requires Ordered(s, w) && 0 <= x < x' < w && x !in s && x' !in s
    ensures x - CountLess(s, x) < x' - CountLess(s, x')
  {
    KeptAt(s, w, x);
    KeptAt(s, w, x');
    KeptColumns(s, w);
  }

  /** The first x columns keep between 0 and w - |s| of the row's pixels. */
  lemma KeptPrefixBound(s: seq<int>, w: int, x: int)
    requires Ordered(s, w) && 0 <= x <= w
    ensures 0 <= x - CountLess(s, x) <= w - |s|
  {
    KeptLength(s, w, x);
    KeptExtends(s, x, w);
    RowWidth(s, w);
  }

  /** Each row of width w keeps w - k columns. */
  lemma RowWidth(s: seq<int>, w: int)
    requires Ordered(s, w) && w >= 0
    ensures |Kept(s, w)| == w - |s| && |s| <= w
  {
    KeptLength(s, w, w);
    CountEnds(s, w);
  }

  // ---- The carved image ---------------------------------------------------------

  /** The c channels of pixel (x, y). */
  function Pixel(img: seq<Byte>, w: int, h: int, c: int, x: int, y: int): (p: seq<Byte>)
    requires 0 <= x < w && 0 <= y < h && 0 < c && |img| == w * h * c
    ensures |p| == c
  {
    IdxCInBuffer(x, y, w, h, c, c - 1);
    IdxCInBuffer(x, y, w, h, c, 0);
    img[PixelIdxC(x, y, w, c)..PixelIdxC(x, y, w, c) + c]
  }

  /** Channel ch of Pixel(x, y) is the byte at offset getPixelIdxC(x, y) + ch. */
  lemma PixelAt(img: seq<Byte>, w: int, h: int, c: int, x: int, y: int, ch: int)
    requires 0 <= x < w && 0 <= y < h && 0 <= ch < c && |img| == w * h * c
    ensures 0 <= PixelIdxC(x, y, w, c) + ch < |img|
    ensures Pixel(img, w, h, c, x, y)[ch] == img[PixelIdxC(x, y, w, c) + ch]
  {
    var i := PixelIdxC(x, y, w, c);
    IdxCInBuffer(x, y, w, h, c, ch);
    IdxCInBuffer(x, y, w, h, c, c - 1);
    assert Pixel(img, w, h, c, x, y) == img[i..i + c];
  }

  /** Row y of the carved image: the kept pixels of row y, channel by channel. */
  function CarvedRow(img: seq<Byte>, w: int, h: int, c: int, s: seq<int>, y: int): (r: seq<Byte>)
    requires Ordered(s, w) && 0 <= y < h && 0 < c && |img| == w * h * c
    ensures |r| == (w - |s|) * c
  {
    RowWidth(s, w);
    KeptColumns(s, w);
    var pixels := seq(w - |s|, j requires 0 <= j < w - |s| => Pixel(img, w, h, c, Kept(s, w)[j], y));
    Flatten(pixels, c)
  }

  /** The image `seamRemove` builds: width w - k, the same height and
      channels, every row carved. */
  function Carved(img: seq<Byte>, w: int, h: int, c: int, seamPath: seq<seq<int>>): (r: seq<Byte>)
    requires Removable(seamPath, w, h) && 0 < h && 0 < c && |img| == w * h * c
    ensures |seamPath| <= w && |r| == (w - |seamPath|) * h * c
  {
    RowWidth(RowSeams(seamPath, 0), w);
    var nw := w - |seamPath|;
    var rows := seq(h, y requires 0 <= y < h => CarvedRow(img, w, h, c, RowSeams(seamPath, y), y));
    Reassociate(nw, h, c);
    Flatten(rows, nw * c)
  }

  lemma Reassociate(nw: int, h: int, c: int)
    ensures nw * h * c == h * (nw * c)
  {
  }

  /** Offset arithmetic: the next pixel of a row starts c bytes on, the pixel
      past the last of row y is the first of row y + 1, and the pixel past
      the last row ends the buffer. */
  lemma PixelStep(x: int, y: int, nw: int, h: int, c: int)
    ensures PixelIdxC(x + 1, y, nw, c) == PixelIdxC(x, y, nw, c) + c
    ensures PixelIdxC(nw, y, nw, c) == PixelIdxC(0, y + 1, nw, c)
    ensures PixelIdxC(0, h, nw, c) == nw * h * c
  {
    assert (y * nw + x + 1) * c == (y * nw + x) * c + c;
    assert (y + 1) * nw == y * nw + nw;
  }

  /** Offset arithmetic: channel ch of new pixel (x', y) sits at entry
      x' * c + ch of row y of width nw * c. */
  lemma ChannelOffset(x': int, y: int, nw: int, c: int, ch: int)
    ensures PixelIdxC(x', y, nw, c) + ch == PixelIdx(PixelIdx(ch, x', c), y, nw * c)
  {
    assert PixelIdx(ch, x', c) == x' * c + ch;
    assert PixelIdx(PixelIdx(ch, x', c), y, nw * c) == y * (nw * c) + (x' * c + ch);
    assert (y * nw + x') * c == y * (nw * c) + x' * c;
  }

  /** Within row y of the carved image, channel ch of kept pixel x sits at
      entry (x - passed) * c + ch. */
  lemma CarvedRowAt(img: seq<Byte>, w: int, h: int, c: int, s: seq<int>, x: int, y: int, ch: int)
    requires Ordered(s, w) && 0 <= y < h && 0 < c && |img| == w * h * c
    requires 0 <= x < w && x !in s && 0 <= ch < c
    ensures var j := PixelIdx(ch, x - CountLess(s, x), c);
            0 <= x - CountLess(s, x) < w - |s| && 0 <= j < (w - |s|) * c &&
            CarvedRow(img, w, h, c, s, y)[j] == Pixel(img, w, h, c, x, y)[ch]
  {
    RowWidth(s, w);
    KeptAt(s, w, x);
    KeptColumns(s, w);
    var pixels := seq(w - |s|, j requires 0 <= j < w - |s| => Pixel(img, w, h, c, Kept(s, w)[j], y));
    assert CarvedRow(img, w, h, c, s, y) == Flatten(pixels, c);
    FlattenAt(pixels, c, ch, x - CountLess(s, x));
  }

  /** Every kept pixel (x, y) is copied channel for channel to column
      x - (seams left of x) of the new image, as the store of line 537 does. */
  lemma CarvedAt(img: seq<Byte>, w: int, h: int, c: int, seamPath: seq<seq<int>>, x: int, y: int, ch: int)
    requires Removable(seamPath, w, h) && 0 < h && 0 < c && |img| == w * h * c
    requires 0 <= y < h && 0 <= x < w && x !in RowSeams(seamPath, y) && 0 <= ch < c
    ensures var nw := w - |seamPath|; var x' := x - CountLess(RowSeams(seamPath, y), x);
            0 <= x' < nw &&
            0 <= PixelIdxC(x, y, w, c) + ch < |img| &&
            0 <= PixelIdxC(x', y, nw, c) + ch < |Carved(img, w, h, c, seamPath)| &&
            Carved(img, w, h, c, seamPath)[PixelIdxC(x', y, nw, c) + ch] == img[PixelIdxC(x, y, w, c) + ch]
  {
    var s := RowSeams(seamPath, y);
    var nw := w - |seamPath|;
    var x' := x - CountLess(s, x);
    var j := PixelIdx(ch, x', c);
    CarvedRowAt(img, w, h, c, s, x, y, ch);
    RowWidth(RowSeams(seamPath, 0), w);
    var rows := seq(h, y requires 0 <= y < h => CarvedRow(img, w, h, c, RowSeams(seamPath, y), y));
    Reassociate(nw, h, c);
    var C := Carved(img, w, h, c, seamPath);
    assert C == Flatten(rows, nw * c);
    FlattenAt(rows, nw * c, j, y);
    var n := PixelIdx(j, y, nw * c);
    assert C[n] == Pixel(img, w, h, c, x, y)[ch];
    ChannelOffset(x', y, nw, c, ch);
    PixelAt(img, w, h, c, x, y, ch);
  }

  /** All c channels of kept pixel (x, y) at once: the c bytes from its old
      offset reappear, in order, from its new offset on. */
  lemma CarvedPixel(img: seq<Byte>, w: int, h: int, c: int, seamPath: seq<seq<int>>, x: int, y: int)
    requires Removable(seamPath, w, h) && 0 < h && 0 < c && |img| == w * h * c
    requires 0 <= y < h && 0 <= x < w && x !in RowSeams(seamPath, y)
    ensures var nw := w - |seamPath|; var x' := x - CountLess(RowSeams(seamPath, y), x);
            var from, to := PixelIdxC(x, y, w, c), PixelIdxC(x', y, nw, c);
            0 <= from && from + c <= |img| &&
            0 <= to && to + c <= |Carved(img, w, h, c, seamPath)| &&
            forall i :: to <= i < to + c ==> Carved(img, w, h, c, seamPath)[i] == img[from + (i - to)]
  {
    var nw := w - |seamPath|;
    var x' := x - CountLess(RowSeams(seamPath, y), x);
    var from, to := PixelIdxC(x, y, w, c), PixelIdxC(x', y, nw, c);
    CarvedAt(img, w, h, c, seamPath, x, y, 0);
    CarvedAt(img, w, h, c, seamPath, x, y, c - 1);
    forall i | to <= i < to + c
      ensures Carved(img, w, h, c, seamPath)[i] == img[from + (i - to)]
    {
      CarvedAt(img, w, h, c, seamPath, x, y, i - to);
    }
  }
}
