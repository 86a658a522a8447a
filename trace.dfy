/** The seam tracer of `seamAnnotate` (parallel_seam_carving.c, lines 461-513)
    as pure functions over the cost buffer. The image is cut into k bands of
    width / k columns, and one seam is traced in each band: it starts at the
    leftmost minimum of the band's top row. From there it steps down one row
    at a time to the left, straight down or to the right, reading costs
    through the band-scoped sentinel lookup. */
module Trace {
  import opened Grid
  import opened Cost

  /** The top-row pick of lines 478-487: scanning the columns [lo, hi) from
      left to right, a column replaces the current pick only when its cost is
      strictly smaller, so the pick is the leftmost minimum. An empty band
      leaves the pick at lo. */
  function FirstMin(c: seq<U32>, lo: int, hi: int): (m: int)
    requires 0 <= lo <= hi <= |c|
    ensures m == lo || lo < m < hi
    ensures lo < hi ==> m < hi && forall x :: lo <= x < hi ==> c[m] <= c[x]
    ensures lo < hi ==> forall x :: lo <= x < m ==> c[m] < c[x]
    decreases hi - lo
  {
    if hi - lo <= 1 then lo
    else
      var m := FirstMin(c, lo, hi - 1);
      if c[hi - 1] < c[m] then hi - 1 else m
  }

  /** The step rule of lines 499-506 on the three costs read below column
      x: left only when the left cost is strictly below both others, else
      right only when the right cost is strictly below both others, else
      straight down. */
  function Choose(left: U32, center: U32, right: U32, x: int): (x': int)
    ensures Adjacent(x, x')
  {
    if left < center && left < right then x - 1
    else if right < center && right < left then x + 1
    else x
  }

  /** The column the seam takes in row y + 1 after column x of row y (lines
      494-506), reading the costs below through the band-scoped lookup. */
  function Step(c: seq<U32>, w: int, h: int, lo: int, hi: int, x: int, y: int): (x': int)
    requires 0 <= lo && hi <= w && |c| == w * h
    ensures Adjacent(x, x')
  {
    Choose(EnergyPixelEStripe(c, x - 1, y + 1, w, h, lo, hi),
           EnergyPixelEStripe(c, x, y + 1, w, h, lo, hi),
           EnergyPixelEStripe(c, x + 1, y + 1, w, h, lo, hi), x)
  }

  /** The first n entries of the seam traced in the band [lo, hi). */
  function SeamPrefix(c: seq<U32>, w: int, h: int, lo: int, hi: int, n: int): (p: seq<int>)
    requires 0 <= lo <= hi <= w && |c| == w * h && 1 <= n && h >= 1
    ensures |p| == n
    decreases n
  {
    if n == 1 then MulMono(1, h, w); [FirstMin(c, lo, hi)]
    else
      var p := SeamPrefix(c, w, h, lo, hi, n - 1);
      p + [Step(c, w, h, lo, hi, p[n - 2], n - 2)]
  }

  /** One more row of a seam prefix is one more step. */
  lemma SeamPrefixNext(c: seq<U32>, w: int, h: int, lo: int, hi: int, n: int, p: seq<int>, x: int)
    requires 0 <= lo <= hi <= w && |c| == w * h && 1 <= n && h >= 1
    requires p == SeamPrefix(c, w, h, lo, hi, n) && x == Step(c, w, h, lo, hi, p[n - 1], n - 1)
    ensures p + [x] == SeamPrefix(c, w, h, lo, hi, n + 1)
  {
  }

  /** The seam `seamAnnotate` stores for the band [lo, hi): one column per row. */
  function TraceSeam(c: seq<U32>, w: int, h: int, lo: int, hi: int): (p: seq<int>)
    requires 0 <= lo <= hi <= w && |c| == w * h && h >= 1
    ensures |p| == h
  {
    SeamPrefix(c, w, h, lo, hi, h)
  }

  /** The band b of width w / k: [b * (w / k), b * (w / k) + w / k). */
  lemma BandInImage(b: int, w: int, k: int)
    requires 0 <= b < k && w >= 0
    ensures 0 <= b * (w / k) && b * (w / k) + w / k <= w
  {
    MulMono(b + 1, k, w / k);
    assert (b + 1) * (w / k) == b * (w / k) + w / k;
  }

  /** The seams of every band, as `seamPath` holds them after `seamAnnotate`. */
  function Seams(c: seq<U32>, w: int, h: int, k: int): (s: seq<seq<int>>)
    requires k > 0 && w >= 0 && h >= 1 && |c| == w * h
    ensures |s| == k && forall b :: 0 <= b < k ==> |s[b]| == h
  {
    seq(k, b requires 0 <= b < k =>
      BandInImage(b, w, k);
      TraceSeam(c, w, h, b * (w / k), b * (w / k) + w / k))
  }

  // ---- What the traced seam is --------------------------------------------------

  /** Every row of a traced seam after the first is the step from the row
      before it. */
  lemma {:induction false} SeamSteps(c: seq<U32>, w: int, h: int, lo: int, hi: int, n: int, y: int)
    requires 0 <= lo <= hi <= w && |c| == w * h && h >= 1 && 1 <= n && 0 <= y < n - 1
    ensures SeamPrefix(c, w, h, lo, hi, n)[y + 1] == Step(c, w, h, lo, hi, SeamPrefix(c, w, h, lo, hi, n)[y], y)
    decreases n
  {
    if y < n - 2 {
      SeamSteps(c, w, h, lo, hi, n - 1, y);
    }
  }

  /** A traced seam starts at the leftmost minimum of the band's top row. */
  lemma {:induction false} SeamStart(c: seq<U32>, w: int, h: int, lo: int, hi: int, n: int)
    requires 0 <= lo <= hi <= w && |c| == w * h && h >= 1 && 1 <= n
    ensures hi <= |c| && SeamPrefix(c, w, h, lo, hi, n)[0] == FirstMin(c, lo, hi)
    decreases n
  {
    MulMono(1, h, w);
    if n > 1 {
      SeamStart(c, w, h, lo, hi, n - 1);
    }
  }

  /** The step reads the least of the three costs below, except when left and
      right tie below the centre: then the seam goes straight down to a
      larger cost. */
  lemma StepChoice(c: seq<U32>, w: int, h: int, lo: int, hi: int, x: int, y: int)
    requires 0 <= lo && hi <= w && |c| == w * h
    ensures var left := EnergyPixelEStripe(c, x - 1, y + 1, w, h, lo, hi);
            var center := EnergyPixelEStripe(c, x, y + 1, w, h, lo, hi);
            var right := EnergyPixelEStripe(c, x + 1, y + 1, w, h, lo, hi);
            var x' := Step(c, w, h, lo, hi, x, y);
            var taken := EnergyPixelEStripe(c, x', y + 1, w, h, lo, hi);
            (taken == Min(left, Min(center, right))) <==> !(left == right && left < center)
  {
  }

  /** With every cost below `INT_MAX`, a step never crosses the band's edge:
      the neighbour outside reads `INT_MAX`, which is never strictly smaller
      than the in-band centre. */
  lemma StepInBand(c: seq<U32>, w: int, h: int, lo: int, hi: int, x: int, y: int)
    requires 0 <= lo && hi <= w && |c| == w * h && lo <= x < hi && 0 <= y < h - 1
    requires forall i :: 0 <= i < |c| ==> c[i] < INT_MAX
    ensures lo <= Step(c, w, h, lo, hi, x, y) < hi
  {
    StripeLookup(c, x - 1, y + 1, w, h, lo, hi);
    StripeLookup(c, x, y + 1, w, h, lo, hi);
    StripeLookup(c, x + 1, y + 1, w, h, lo, hi);
  }

  /** With every cost below `INT_MAX`, the seam of a non-empty band stays in
      the band on every row. */
  lemma {:induction false} SeamInBand(c: seq<U32>, w: int, h: int, lo: int, hi: int, n: int)
    requires 0 <= lo < hi <= w && |c| == w * h && 1 <= n <= h
    requires forall i :: 0 <= i < |c| ==> c[i] < INT_MAX
    ensures forall y :: 0 <= y < n ==> lo <= SeamPrefix(c, w, h, lo, hi, n)[y] < hi
    decreases n
  {
    if n > 1 {
      SeamInBand(c, w, h, lo, hi, n - 1);
      var p := SeamPrefix(c, w, h, lo, hi, n - 1);
      StepInBand(c, w, h, lo, hi, p[n - 2], n - 2);
    }
  }

  /** Columns in [0, w) with adjacent neighbours form a path to the bottom. */
  lemma {:induction false} PathFromColumns(p: seq<int>, w: int, h: int, y: int)
    requires 0 <= y && |p| == h - y && |p| > 0
    requires forall i :: 0 <= i < |p| ==> 0 <= p[i] < w
    requires forall i :: 0 <= i < |p| - 1 ==> Adjacent(p[i], p[i + 1])
    ensures IsPath(p, w, h, y)
    decreases |p|
  {
    if |p| > 1 {
      PathFromColumns(p[1..], w, h, y + 1);
    }
  }

  /** A traced seam of a non-empty band, with every cost below `INT_MAX`, is a
      vertical 8-connected path from the top row to the bottom row. */
  lemma TracedSeamIsPath(c: seq<U32>, w: int, h: int, lo: int, hi: int)
    requires 0 <= lo < hi <= w && |c| == w * h && h >= 1
    requires forall i :: 0 <= i < |c| ==> c[i] < INT_MAX
    ensures IsPath(TraceSeam(c, w, h, lo, hi), w, h, 0)
  {
    var p := TraceSeam(c, w, h, lo, hi);
    SeamInBand(c, w, h, lo, hi, h);
    forall i | 0 <= i < |p| - 1
      ensures Adjacent(p[i], p[i + 1])
    {
      SeamSteps(c, w, h, lo, hi, h, i);
    }
    PathFromColumns(p, w, h, 0);
  }

  /** On the cost field of bounded energies, the cost of the seam's top cell
      is at most the seam's energy: the seam costs no less than the cumulative
      value it was chosen by. */
  lemma SeamEnergyAtLeastCost(e: seq<U32>, w: int, h: int, lo: int, hi: int)
    requires 0 <= lo < hi <= w && |e| == w * h && h >= 1
    requires EnergyBounded(RowsOf(e, w, h))
    ensures var c := CostField(e, w, h);
            var p := TraceSeam(c, w, h, lo, hi);
            IsPath(p, w, h, 0) && CostAt(RowsOf(e, w, h), w, p[0], 0) <= PathEnergy(RowsOf(e, w, h), w, p, 0)
  {
    var c := CostField(e, w, h);
    CostFieldBelowIntMax(e, w, h);
    TracedSeamIsPath(c, w, h, lo, hi);
    CostIsLowerBound(RowsOf(e, w, h), w, TraceSeam(c, w, h, lo, hi), 0);
  }

  /** Every entry of the cost field of bounded energies is below `INT_MAX`. */
  lemma CostFieldBelowIntMax(e: seq<U32>, w: int, h: int)
    requires w > 0 && |e| == w * h && EnergyBounded(RowsOf(e, w, h))
    ensures forall i :: 0 <= i < w * h ==> CostField(e, w, h)[i] < INT_MAX
  {
    forall i | 0 <= i < w * h
      ensures CostField(e, w, h)[i] < INT_MAX
    {
      PosInGrid(i, w, h);
      CostFieldAt(e, w, h, i % w, i / w);
      CostBounds(RowsOf(e, w, h), w, i % w, i / w);
    }
  }

  /** The tie rule in action: with left and right costs 1 below a centre cost
      of 5, the seam goes straight down to the cost 5. */
  lemma TieGoesStraightDown(c: seq<U32>)
    requires c == [0, 0, 0, 1, 5, 1]
    ensures Step(c, 3, 2, 0, 3, 1, 0) == 1
    ensures EnergyPixelEStripe(c, 1, 1, 3, 2, 0, 3) == 5
  {
    StripeLookup(c, 0, 1, 3, 2, 0, 3);
    StripeLookup(c, 1, 1, 3, 2, 0, 3);
    StripeLookup(c, 2, 1, 3, 2, 0, 3);
  }
}
