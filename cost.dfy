/** The cumulative-energy field of `seamIdentification` (parallel_seam_carving.c,
    lines 343-378) as a pure recurrence over the rows of the energy field, and
    what it means: the cost of a cell is the least energy of a vertical
    8-connected path from it to the bottom row. */
module Cost {
  import opened Grid
  import opened Sobel

  const TWO_POW_32: int := 0x1_0000_0000

  /** `unsigned int` addition: the sum wraps modulo 2^32 (two 32-bit operands
      overflow it at most once). */
  function AddU32(a: U32, b: U32): (r: U32)
    ensures r == (a + b) % TWO_POW_32
  {
    if a + b <= UINT_MAX then a + b else a + b - TWO_POW_32
  }

  /** The `min` macro on two values. */
  function Min(a: int, b: int): (m: int)
    ensures m <= a && m <= b
    ensures m == a || m == b
  {
    if a < b then a else b
  }

  /** The loop body shared by both cost passes (lines 368-375, 415-422 and
      446-453), on the flat energy buffer e and cost buffer c: the energy of
      (x, y) plus the least of the three cost cells below, all read through
      the sentinel lookup over the whole width. */
  function CellCost(e: seq<U32>, c: seq<U32>, w: int, h: int, x: int, y: int): U32
    requires w >= 0 && |e| == w * h && |c| == w * h
  {
    var left := EnergyPixelE(c, x - 1, y + 1, w, h);
    var center := EnergyPixelE(c, x, y + 1, w, h);
    var right := EnergyPixelE(c, x + 1, y + 1, w, h);
    AddU32(EnergyPixelE(e, x, y, w, h), Min(left, Min(center, right)))
  }

  // ---- The recurrence, on the rows of the energy field ------------------------

  /** Cost row y of the row-sequential pass over the energy rows E: the bottom
      row is the sentinel lookup of the energy (line 358), every other row the
      cell rule applied to the final cost row below it. */
  function CostRow(E: seq<seq<U32>>, w: int, y: int): (r: seq<U32>)
    requires IsGrid(E, w) && w >= 0 && 0 <= y < |E|
    ensures |r| == w
    decreases |E| - y
  {
    if y == |E| - 1 then seq(w, x requires 0 <= x < w => Sentinel(E[y][x]))
    else
      var below := CostRow(E, w, y + 1);
      seq(w, x requires 0 <= x < w => CostFromBelow(E[y][x], below, x))
  }

  /** The cell rule at column x with energy `cur` and the final cost row
      `below`: a column outside the row reads as `INT_MAX`, an inside one
      through the sentinel, and the least of the three is added to the energy. */
  function CostFromBelow(cur: U32, below: seq<U32>, x: int): U32
  {
    var left := if 0 <= x - 1 < |below| then Sentinel(below[x - 1]) else INT_MAX;
    var center := if 0 <= x < |below| then Sentinel(below[x]) else INT_MAX;
    var right := if 0 <= x + 1 < |below| then Sentinel(below[x + 1]) else INT_MAX;
    AddU32(Sentinel(cur), Min(left, Min(center, right)))
  }

  /** The cost of (x, y) in the row-sequential pass. */
  function CostAt(E: seq<seq<U32>>, w: int, x: int, y: int): U32
    requires IsGrid(E, w) && 0 <= x < w && 0 <= y < |E|
  {
    CostRow(E, w, y)[x]
  }

  /** The cost of column x' of the row below y. */
  function CostBelow(E: seq<seq<U32>>, w: int, x': int, y: int): U32
    requires IsGrid(E, w) && 0 <= x' < w && 0 <= y < |E| - 1
  {
    CostAt(E, w, x', y + 1)
  }

  /** Above the bottom row, a cost is the cell rule applied to the row below. */
  lemma CostStep(E: seq<seq<U32>>, w: int, x: int, y: int)
    requires IsGrid(E, w) && 0 <= x < w && 0 <= y < |E| - 1
    ensures CostAt(E, w, x, y) == CostFromBelow(E[y][x], CostRow(E, w, y + 1), x)
  {
  }

  // ---- The flat cost buffer ---------------------------------------------------

  /** Every cost row of the row-sequential pass over the energy rows E. */
  function CostRows(E: seq<seq<U32>>, w: int): (rows: seq<seq<U32>>)
    requires IsGrid(E, w) && w >= 0
    ensures |rows| == |E| && IsGrid(rows, w)
  {
    seq(|E|, y requires 0 <= y < |E| => CostRow(E, w, y))
  }

  /** The whole cost buffer (`imgSeam`) of the energy buffer e: the cost rows
      laid out row-major. */
  function CostField(e: seq<U32>, w: int, h: int): (c: seq<U32>)
    requires w > 0 && h >= 0 && |e| == w * h
    ensures |c| == w * h
  {
    Flatten(CostRows(RowsOf(e, w, h), w), w)
  }

  /** The entry of (x, y) in the cost buffer is the cost of (x, y). */
  lemma CostFieldAt(e: seq<U32>, w: int, h: int, x: int, y: int)
    requires w > 0 && |e| == w * h && 0 <= x < w && 0 <= y < h
    ensures At(CostField(e, w, h), w, h, x, y) == CostAt(RowsOf(e, w, h), w, x, y)
  {
    FlattenAt(CostRows(RowsOf(e, w, h), w), w, x, y);
  }

  /** The loop body computes the final cost of (x, y) as soon as the three cells
      below hold theirs, whatever the rest of the buffer holds: this is why any
      order that finishes the cells below first gives the same field. */
  lemma CellCostFinal(e: seq<U32>, c: seq<U32>, w: int, h: int, x: int, y: int)
    requires w > 0 && |e| == w * h && |c| == w * h && 0 <= x < w && 0 <= y < h - 1
    requires AgreeNear(c, CostField(e, w, h), w, h, x, y + 1)
    ensures 0 <= PixelIdx(x, y, w) < w * h
    ensures CellCost(e, c, w, h, x, y) == CostField(e, w, h)[PixelIdx(x, y, w)]
  {
    var E := RowsOf(e, w, h);
    IdxInGrid(x, y, w, h);
    CellReadsBelow(e, c, w, h, x, y);
    CostStep(E, w, x, y);
    CostFieldAt(e, w, h, x, y);
  }

  /** With the three cells below final, the loop body applies the cell rule to
      the energy of (x, y) and the final cost row below. */
  lemma CellReadsBelow(e: seq<U32>, c: seq<U32>, w: int, h: int, x: int, y: int)
    requires w > 0 && |e| == w * h && |c| == w * h && 0 <= x < w && 0 <= y < h - 1
    requires AgreeNear(c, CostField(e, w, h), w, h, x, y + 1)
    ensures CellCost(e, c, w, h, x, y) ==
            CostFromBelow(RowsOf(e, w, h)[y][x], CostRow(RowsOf(e, w, h), w, y + 1), x)
  {
    FinalRead(e, c, w, h, x, x - 1, y + 1);
    FinalRead(e, c, w, h, x, x, y + 1);
    FinalRead(e, c, w, h, x, x + 1, y + 1);
    StripeLookup(e, x, y, w, h, 0, w);
    RowsOfAt(e, w, h, x, y);
  }

  /** A sentinel read of a final cell gives what the cell rule reads from the
      final cost row. */
  lemma FinalRead(e: seq<U32>, c: seq<U32>, w: int, h: int, x: int, x': int, r: int)
    requires w > 0 && |e| == w * h && |c| == w * h && 0 <= r < h
    requires x - 1 <= x' <= x + 1
    requires AgreeNear(c, CostField(e, w, h), w, h, x, r)
    ensures EnergyPixelE(c, x', r, w, h) ==
            if 0 <= x' < w then Sentinel(CostRow(RowsOf(e, w, h), w, r)[x']) else INT_MAX
  {
    StripeLookup(c, x', r, w, h, 0, w);
    if 0 <= x' < w {
      CostFieldAt(e, w, h, x', r);
      assert At(c, w, h, x', r) == At(CostField(e, w, h), w, h, x', r);
    }
  }

  /** The bottom-row store of lines 356-359: the sentinel lookup of the energy
      is the final cost of a bottom-row cell. */
  lemma BottomCellFinal(e: seq<U32>, w: int, h: int, x: int)
    requires w > 0 && h > 0 && |e| == w * h && 0 <= x < w
    ensures 0 <= PixelIdx(x, h - 1, w) < w * h
    ensures EnergyPixelE(e, x, h - 1, w, h) == CostField(e, w, h)[PixelIdx(x, h - 1, w)]
  {
    StripeLookup(e, x, h - 1, w, h, 0, w);
    RowsOfAt(e, w, h, x, h - 1);
    CostFieldAt(e, w, h, x, h - 1);
  }

  /** The bottom cost row is the bottom energy row (an energy of `UINT_MAX`
      would read as `INT_MAX`). */
  lemma CostBottomRow(e: seq<U32>, w: int, h: int, x: int)
    requires w > 0 && h > 0 && |e| == w * h && 0 <= x < w
    ensures At(CostField(e, w, h), w, h, x, h - 1) == Sentinel(At(e, w, h, x, h - 1))
    ensures At(e, w, h, x, h - 1) < UINT_MAX ==>
            At(CostField(e, w, h), w, h, x, h - 1) == At(e, w, h, x, h - 1)
  {
    BottomCellFinal(e, w, h, x);
    StripeLookup(e, x, h - 1, w, h, 0, w);
  }

  // ---- What the cost means ------------------------------------------------------

  /** The most energy n rows of Sobel energies can add up to. */
  function MaxPathEnergy(n: int): int
  {
    1442 * n
  }

  /** Energies are Sobel energies (at most 1442 each) and the image is short
      enough that a full column of them fits in an `int`. */
  predicate EnergyBounded(E: seq<seq<U32>>)
  {
    (forall y, x :: 0 <= y < |E| && 0 <= x < |E[y]| ==> E[y][x] <= MAX_PIXEL_ENERGY) &&
    MaxPathEnergy(|E|) <= INT_MAX
  }

  /** A flat field of Sobel energies has bounded rows when it is short enough. */
  lemma FlatEnergyBounded(e: seq<U32>, w: int, h: int)
    requires w > 0 && h >= 0 && |e| == w * h
    requires forall i :: 0 <= i < |e| ==> e[i] <= MAX_PIXEL_ENERGY
    requires MaxPathEnergy(h) <= INT_MAX
    ensures EnergyBounded(RowsOf(e, w, h))
  {
    forall y, x | 0 <= y < h && 0 <= x < w
      ensures RowsOf(e, w, h)[y][x] <= MAX_PIXEL_ENERGY
    {
      RowsOfAt(e, w, h, x, y);
    }
  }

  /** When the in-row cells below x are below `INT_MAX` and the energy is at
      most 1442, the cell rule neither wraps nor picks a sentinel: it adds the
      energy to the least in-row cell below, the one at x', the leftmost least. */
  lemma CellRuleExact(cur: U32, below: seq<U32>, x: int) returns (x': int)
    requires 0 <= x < |below| && cur <= MAX_PIXEL_ENERGY
    requires forall i :: 0 <= i < |below| ==> below[i] < INT_MAX
    ensures x - 1 <= x' <= x + 1 && 0 <= x' < |below|
    ensures CostFromBelow(cur, below, x) == cur + below[x']
    ensures forall i :: x - 1 <= i <= x + 1 && 0 <= i < |below| ==> below[x'] <= below[i]
  {
    var left := if 0 <= x - 1 < |below| then below[x - 1] else INT_MAX;
    var right := if 0 <= x + 1 < |below| then below[x + 1] else INT_MAX;
    if left <= below[x] && left <= right {
      x' := x - 1;
    } else if below[x] <= right {
      x' := x;
    } else {
      x' := x + 1;
    }
  }

  /** A bottom-row cost is the bounded energy itself. */
  lemma BottomCost(E: seq<seq<U32>>, w: int, x: int)
    requires IsGrid(E, w) && |E| > 0 && 0 <= x < w && EnergyBounded(E)
    ensures CostAt(E, w, x, |E| - 1) == E[|E| - 1][x] <= MAX_PIXEL_ENERGY
  {
  }

  /** With bounded energies no cost wraps and none reaches `INT_MAX`: a cell's
      cost is at least its energy and at most 1442 per row from y down. */
  lemma {:induction false} CostBounds(E: seq<seq<U32>>, w: int, x: int, y: int)
    requires IsGrid(E, w) && 0 <= x < w && 0 <= y < |E| && EnergyBounded(E)
    ensures E[y][x] <= CostAt(E, w, x, y) <= MaxPathEnergy(|E| - y)
    ensures CostAt(E, w, x, y) < INT_MAX
    decreases |E| - y, 0
  {
    if y == |E| - 1 {
      BottomCost(E, w, x);
    } else {
      RowBounds(E, w, y + 1);
      StepBound(E, w, x, y, CostRow(E, w, y + 1));
    }
    assert MaxPathEnergy(|E| - y) <= MaxPathEnergy(|E|);
    assert MaxPathEnergy(|E| - y) == 2 * (721 * (|E| - y));
  }

  /** Every cost of row y is at most 1442 per row from y down. */
  lemma {:induction false} RowBounds(E: seq<seq<U32>>, w: int, y: int)
    requires IsGrid(E, w) && 0 <= y < |E| && EnergyBounded(E)
    ensures forall i :: 0 <= i < w ==> CostRow(E, w, y)[i] <= MaxPathEnergy(|E| - y)
    decreases |E| - y, 1
  {
    forall i | 0 <= i < w
      ensures CostRow(E, w, y)[i] <= MaxPathEnergy(|E| - y)
    {
      CostBounds(E, w, i, y);
    }
  }

  /** One step of the bound: a row below bounded by 1442 per row gives a cell
      bounded by one more 1442. */
  lemma StepBound(E: seq<seq<U32>>, w: int, x: int, y: int, below: seq<U32>)
    requires IsGrid(E, w) && 0 <= x < w && 0 <= y < |E| - 1 && EnergyBounded(E)
    requires below == CostRow(E, w, y + 1)
    requires forall i :: 0 <= i < w ==> below[i] <= MaxPathEnergy(|E| - y - 1)
    ensures E[y][x] <= CostAt(E, w, x, y) <= MaxPathEnergy(|E| - y)
  {
    assert CostAt(E, w, x, y) == CostFromBelow(E[y][x], below, x);
    var x' := CellRuleExact(E[y][x], below, x);
    assert below[x'] <= below[x];
  }

  /** Above the bottom row a cell's cost is its energy plus the least cost among
      the in-image cells below it: the out-of-image `INT_MAX` reads are never
      chosen and the unsigned sum does not wrap. */
  lemma CostRecurrence(E: seq<seq<U32>>, w: int, x: int, y: int)
    requires IsGrid(E, w) && 0 <= x < w && 0 <= y < |E| - 1 && EnergyBounded(E)
    ensures forall x' :: x - 1 <= x' <= x + 1 && 0 <= x' < w ==>
              CostAt(E, w, x, y) <= E[y][x] + CostBelow(E, w, x', y)
    ensures exists x' :: x - 1 <= x' <= x + 1 && 0 <= x' < w &&
              CostAt(E, w, x, y) == E[y][x] + CostBelow(E, w, x', y)
  {
    var x' := BestBelow(E, w, x, y);
  }

  /** The in-image column below (x, y) that the recurrence takes its minimum
      from (the leftmost one, on ties). */
  lemma BestBelow(E: seq<seq<U32>>, w: int, x: int, y: int) returns (x': int)
    requires IsGrid(E, w) && 0 <= x < w && 0 <= y < |E| - 1 && EnergyBounded(E)
    ensures x - 1 <= x' <= x + 1 && 0 <= x' < w
    ensures CostAt(E, w, x, y) == E[y][x] + CostBelow(E, w, x', y)
    ensures forall x'' :: x - 1 <= x'' <= x + 1 && 0 <= x'' < w ==>
              CostBelow(E, w, x', y) <= CostBelow(E, w, x'', y)
  {
    var below := CostRow(E, w, y + 1);
    RowBounds(E, w, y + 1);
    x' := CellRuleExact(E[y][x], below, x);
    CostStep(E, w, x, y);
  }

  // ---- Cost as the optimum over paths ------------------------------------------

  /** Columns differ by at most one: 8-connected rows. */
  predicate Adjacent(a: int, b: int)
  {
    -1 <= a - b <= 1
  }

  /** p lists, for rows y, y + 1, ..., h - 1, an in-image column of each row,
      consecutive columns adjacent: a vertical 8-connected path to the bottom. */
  predicate IsPath(p: seq<int>, w: int, h: int, y: int)
    decreases |p|
  {
    0 <= y && |p| == h - y && |p| > 0 && 0 <= p[0] < w &&
    (|p| > 1 ==> Adjacent(p[0], p[1]) && IsPath(p[1..], w, h, y + 1))
  }

  /** The total energy of the pixels a path visits. */
  function PathEnergy(E: seq<seq<U32>>, w: int, p: seq<int>, y: int): int
    requires IsGrid(E, w) && IsPath(p, w, |E|, y)
    decreases |p|
  {
    E[y][p[0]] + (if |p| == 1 then 0 else PathEnergy(E, w, p[1..], y + 1))
  }

  /** No path from (p[0], y) to the bottom has less energy than the cost of its
      first cell. */
  lemma {:induction false} CostIsLowerBound(E: seq<seq<U32>>, w: int, p: seq<int>, y: int)
    requires IsGrid(E, w) && IsPath(p, w, |E|, y) && EnergyBounded(E)
    ensures CostAt(E, w, p[0], y) <= PathEnergy(E, w, p, y)
    decreases |p|
  {
    if |p| == 1 {
      BottomCost(E, w, p[0]);
    } else {
      var rest := p[1..];
      assert rest[0] == p[1];
      CostIsLowerBound(E, w, rest, y + 1);
      CostRecurrence(E, w, p[0], y);
      assert CostAt(E, w, p[0], y) <= E[y][p[0]] + CostBelow(E, w, p[1], y);
    }
  }

  /** Some path from (x, y) to the bottom has exactly the cost of (x, y): with
      the previous lemma, the cost is the least energy of any such path. */
  lemma {:induction false} CostIsAttained(E: seq<seq<U32>>, w: int, x: int, y: int)
    returns (p: seq<int>)
    requires IsGrid(E, w) && 0 <= x < w && 0 <= y < |E| && EnergyBounded(E)
    ensures IsPath(p, w, |E|, y) && p[0] == x
    ensures PathEnergy(E, w, p, y) == CostAt(E, w, x, y)
    decreases |E| - y
  {
    if y == |E| - 1 {
      BottomCost(E, w, x);
      p := [x];
    } else {
      var x' := BestBelow(E, w, x, y);
      var rest := CostIsAttained(E, w, x', y + 1);
      p := [x] + rest;
      assert p[1..] == rest;
    }
  }
}
