/** The driver of `main` (parallel_seam_carving.c, lines 612-669) as pure
    functions: the argument check, then `seamCount / k` passes, each of which
    traces one seam per band on the cost field of the current energies,
    removes them, and refreshes the energies for the next pass. `Run` and
    `Process` use the corrected refresh of `Refresh.RefreshedFixed`;
    `RunAsWritten` and `ProcessAsWritten` use the refresh as written, whose
    faults end the run without an image. */
module Pipeline {
  import opened Grid
  import opened Sobel
  import opened Cost
  import opened Trace
  import opened Removal
  import opened Refresh

  /** The outcome of the argument check of lines 612-621. */
  datatype ArgsCheck = Accepted | IncorrectSeamCount | NotDivisible

  /** Lines 612-621: the seam count must lie in [0, width), and both it and
      the width must be multiples of k. Only non-negative seam counts reach
      the divisibility test, where C's `%` and Dafny's agree on zero. */
  function CheckArgs(seamCount: int, width: int, k: int): (r: ArgsCheck)
    requires k > 0
    ensures r == Accepted <==> 0 <= seamCount < width && seamCount % k == 0 && width % k == 0
    ensures r == IncorrectSeamCount <==> seamCount >= width || seamCount < 0
  {
    if seamCount >= width || seamCount < 0 then IncorrectSeamCount
    else if seamCount % k != 0 || width % k != 0 then NotDivisible
    else Accepted
  }

  /** A state one pass can start from: the current image, a field of Sobel
      energies for it, k bands of at least two columns, and an image short
      enough for every cumulative cost to fit below `INT_MAX`. */
  predicate PassReady(im: Raster, E: seq<U32>, k: int)
  {
    im.Valid() && 0 < k < im.width && im.width % k == 0 &&
    |E| == im.width * im.height &&
    (forall i :: 0 <= i < |E| ==> E[i] <= MAX_PIXEL_ENERGY) &&
    MaxPathEnergy(im.height) <= INT_MAX
  }

  lemma QuotientPositive(w: int, k: int)
    requires 0 < k <= w
    ensures w / k >= 1
  {
  }

  /** Removing k columns from a width divisible by k keeps it divisible. */
  lemma StepDivisible(w: int, k: int)
    requires k > 0 && w % k == 0
    ensures (w - k) % k == 0
  {
    DivModUnique(w - k, k, w / k - 1, 0);
  }

  /** The traced seams stay, in every row, inside their bands of width w / k. */
  lemma SeamsInBands(c: seq<U32>, w: int, h: int, k: int)
    requires k > 0 && w >= k && h >= 1 && |c| == w * h
    requires forall i :: 0 <= i < |c| ==> c[i] < INT_MAX
    ensures InBands(Seams(c, w, h, k), w / k, h)
  {
    var s := Seams(c, w, h, k);
    var sw := w / k;
    QuotientPositive(w, k);
    forall b | 0 <= b < k
      ensures forall y :: 0 <= y < h ==> b * sw <= s[b][y] < b * sw + sw
    {
      BandInImage(b, w, k);
      SeamInBand(c, w, h, b * sw, b * sw + sw, h);
    }
  }

  /** The seams of one pass: one per band, traced on the cost field of the
      current energies (lines 649 and 656). */
  function PassSeams(im: Raster, E: seq<U32>, k: int): (s: seq<seq<int>>)
    requires PassReady(im, E, k)
    ensures |s| == k && InBands(s, im.width / k, im.height)
    ensures Removable(s, im.width, im.height)
  {
    var w, h := im.width, im.height;
    var c := CostField(E, w, h);
    FlatEnergyBounded(E, w, h);
    CostFieldBelowIntMax(E, w, h);
    SeamsInBands(c, w, h, k);
    StripWidthExact(w, k);
    BandsOrdered(Seams(c, w, h, k), w / k, h);
    Seams(c, w, h, k)
  }

  /** The image after the removal of one pass (line 662). */
  function Carve(im: Raster, E: seq<U32>, k: int): (r: Raster)
    requires PassReady(im, E, k)
    ensures r.Valid() && r.width == im.width - k && r.width % k == 0
    ensures r.height == im.height && r.channelCount == im.channelCount
  {
    var s := PassSeams(im, E, k);
    StepDivisible(im.width, k);
    Raster(Carved(im.data, im.width, im.height, im.channelCount, s), im.width - k, im.height, im.channelCount)
  }

  /** The carved image's energies as the corrected refresh leaves them at the
      start of the next pass (line 641). */
  function NextEnergy(im: Raster, E: seq<U32>, k: int): (r: seq<U32>)
    requires PassReady(im, E, k)
    ensures |r| == (im.width - k) * im.height
    ensures forall i :: 0 <= i < |r| ==> r[i] <= MAX_PIXEL_ENERGY
  {
    var im' := Carve(im, E, k);
    var s := PassSeams(im, E, k);
    StripWidthExact(im.width, k);
    RefreshedFixedBounded(E, im', s, im.width / k);
    RefreshedFixed(E, im', s, im.width / k)
  }

  /** The refresh handed the carved image im, the energies E of the image
      before the removal and the removed seams yields E'. */
  predicate Handed(im: Raster, E: seq<U32>, seams: seq<seq<int>>, k: int, E': seq<U32>)
  {
    k > 0 && (im.width + k) % k == 0 && |E| == (im.width + k) * im.height &&
    InBands(seams, (im.width + k) / k, im.height) &&
    Shape(E, im, seams, (im.width + k) / k) &&
    RefreshedFixed(E, im, seams, (im.width + k) / k) == E'
  }

  /** After a pass, the refresh of the next one is handed the carved image,
      the energies it was carved by and its seams, in the bands of width
      w / k that the carved width w - k still determines, and yields the
      energies of the next pass. */
  lemma RefreshHandOff(im: Raster, E: seq<U32>, k: int)
    requires PassReady(im, E, k)
    ensures Handed(Carve(im, E, k), E, PassSeams(im, E, k), k, NextEnergy(im, E, k))
  {
    StripWidthExact(im.width, k);
    DivModUnique(im.width, k, im.width / k, 0);
    var w' := Carve(im, E, k).width;
    assert w' + k == im.width;
  }

  /** A state n passes can start from: each pass removes k columns and the
      last still leaves some. */
  predicate RunReady(im: Raster, E: seq<U32>, k: int, n: int)
  {
    im.Valid() && k > 0 && 0 <= n && n * k < im.width && im.width % k == 0 &&
    |E| == im.width * im.height &&
    (forall i :: 0 <= i < |E| ==> E[i] <= MAX_PIXEL_ENERGY) &&
    MaxPathEnergy(im.height) <= INT_MAX
  }

  /** The image after n passes from im with energies E (lines 634-669). */
  function Run(im: Raster, E: seq<U32>, k: int, n: int): (r: Raster)
    requires RunReady(im, E, k, n)
    ensures r.Valid() && r.height == im.height && r.channelCount == im.channelCount
    decreases n
  {
    if n == 0 then im
    else
      PassKeepsReady(im, E, k, n);
      Run(Carve(im, E, k), NextEnergy(im, E, k), k, n - 1)
  }

  /** n passes remove n * k columns, and every pass keeps the width a
      multiple of k. */
  lemma {:induction false} RunWidth(im: Raster, E: seq<U32>, k: int, n: int)
    requires RunReady(im, E, k, n)
    ensures Run(im, E, k, n).width == im.width - n * k
    ensures Run(im, E, k, n).width % k == 0
    decreases n
  {
    if n > 0 {
      PassKeepsReady(im, E, k, n);
      RunWidth(Carve(im, E, k), NextEnergy(im, E, k), k, n - 1);
    }
  }

  /** A pass from a state n passes can start from leaves one that n - 1
      passes can start from. */
  lemma PassKeepsReady(im: Raster, E: seq<U32>, k: int, n: int)
    requires RunReady(im, E, k, n) && n > 0
    ensures PassReady(im, E, k)
    ensures RunReady(Carve(im, E, k), NextEnergy(im, E, k), k, n - 1)
    ensures Carve(im, E, k).width - (n - 1) * k == im.width - n * k
  {
    MulMono(1, n, k);
    assert (n - 1) * k == n * k - k;
  }

  /** One more pass at the front of a run. */
  lemma RunStep(im: Raster, E: seq<U32>, k: int, n: int)
    requires RunReady(im, E, k, n) && n > 0
    ensures PassReady(im, E, k)
    ensures RunReady(Carve(im, E, k), NextEnergy(im, E, k), k, n - 1)
    ensures Run(im, E, k, n) == Run(Carve(im, E, k), NextEnergy(im, E, k), k, n - 1)
  {
    PassKeepsReady(im, E, k, n);
  }

  /** An accepted seam count runs seamCount / k passes from the energies of
      the loaded image, and leaves an image seamCount columns narrower, as
      high and with as many channels: every pass keeps the width a multiple
      of k and removes k of its columns. */
  lemma AcceptedRun(im: Raster, seamCount: int, k: int)
    requires im.Valid() && k > 0 && CheckArgs(seamCount, im.width, k) == Accepted
    requires MaxPathEnergy(im.height) <= INT_MAX
    ensures RunReady(im, EnergyField(im), k, seamCount / k)
    ensures Run(im, EnergyField(im), k, seamCount / k).width == im.width - seamCount
    ensures Run(im, EnergyField(im), k, seamCount / k).height == im.height
  {
    EnergyFieldBounded(im);
    assert (seamCount / k) * k == seamCount by { StripWidthExact(seamCount, k); }
    RunWidth(im, EnergyField(im), k, seamCount / k);
  }

  /** The image of the corrected passes for an accepted seam count: the run
      of seamCount / k passes from the energies of the loaded image. */
  function Process(im: Raster, seamCount: int, k: int): (r: Raster)
    requires im.Valid() && k > 0 && CheckArgs(seamCount, im.width, k) == Accepted
    requires MaxPathEnergy(im.height) <= INT_MAX
    ensures r.Valid() && r.width == im.width - seamCount
    ensures r.height == im.height && r.channelCount == im.channelCount
  {
    AcceptedRun(im, seamCount, k);
    Run(im, EnergyField(im), k, seamCount / k)
  }

  // ---- The passes as written -------------------------------------------------------

  /** A state the refresh as written can start from, with n passes to go after
      it: the carved image im, the energies E of the image before the removal,
      and the k seams removed, one per band of width (im.width + k) / k. */
  predicate PendingReady(im: Raster, E: seq<U32>, seams: seq<seq<int>>, k: int, n: int)
  {
    k > 0 && 0 <= n && n * k < im.width && im.width % k == 0 && |seams| == k &&
    Shape(E, im, seams, (im.width + k) / k) &&
    (forall i :: 0 <= i < |E| ==> E[i] <= MAX_PIXEL_ENERGY) &&
    MaxPathEnergy(im.height) <= INT_MAX
  }

  /** After a pass, the refresh as written is handed the carved image, the
      energies it was carved by and its seams. */
  lemma PassPending(im: Raster, E: seq<U32>, k: int, n: int)
    requires RunReady(im, E, k, n) && n > 0
    ensures PendingReady(Carve(im, E, k), E, PassSeams(im, E, k), k, n - 1)
  {
    PassKeepsReady(im, E, k, n);
    StripWidthExact(im.width, k);
    DivModUnique(im.width, k, im.width / k, 0);
    assert Carve(im, E, k).width + k == im.width;
  }

  /** A fault-free refresh as written leaves a state n passes can start from. */
  lemma RefreshKeepsReady(im: Raster, E: seq<U32>, seams: seq<seq<int>>, k: int, n: int)
    requires PendingReady(im, E, seams, k, n)
    requires RefreshSafe(E, im, seams, (im.width + k) / k)
    ensures RunReady(im, RefreshedValues(E, im, seams, (im.width + k) / k), k, n)
  {
  }

  /** The outcome of n passes of the loop of lines 634-669 as written, from
      im with energies E: None when a refresh faults, else the image. Every
      pass but the first starts with the refresh of line 641 as written. */
  function RunAsWritten(im: Raster, E: seq<U32>, k: int, n: int): (r: Option<Raster>)
    requires RunReady(im, E, k, n)
    ensures r.Some? ==> r.value.Valid() && r.value.width == im.width - n * k
    ensures r.Some? ==> r.value.height == im.height && r.value.channelCount == im.channelCount
    decreases n, 0
  {
    if n == 0 then Some(im)
    else
      PassKeepsReady(im, E, k, n);
      PassPending(im, E, k, n);
      ResumeAsWritten(Carve(im, E, k), E, PassSeams(im, E, k), k, n - 1)
  }

  /** The outcome of n more passes as written once a pass has carved im: a
      pass still to come first refreshes the energies E of the image before
      the removal, and a fault there ends the run. */
  function ResumeAsWritten(im: Raster, E: seq<U32>, seams: seq<seq<int>>, k: int, n: int): (r: Option<Raster>)
    requires PendingReady(im, E, seams, k, n)
    ensures r.Some? ==> r.value.Valid() && r.value.width == im.width - n * k
    ensures r.Some? ==> r.value.height == im.height && r.value.channelCount == im.channelCount
    decreases n, 1
  {
    var sw := (im.width + k) / k;
    if n == 0 then Some(im)
    else if !RefreshSafe(E, im, seams, sw) then None
    else
      RefreshKeepsReady(im, E, seams, k, n);
      RunAsWritten(im, RefreshedValues(E, im, seams, sw), k, n)
  }

  /** One pass carves as the corrected passes do: with no refresh before it,
      the first pass is the same in both. */
  lemma FirstPassAgrees(im: Raster, E: seq<U32>, k: int)
    requires RunReady(im, E, k, 1)
    ensures RunAsWritten(im, E, k, 1) == Some(Run(im, E, k, 1))
  {
    PassKeepsReady(im, E, k, 1);
    PassPending(im, E, k, 1);
  }

  /** A refresh that faults after the first pass leaves no image, whatever
      the passes after it would do. */
  lemma FaultEndsRun(im: Raster, E: seq<U32>, k: int, n: int)
    requires RunReady(im, E, k, n) && n >= 2 && PassReady(im, E, k)
    requires RefreshFaults(im, E, k)
    ensures RunAsWritten(im, E, k, n) == None
  {
    PassPending(im, E, k, n);
    CarvedStripWidth(im, E, k);
    assert RunAsWritten(im, E, k, n) == ResumeAsWritten(Carve(im, E, k), E, PassSeams(im, E, k), k, n - 1);
  }

  /** Some iteration of the refresh as written after a pass from im faults. */
  predicate RefreshFaults(im: Raster, E: seq<U32>, k: int)
    requires PassReady(im, E, k)
  {
    PassReadyShape(im, E, k);
    !RefreshSafe(E, Carve(im, E, k), PassSeams(im, E, k), im.width / k)
  }

  /** The refresh after a pass is handed a field, an image and seams of the
      shape it needs. */
  lemma PassReadyShape(im: Raster, E: seq<U32>, k: int)
    requires PassReady(im, E, k)
    ensures Shape(E, Carve(im, E, k), PassSeams(im, E, k), im.width / k)
  {
    StripWidthExact(im.width, k);
  }

  /** The refresh after a pass sees the band width of that pass. */
  lemma CarvedStripWidth(im: Raster, E: seq<U32>, k: int)
    requires PassReady(im, E, k)
    ensures (Carve(im, E, k).width + k) / k == im.width / k
  {
    StripWidthExact(im.width, k);
    DivModUnique(im.width, k, im.width / k, 0);
    assert Carve(im, E, k).width + k == im.width;
  }

  /** An accepted seam count is seamCount / k passes of k seams. */
  lemma PassCount(seamCount: int, k: int)
    requires k > 0 && seamCount % k == 0
    ensures (seamCount / k) * k == seamCount
  {
    StripWidthExact(seamCount, k);
  }

  /** The outcome of `main` as written for an accepted seam count: the
      image it writes out, or None when a refresh faults. */
  function ProcessAsWritten(im: Raster, seamCount: int, k: int): (r: Option<Raster>)
    requires im.Valid() && k > 0 && CheckArgs(seamCount, im.width, k) == Accepted
    requires MaxPathEnergy(im.height) <= INT_MAX
    ensures r.Some? ==> r.value.Valid() && r.value.width == im.width - seamCount
    ensures r.Some? ==> r.value.height == im.height && r.value.channelCount == im.channelCount
  {
    AcceptedRun(im, seamCount, k);
    PassCount(seamCount, k);
    RunAsWritten(im, EnergyField(im), k, seamCount / k)
  }
}
