# Parallel seam carving, modelled in Dafny

This project models the seam carver in `ParallelSeamCarving/parallel_seam_carving.c`, which narrows an
image by a given number of columns by removing low-energy vertical seams. `main` decodes an image and
checks the requested seam count. It computes a Sobel energy for every pixel, then runs
`seamCount / k` passes. Each pass does four things:

- it refreshes the energies next to the seams removed by the pass before;
- it builds the cumulative cost buffer, bottom row first;
- it cuts the image into k bands of equal width and traces one seam per band from that band's
  cheapest top cell;
- it removes all k seams at once.

The source fixes k (`SIM_NUM_SEAM_REMOVAL`) at 8. The model takes any k > 0.

The modules follow the stages of the program:

| module | file | what it holds |
|---|---|---|
| `Grid` | grid.dfy | the index arithmetic (`getPixelIdx`, `getPixelPos`), the clamped pixel lookups (`getPixel`, `getPixelE`) and the energy lookups, whose `UINT_MAX` out-of-range mark the band-scoped lookup turns into `INT_MAX` |
| `Sobel` | sobel.dfy | the per-pixel energy (`calculatePixelEnergyStripe`) and the full energy field |
| `Cost` | cost.dfy | the cost recurrence of `seamIdentification`, with `unsigned int` wrap-around. The cost field is the least energy of any 8-connected path to the bottom row. |
| `Tiles` | tiles.dfy | the up and down triangles of `triangleSeamIdentification`: which cells each triangle computes and in which order |
| `Trace` | trace.dfy | the seam tracer of `seamAnnotate` |
| `Removal` | removal.dfy | the kept columns of `seamRemove` and the carved image |
| `Refresh` | refresh.dfy | `updateEnergyOnSeam`: as written, and corrected |
| `Pipeline` | pipeline.dfy | `main`'s argument check and pass loop, as functions: with the corrected refresh, and as written, where a faulting refresh leaves no image |
| `Carver` | carver.dfy | the `ImageProcessData` record as a class whose methods keep its buffers in arrays, loop for loop as in the source, each proved against the functions above |

## Model

| member | source | states |
|---|---|---|
| Grid.PixelIdxC | ParallelSeamCarving/parallel_seam_carving.c:67-70 | the offset of the first channel of (x, y) in a row-major image with c channels per pixel; `Grid.IdxCInBuffer` keeps every channel of an in-image pixel inside the buffer |
| Grid.PixelIdx | ParallelSeamCarving/parallel_seam_carving.c:73-76 | the one-channel offset of (x, y); `Grid.PixelPosInverse`, `Grid.IdxInGrid` and `Grid.PixelIdxInjective` make it a one-to-one map of the in-image pixels onto [0, w × h) |
| Grid.PixelPos | ParallelSeamCarving/parallel_seam_carving.c:78-82 | the position decoded from an index lies in the row of that width, and re-encodes to the same index |
| Grid.PixelPosInverse | ParallelSeamCarving/parallel_seam_carving.c:73-82 | decoding the index of any in-row position gives that position back |
| Grid.PosInGrid | ParallelSeamCarving/parallel_seam_carving.c:78-82 | every index of a w × h buffer decodes to a position inside the image |
| Grid.IdxInGrid | ParallelSeamCarving/parallel_seam_carving.c:73-76 | every in-image position has an index inside the w × h buffer |
| Grid.PixelIdxInjective | ParallelSeamCarving/parallel_seam_carving.c:73-76 | two in-row positions with the same index are the same position |
| Grid.IdxCInBuffer | ParallelSeamCarving/parallel_seam_carving.c:67-70 | every channel byte of an in-image pixel lies inside the w × h × c image |
| Grid.RowOffset | ParallelSeamCarving/parallel_seam_carving.c:67-76 | row y begins at offset y * w, and the row below begins w cells later |
| Grid.RowsOfAt | ParallelSeamCarving/parallel_seam_carving.c:233-241 | the row view of a flat buffer holds, at (x, y), the cell at the row-major index |
| Grid.FlattenAt | ParallelSeamCarving/parallel_seam_carving.c:233-241 | flattening rows puts cell (x, y) at its row-major index |
| Grid.GetPixel | ParallelSeamCarving/parallel_seam_carving.c:85-95 | the channel offset of (x, y), or NULL outside the image; `Sobel.ReadableIffNotNull` says when the kernel meets that NULL |
| Grid.ClampX | ParallelSeamCarving/parallel_seam_carving.c:100-102 | x clamped to [limitLowX, limitHighX), low limit first; pinned down by `Grid.ClampInRange` |
| Grid.ClampY | ParallelSeamCarving/parallel_seam_carving.c:101-103 | y clamped to [0, height); pinned down by `Grid.ClampInRange` |
| Grid.ClampInRange | ParallelSeamCarving/parallel_seam_carving.c:99-103 | a clamp lands inside a non-empty range and leaves a coordinate already inside it unchanged |
| Grid.GetPixelE | ParallelSeamCarving/parallel_seam_carving.c:97-106 | `getPixel` at the clamped coordinates; pinned down by `Grid.GetPixelENeverNull` |
| Grid.GetPixelENeverNull | ParallelSeamCarving/parallel_seam_carving.c:97-106 | when the clamp range lies inside the image, the clamped lookup never returns NULL, and it points at the clamped pixel |
| Grid.EnergyPixel | ParallelSeamCarving/parallel_seam_carving.c:109-118 | the stored value inside [limitLowX, limitHighX) × [0, height), `UINT_MAX` outside; pinned down by `Grid.StripeLookup` |
| Grid.EnergyPixelEStripe | ParallelSeamCarving/parallel_seam_carving.c:120-130 | `getEnergyPixel` with `UINT_MAX` read as `INT_MAX`; pinned down by `Grid.StripeLookup` |
| Grid.EnergyPixelE | ParallelSeamCarving/parallel_seam_carving.c:132-136 | the band-scoped lookup over the whole width, through which the cost passes read (`Cost.CellCost`) |
| Grid.StripeLookup | ParallelSeamCarving/parallel_seam_carving.c:109-130 | the band-scoped energy lookup returns `INT_MAX` outside the band, and inside it the stored energy, except that a stored `UINT_MAX` also reads as `INT_MAX` |
| Grid.IsSeam | ParallelSeamCarving/parallel_seam_carving.c:139-148 | whether column x of row y is seam seanIdx, false past the last row or seam; `Removal.SeamTest` ties the removal scan's use of it to the row's seam columns |
| Sobel.ReadableIffNotNull | ParallelSeamCarving/parallel_seam_carving.c:85-106 | a clamped column is readable exactly when `getPixelE` does not return NULL |
| Sobel.FullWidthReadable | ParallelSeamCarving/parallel_seam_carving.c:175-179 | with the whole width as clamp range, all nine kernel reads are readable |
| Sobel.Sample | ParallelSeamCarving/parallel_seam_carving.c:155-167 | every sampled channel value is a byte, 0 to 255 |
| Sobel.SampleIsGetPixelE | ParallelSeamCarving/parallel_seam_carving.c:155-167 | a sample is the byte that the `getPixelE` pointer addresses, and that pointer is inside the image |
| Sobel.KernelReadable | ParallelSeamCarving/parallel_seam_carving.c:155-167 | the clamped columns x − 1, x and x + 1 all lie in the image, so no read of the kernel is NULL; `Sobel.ReadableIffNotNull` pins it to `getPixelE` |
| Sobel.GradX | ParallelSeamCarving/parallel_seam_carving.c:155-160 | the horizontal Sobel gradient of one channel; bounded by `Sobel.GradientBound` |
| Sobel.GradY | ParallelSeamCarving/parallel_seam_carving.c:162-167 | the vertical Sobel gradient of one channel; bounded by `Sobel.GradientBound`, zero on a one-row image by `Sobel.SingleRowGradients` |
| Sobel.ChannelEnergy | ParallelSeamCarving/parallel_seam_carving.c:169 | one channel's contribution, the truncated magnitude of the gradient; bounded by `Sobel.ChannelEnergyBound` |
| Sobel.GradientBound | ParallelSeamCarving/parallel_seam_carving.c:155-167 | both Sobel gradients lie within ±1020 |
| Sobel.SingleRowGradients | ParallelSeamCarving/parallel_seam_carving.c:155-167 | on a one-row image the vertical gradient is 0, and the horizontal one is 4 × (right − left) |
| Sobel.SampleOfUniform | ParallelSeamCarving/parallel_seam_carving.c:155-167 | on a uniform image every sample is the uniform value |
| Sobel.FloorSqrt | ParallelSeamCarving/parallel_seam_carving.c:169 | the result is the integer square root: r² ≤ n < (r + 1)² |
| Sobel.FloorSqrtOfSquare | ParallelSeamCarving/parallel_seam_carving.c:169 | the square root of a perfect square is exact |
| Sobel.ChannelEnergyBound | ParallelSeamCarving/parallel_seam_carving.c:169 | one channel's gradient magnitude is at most `MAX_PIXEL_ENERGY` (1442) |
| Sobel.EnergyTotal | ParallelSeamCarving/parallel_seam_carving.c:152-170 | the running sum over n channels lies in [0, n × 1442] |
| Sobel.EnergyTotalZero | ParallelSeamCarving/parallel_seam_carving.c:152-170 | the sum is 0 when every channel's magnitude is 0 |
| Sobel.PixelEnergy | ParallelSeamCarving/parallel_seam_carving.c:150-173 | a pixel's energy, the mean of its channel magnitudes, never exceeds 1442 |
| Sobel.UniformNeighbourhoodZero | ParallelSeamCarving/parallel_seam_carving.c:155-169 | a uniform 3 × 3 neighbourhood has zero gradients and zero magnitude |
| Sobel.UniformImageZeroEnergy | ParallelSeamCarving/parallel_seam_carving.c:150-179 | every pixel of a uniform image has zero energy |
| Sobel.OneRowEnergy | ParallelSeamCarving/parallel_seam_carving.c:155-171 | the middle pixel of a one-row, one-channel, three-pixel image [a, ·, b] with b ≥ a has energy 4 × (b − a) |
| Sobel.EnergyRows | ParallelSeamCarving/parallel_seam_carving.c:233-241 | the energy rows form a height × width grid |
| Sobel.EnergyField | ParallelSeamCarving/parallel_seam_carving.c:223-242 | the energy field has one cell per pixel |
| Sobel.EnergyFieldAt | ParallelSeamCarving/parallel_seam_carving.c:233-241 | cell (x, y) of the field is the full-width energy of pixel (x, y) |
| Sobel.EnergyFieldBounded | ParallelSeamCarving/parallel_seam_carving.c:233-241 | every cell of the energy field is at most 1442 |
| Sobel.PixelEnergyAsWritten | ParallelSeamCarving/parallel_seam_carving.c:171 | line 171 as written: the uninitialised `energy` divided by the channel count; `Sobel.AsWrittenIgnoresGradient` shows it cannot follow the gradient |
| Sobel.AsWrittenIgnoresGradient | ParallelSeamCarving/parallel_seam_carving.c:171 | line 171 divides the uninitialised `energy` and ignores the summed gradient, so for any garbage value it fails one of two images whose true energies are 1020 and 0 |
| Cost.AddU32 | ParallelSeamCarving/parallel_seam_carving.c:375 | the `unsigned int` addition wraps modulo 2^32 |
| Cost.Min | ParallelSeamCarving/parallel_seam_carving.c:373 | the minimum is one of its arguments and no greater than either |
| Cost.CostRow | ParallelSeamCarving/parallel_seam_carving.c:363-377 | each cost row is as wide as the image |
| Cost.CostRows | ParallelSeamCarving/parallel_seam_carving.c:363-377 | the cost rows form a grid of the energy's shape |
| Cost.CostField | ParallelSeamCarving/parallel_seam_carving.c:343-378 | the cost buffer has one cell per pixel |
| Cost.CostFieldAt | ParallelSeamCarving/parallel_seam_carving.c:354-377 | the flat cost buffer holds, at (x, y), the cumulative cost of that cell |
| Cost.CellCost | ParallelSeamCarving/parallel_seam_carving.c:368-375 | the loop body on the flat buffers: the energy plus the least of the three costs below, read through the sentinel lookup, with wrap-around; `Cost.CellCostFinal` ties it to the final field |
| Cost.CostFromBelow | ParallelSeamCarving/parallel_seam_carving.c:368-375 | the same rule on the final cost row below; `Cost.CellRuleExact` and `Cost.CostRecurrence` state what it adds |
| Cost.CostAt | ParallelSeamCarving/parallel_seam_carving.c:354-377 | the cost of (x, y) in the row-sequential pass; `Cost.CostIsLowerBound` and `Cost.CostIsAttained` make it the least energy of any 8-connected path from (x, y) to the bottom row |
| Cost.CellCostFinal | ParallelSeamCarving/parallel_seam_carving.c:368-375 | once the rows below are final, one loop step stores exactly the cell's final cost |
| Cost.CellReadsBelow | ParallelSeamCarving/parallel_seam_carving.c:368-375 | a loop step reads only the row below it |
| Cost.FinalRead | ParallelSeamCarving/parallel_seam_carving.c:368-370 | a lookup of a cell agrees with the final field wherever the buffer is already final |
| Cost.BottomCellFinal | ParallelSeamCarving/parallel_seam_carving.c:356-359 | a bottom-row cell's cost is the clamped energy lookup of that cell |
| Cost.CostBottomRow | ParallelSeamCarving/parallel_seam_carving.c:356-359 | the bottom cost row is the energy, with its `UINT_MAX` cells read as the sentinel |
| Cost.BottomCost | ParallelSeamCarving/parallel_seam_carving.c:356-359 | for bounded energies the bottom cost is the cell's energy, at most 1442 |
| Cost.FlatEnergyBounded | ParallelSeamCarving/parallel_seam_carving.c:343-378 | a flat buffer of cells no greater than 1442 is bounded as rows |
| Cost.CellRuleExact | ParallelSeamCarving/parallel_seam_carving.c:368-375 | the step picks a neighbour below whose cost is least, and adds it without wrap-around |
| Cost.CostBounds | ParallelSeamCarving/parallel_seam_carving.c:363-377 | for bounded energies a cost lies between the cell's energy and 1442 × (rows to the bottom), and below `INT_MAX` |
| Cost.RowBounds | ParallelSeamCarving/parallel_seam_carving.c:363-377 | the same bound holds for every cell of a cost row |
| Cost.StepBound | ParallelSeamCarving/parallel_seam_carving.c:368-375 | one step keeps the bound: energy ≤ cost ≤ 1442 × (rows to the bottom) |
| Cost.CostRecurrence | ParallelSeamCarving/parallel_seam_carving.c:368-375 | a cell's cost is at most its energy plus any neighbour's cost below, and equal for one of them |
| Cost.BestBelow | ParallelSeamCarving/parallel_seam_carving.c:368-375 | returns the neighbour below that the cost is attained through |
| Cost.CostIsLowerBound | ParallelSeamCarving/parallel_seam_carving.c:343-378 | no 8-connected path from a cell down to the bottom row has less energy than that cell's cost |
| Cost.CostIsAttained | ParallelSeamCarving/parallel_seam_carving.c:343-378 | some 8-connected path from the cell has exactly that cost |
| Tiles.UpRowRange | ParallelSeamCarving/parallel_seam_carving.c:404-413 | row l of up triangle t is exactly the columns [30t + l, 30t + 30 − l) |
| Tiles.DownRowRange | ParallelSeamCarving/parallel_seam_carving.c:430-444 | row l of down triangle t is exactly the columns [30t − 1 − l, 30t + 1 + l) |
| Tiles.Coverage | ParallelSeamCarving/parallel_seam_carving.c:397-456 | every column of every strip row is computed by an up or a down triangle |
| Tiles.CountsSuffice | ParallelSeamCarving/parallel_seam_carving.c:399-431 | the triangle counts of lines 400 and 431 cover every column (no triangle is missing at the right edge) |
| Tiles.UpDependency | ParallelSeamCarving/parallel_seam_carving.c:411-417 | an up-triangle cell reads only cells of the same up triangle, one row below |
| Tiles.DownDependency | ParallelSeamCarving/parallel_seam_carving.c:441-448 | a down-triangle cell reads cells of an up triangle, or of its own down triangle one row below |
| Tiles.AllRowsAgree | ParallelSeamCarving/parallel_seam_carving.c:397-457 | a buffer final on every row is the cost field |
| Tiles.UpStart | ParallelSeamCarving/parallel_seam_carving.c:402-425 | before the first up triangle the strip's invariant holds |
| Tiles.UpRowStart | ParallelSeamCarving/parallel_seam_carving.c:406-413 | entering a row of an up triangle keeps the invariant |
| Tiles.UpRowEnd | ParallelSeamCarving/parallel_seam_carving.c:406-424 | finishing a row of an up triangle makes that row's columns final |
| Tiles.UpTriangleEnd | ParallelSeamCarving/parallel_seam_carving.c:404-425 | finishing an up triangle makes all its cells final |
| Tiles.UpReady | ParallelSeamCarving/parallel_seam_carving.c:411-417 | what an up-triangle cell reads below is already final |
| Tiles.UpStore | ParallelSeamCarving/parallel_seam_carving.c:415-422 | the store of an up-triangle cell extends the final region by one cell and leaves the rows below untouched |
| Tiles.UpToDown | ParallelSeamCarving/parallel_seam_carving.c:425-433 | after all up triangles the down triangles may start |
| Tiles.DownRowStart | ParallelSeamCarving/parallel_seam_carving.c:435-444 | entering a row of a down triangle keeps the invariant |
| Tiles.DownRowEnd | ParallelSeamCarving/parallel_seam_carving.c:435-455 | finishing a row of a down triangle makes that row's columns final |
| Tiles.DownTriangleEnd | ParallelSeamCarving/parallel_seam_carving.c:433-456 | finishing a down triangle makes all its cells final |
| Tiles.DownReady | ParallelSeamCarving/parallel_seam_carving.c:441-448 | what a down-triangle cell reads below is already final |
| Tiles.DownStore | ParallelSeamCarving/parallel_seam_carving.c:446-453 | the store of a down-triangle cell extends the final region and leaves the rows below untouched |
| Tiles.StripEnd | ParallelSeamCarving/parallel_seam_carving.c:397-457 | after one strip, its 15 rows are final |
| Tiles.BottomRowFlat | ParallelSeamCarving/parallel_seam_carving.c:390-393 | the bottom-row loop makes the bottom row final |
| Tiles.TiledAsWritten | ParallelSeamCarving/parallel_seam_carving.c:397 | the as-written tiled buffer is the cost field exactly when the strip loop reaches row 0, or when the junk top row happens to match |
| Tiles.StripExit | ParallelSeamCarving/parallel_seam_carving.c:397 | the strip loop stops with `stripBottom` at 0, not processing it, exactly when height − 2 is a multiple of 15 |
| Tiles.TiledExit | ParallelSeamCarving/parallel_seam_carving.c:397-457 | the buffer left by the as-written strip loop is the as-written tiled buffer |
| Tiles.TopRowKept | ParallelSeamCarving/parallel_seam_carving.c:397 | when the strip at row 0 is skipped, the top row keeps the uninitialised contents |
| Tiles.TwoRowImageSkipsTopRow | ParallelSeamCarving/parallel_seam_carving.c:397 | on a 1 × 2 image with energies [5, 7] and a zeroed buffer, the as-written pass differs from the cost field |
| Tiles.CellCostExample | ParallelSeamCarving/parallel_seam_carving.c:415-422 | the top cost of that image is 5 + 7 = 12 |
| Trace.FirstMin | ParallelSeamCarving/parallel_seam_carving.c:478-487 | the top-row pick is the leftmost minimum of the band, or the band's first column if the band is empty |
| Trace.Choose | ParallelSeamCarving/parallel_seam_carving.c:499-506 | the step moves at most one column |
| Trace.Step | ParallelSeamCarving/parallel_seam_carving.c:494-506 | the next column is adjacent to the current one |
| Trace.StepChoice | ParallelSeamCarving/parallel_seam_carving.c:499-506 | the step takes the least of the three costs below unless left and right tie below the centre; then it goes straight down (`Trace.TieGoesStraightDown`), which is why `Trace.SeamEnergyAtLeastCost` is only ≥ |
| Trace.TieGoesStraightDown | ParallelSeamCarving/parallel_seam_carving.c:499-506 | with costs 1, 5, 1 below, the seam goes straight down to the cost 5 |
| Trace.StepInBand | ParallelSeamCarving/parallel_seam_carving.c:494-506 | with all costs below `INT_MAX`, a step never leaves the band |
| Trace.SeamPrefix | ParallelSeamCarving/parallel_seam_carving.c:489-511 | a prefix of n rows has n columns |
| Trace.SeamSteps | ParallelSeamCarving/parallel_seam_carving.c:492-510 | each row of the seam is the step from the row above |
| Trace.SeamStart | ParallelSeamCarving/parallel_seam_carving.c:478-487 | the seam starts at the leftmost minimum of the top row |
| Trace.TraceSeam | ParallelSeamCarving/parallel_seam_carving.c:476-511 | a traced seam has one column per row |
| Trace.BandInImage | ParallelSeamCarving/parallel_seam_carving.c:463-469 | band b, [b × (w / k), (b + 1) × (w / k)), lies inside the image |
| Trace.Seams | ParallelSeamCarving/parallel_seam_carving.c:461-513 | k seams, each with one column per row |
| Trace.SeamInBand | ParallelSeamCarving/parallel_seam_carving.c:492-511 | with all costs below `INT_MAX`, every row of the seam stays in its band |
| Trace.TracedSeamIsPath | ParallelSeamCarving/parallel_seam_carving.c:461-513 | a traced seam is an 8-connected path from the top row to the bottom row |
| Trace.SeamEnergyAtLeastCost | ParallelSeamCarving/parallel_seam_carving.c:461-513 | a traced seam's energy is at least the cost it was chosen by |
| Trace.CostFieldBelowIntMax | ParallelSeamCarving/parallel_seam_carving.c:363-377 | for bounded energies every cost is below `INT_MAX`, the value that stands for "outside the band" |
| Removal.RowSeams | ParallelSeamCarving/parallel_seam_carving.c:529-546 | the seams' columns in row y, one per band |
| Removal.CountLess | ParallelSeamCarving/parallel_seam_carving.c:529-546 | the number of seams left of x is at most the number of seams |
| Removal.CountLessSplits | ParallelSeamCarving/parallel_seam_carving.c:529-546 | for sorted seams, the count splits them into those left of x and the rest |
| Removal.SeamTest | ParallelSeamCarving/parallel_seam_carving.c:534 | the scan's test "the next seam is at x" holds exactly when x is a seam column of the row |
| Removal.CountStep | ParallelSeamCarving/parallel_seam_carving.c:543-544 | the count advances by one exactly at a seam column |
| Removal.CountEnds | ParallelSeamCarving/parallel_seam_carving.c:529-546 | no seam is left of column 0, and all of them are left of column w |
| Removal.KeptLength | ParallelSeamCarving/parallel_seam_carving.c:532-540 | the kept prefix up to n has n minus the seams before n columns |
| Removal.Kept | ParallelSeamCarving/parallel_seam_carving.c:529-545 | the columns of a row the removal keeps, in order; `Removal.KeptAt`, `Removal.KeptInverse` and `Removal.KeptOrder` pin them down |
| Removal.KeptColumns | ParallelSeamCarving/parallel_seam_carving.c:532-540 | kept columns lie in the row, are not seams, and keep their order |
| Removal.KeptExtends | ParallelSeamCarving/parallel_seam_carving.c:532-540 | the kept columns up to m are a prefix of those up to n |
| Removal.KeptAt | ParallelSeamCarving/parallel_seam_carving.c:532-540 | a non-seam column x is kept at position x minus the seams before x |
| Removal.KeptInverse | ParallelSeamCarving/parallel_seam_carving.c:532-540 | every kept position maps back to a non-seam column |
| Removal.KeptOrder | ParallelSeamCarving/parallel_seam_carving.c:532-540 | kept columns keep their left-to-right order |
| Removal.KeptPrefixBound | ParallelSeamCarving/parallel_seam_carving.c:532-540 | a kept column's new position is inside the narrower row |
| Removal.RowWidth | ParallelSeamCarving/parallel_seam_carving.c:521-522 | every row drops exactly k pixels |
| Removal.Pixel | ParallelSeamCarving/parallel_seam_carving.c:536-541 | a pixel has c channel bytes |
| Removal.PixelAt | ParallelSeamCarving/parallel_seam_carving.c:536-541 | the pixel's byte ch is the image byte at `getPixelIdxC + ch` |
| Removal.CarvedRow | ParallelSeamCarving/parallel_seam_carving.c:529-546 | each carved row holds (w − k) × c bytes |
| Removal.Carved | ParallelSeamCarving/parallel_seam_carving.c:516-556 | the carved image holds (w − k) × h × c bytes |
| Removal.CarvedRowAt | ParallelSeamCarving/parallel_seam_carving.c:536-541 | in a carved row, the kept pixel x sits at x minus the seams before it |
| Removal.CarvedAt | ParallelSeamCarving/parallel_seam_carving.c:536-541 | byte ch of kept pixel (x, y) moves to (x − seams before x, y) in the image of width w − k |
| Removal.CarvedPixel | ParallelSeamCarving/parallel_seam_carving.c:536-541 | the whole pixel is copied unchanged |
| Refresh.StripWidthExact | ParallelSeamCarving/parallel_seam_carving.c:249-250 | the old width is exactly k bands |
| Refresh.BandOf | ParallelSeamCarving/parallel_seam_carving.c:258-260 | column x lies in band x / sw, between the band limits of line 259 |
| Refresh.CountAt | ParallelSeamCarving/parallel_seam_carving.c:268 | in a sorted row of seams, when the first p are left of x and the rest are not, p is the number of seams left of x |
| Refresh.BandsOrdered | ParallelSeamCarving/parallel_seam_carving.c:258-268 | in-band seams are sorted and removable |
| Refresh.OtherBandsAround | ParallelSeamCarving/parallel_seam_carving.c:258-268 | seams of bands left of x's band are left of x, and those of bands to its right are right of x |
| Refresh.InsertOffset | ParallelSeamCarving/parallel_seam_carving.c:268 | `insertOffsetX`, the band index plus one right of the band's seam; `Refresh.OffsetIsSeamsPassed` makes it the number of seams left of x |
| Refresh.ShouldRecalculate | ParallelSeamCarving/parallel_seam_carving.c:264-276 | the recompute test on the band's seam columns in the rows y − 1, y and y + 1; pinned down by `Refresh.RecalculateNearSeam` |
| Refresh.OffsetIsSeamsPassed | ParallelSeamCarving/parallel_seam_carving.c:268 | the offset `stripIdx + (x > seam)` equals the number of seams left of x |
| Refresh.NewColumn | ParallelSeamCarving/parallel_seam_carving.c:268-270 | the destination column is x minus the seams left of x, and inside the new width for a kept pixel |
| Refresh.PassedBounds | ParallelSeamCarving/parallel_seam_carving.c:268-270 | bounds of the destination column |
| Refresh.SeamOfBand | ParallelSeamCarving/parallel_seam_carving.c:258-268 | x is a seam column of the row exactly when it is its own band's seam |
| Refresh.Written | ParallelSeamCarving/parallel_seam_carving.c:279-288 | an iteration that only copies always produces a value |
| Refresh.IterSafe | ParallelSeamCarving/parallel_seam_carving.c:268-288 | an iteration reads no NULL pixel and stores inside the new buffer; `Refresh.LastColumnSeamReadsNull` and `Refresh.LastRowSeamStoresPastBuffer` give iterations that are not |
| Refresh.RefreshSafe | ParallelSeamCarving/parallel_seam_carving.c:254-291 | no iteration of the refresh faults; `Carver.ImageProcessData.UpdateEnergyOnSeam` succeeds exactly then |
| Refresh.WrittenBounded | ParallelSeamCarving/parallel_seam_carving.c:279-288 | a value the refresh as written stores is at most 1442 when the old field is |
| Refresh.RefreshedCellSafe | ParallelSeamCarving/parallel_seam_carving.c:254-291 | with no fault, every cell of the refreshed buffer holds a value of at most 1442 |
| Refresh.RefreshedValues | ParallelSeamCarving/parallel_seam_carving.c:245-295 | the energies a fault-free refresh as written leaves, the buffer `Pipeline.ResumeAsWritten` hands to the next pass: one per pixel, each at most 1442 |
| Refresh.RefreshedRow | ParallelSeamCarving/parallel_seam_carving.c:256-289 | the as-written refresh fills each row of the new width |
| Refresh.Refreshed | ParallelSeamCarving/parallel_seam_carving.c:245-295 | the as-written refresh fills a buffer of one cell per pixel of the new image |
| Refresh.RefreshedAt | ParallelSeamCarving/parallel_seam_carving.c:268-288 | in a safe refresh, a kept pixel's new cell holds what its own iteration wrote |
| Refresh.RowStoreStep | ParallelSeamCarving/parallel_seam_carving.c:268-288 | after the store of column x, the cells of the row up to x + 1 minus the seams left of x + 1 hold their refreshed values; that end never moves back and stays inside the row |
| Refresh.NewBands | ParallelSeamCarving/parallel_seam_carving.c:249-250 | the bands of the new image are sw − 1 wide and lie inside it |
| Refresh.WrittenFixed | ParallelSeamCarving/parallel_seam_carving.c:279-288 | the store of the corrected refresh, with the band limits of the new image; `Refresh.WrittenFixedCases` gives its two cases and `Refresh.WrittenFixedBounded` its bound |
| Refresh.WrittenFixedCases | ParallelSeamCarving/parallel_seam_carving.c:279-288 | the corrected refresh recomputes from readable limits of the new band, or copies |
| Refresh.RowStoreStepFixed | ParallelSeamCarving/parallel_seam_carving.c:268-288 | a corrected store keeps the prefix written so far |
| Refresh.FixedReadable | ParallelSeamCarving/parallel_seam_carving.c:279-284 | with clamp limits inside the new image, every kernel read is readable |
| Refresh.RefreshedFixedRow | ParallelSeamCarving/parallel_seam_carving.c:256-289 | the corrected refresh fills each row of the new width |
| Refresh.RefreshedFixed | ParallelSeamCarving/parallel_seam_carving.c:245-295 | the corrected refresh fills a buffer of one cell per pixel |
| Refresh.RefreshedFixedAt | ParallelSeamCarving/parallel_seam_carving.c:268-288 | each kept pixel's value lands at its column in the new image, and that cell is inside the buffer |
| Refresh.RecalculateNearSeam | ParallelSeamCarving/parallel_seam_carving.c:264-276 | a pixel is recomputed exactly when it is within one column of its own band's seam in the row above, its own row or the row below; other bands' seams play no part |
| Refresh.KeptInNewBand | ParallelSeamCarving/parallel_seam_carving.c:258-270 | the new column of a kept pixel lies in the same band of the new image |
| Refresh.CopiedWhenFar | ParallelSeamCarving/parallel_seam_carving.c:285-288 | a pixel away from the seams keeps its old energy, in both refreshes |
| Refresh.RecomputedWhenNear | ParallelSeamCarving/parallel_seam_carving.c:279-284 | a pixel near a seam gets the energy of the new image, clamped to its new band |
| Refresh.WrittenFixedBounded | ParallelSeamCarving/parallel_seam_carving.c:279-288 | a corrected value is at most 1442 when the old field is |
| Refresh.RefreshedFixedCellBounded | ParallelSeamCarving/parallel_seam_carving.c:247-294 | any cell of the corrected buffer is at most 1442 |
| Refresh.RefreshedFixedBounded | ParallelSeamCarving/parallel_seam_carving.c:247-294 | every cell of the corrected buffer is at most 1442 |
| Refresh.LastColumn | ParallelSeamCarving/parallel_seam_carving.c:258-270 | when the last band's seam takes the old last column of a row, the last two old columns lie in the last band and move left by k − 1 |
| Refresh.LastColumnSeamReadsNull | ParallelSeamCarving/parallel_seam_carving.c:279-284 | with the last band's seam in the last old column of row y, the pixel beside it reads NULL and the as-written refresh faults |
| Refresh.LastRowSeamStoresPastBuffer | ParallelSeamCarving/parallel_seam_carving.c:268-283 | with that seam in the bottom row, the as-written store index is w × h, one past the new buffer, and the refresh is unsafe |
| Refresh.StaleCopyExample | ParallelSeamCarving/parallel_seam_carving.c:273-288 | a pixel beside the next band's seam, and not beside its own band's seam, is copied rather than recomputed |
| Pipeline.CheckArgs | ParallelSeamCarving/parallel_seam_carving.c:612-621 | a run is accepted exactly when 0 ≤ seamCount < width and k divides both; the seam-count error comes first |
| Pipeline.SeamsInBands | ParallelSeamCarving/parallel_seam_carving.c:466-511 | for bounded costs, every traced seam lies in its band |
| Pipeline.PassSeams | ParallelSeamCarving/parallel_seam_carving.c:649-656 | a pass finds k seams, in their bands, that can be removed together |
| Pipeline.Carve | ParallelSeamCarving/parallel_seam_carving.c:662 | a pass leaves a valid image k columns narrower, still a multiple of k wide |
| Pipeline.NextEnergy | ParallelSeamCarving/parallel_seam_carving.c:640-641 | the refreshed energies fit the carved image and stay at most 1442 |
| Pipeline.RefreshHandOff | ParallelSeamCarving/parallel_seam_carving.c:640-662 | the refresh of the next pass gets the carved image, the old energies and the pass's seams, and gives the next energies |
| Pipeline.Run | ParallelSeamCarving/parallel_seam_carving.c:634-669 | the passes keep the image valid, its height and its channel count |
| Pipeline.RunWidth | ParallelSeamCarving/parallel_seam_carving.c:634-669 | n passes remove n × k columns, and every pass keeps the width a multiple of k |
| Pipeline.PassKeepsReady | ParallelSeamCarving/parallel_seam_carving.c:634-669 | a pass leaves what the remaining passes need |
| Pipeline.RunStep | ParallelSeamCarving/parallel_seam_carving.c:634-669 | n passes are one pass followed by n − 1 |
| Pipeline.AcceptedRun | ParallelSeamCarving/parallel_seam_carving.c:612-669 | an accepted seam count can run all its passes and removes exactly seamCount columns |
| Pipeline.Process | ParallelSeamCarving/parallel_seam_carving.c:612-669 | the image of the corrected passes is seamCount columns narrower, with the same height and channels |
| Pipeline.PassPending | ParallelSeamCarving/parallel_seam_carving.c:640-662 | after a pass, the refresh as written is handed the carved image, the old energies and the pass's seams |
| Pipeline.RefreshKeepsReady | ParallelSeamCarving/parallel_seam_carving.c:640-643 | a fault-free refresh as written leaves energies the remaining passes can start from |
| Pipeline.RunAsWritten | ParallelSeamCarving/parallel_seam_carving.c:634-669 | when no refresh faults, n passes as written leave a valid image n × k columns narrower, as high and with as many channels |
| Pipeline.ResumeAsWritten | ParallelSeamCarving/parallel_seam_carving.c:634-669 | the passes after a carved pass, each starting with the refresh as written, leave such an image unless a refresh faults |
| Pipeline.FirstPassAgrees | ParallelSeamCarving/parallel_seam_carving.c:634-669 | a single pass, with no refresh before it, leaves the same image as written and corrected |
| Pipeline.RefreshFaults | ParallelSeamCarving/parallel_seam_carving.c:640-643 | some iteration of the refresh as written after a pass faults; `Pipeline.FaultEndsRun` shows the run then has no image |
| Pipeline.FaultEndsRun | ParallelSeamCarving/parallel_seam_carving.c:640-643 | a refresh that faults after the first pass leaves no image, whatever passes follow |
| Pipeline.PassCount | ParallelSeamCarving/parallel_seam_carving.c:618-621 | an accepted seam count is seamCount / k passes of k seams |
| Pipeline.ProcessAsWritten | ParallelSeamCarving/parallel_seam_carving.c:612-669 | `main` as written, when no refresh faults, writes out an image seamCount columns narrower |
| Carver.ImageProcessData.constructor | ParallelSeamCarving/parallel_seam_carving.c:597-604 | the decoded image, no energy or cost buffer yet, and k empty seams |
| Carver.ImageProcessData.SamplePixel | ParallelSeamCarving/parallel_seam_carving.c:155-167 | one channel read through `getPixelE` is the sample of the model |
| Carver.ImageProcessData.ChannelMagnitude | ParallelSeamCarving/parallel_seam_carving.c:155-169 | one channel's Sobel magnitude |
| Carver.ImageProcessData.CalculatePixelEnergyStripe | ParallelSeamCarving/parallel_seam_carving.c:150-173 | the loop over channels computes the pixel energy, at most 1442 |
| Carver.ImageProcessData.CalculatePixelEnergy | ParallelSeamCarving/parallel_seam_carving.c:175-179 | the energy with the whole width as clamp range, which is always readable |
| Carver.ImageProcessData.CalculateEnergyFull | ParallelSeamCarving/parallel_seam_carving.c:223-242 | a fresh energy buffer equal to the energy field; nothing else changes |
| Carver.ImageProcessData.EnergyBuffer | ParallelSeamCarving/parallel_seam_carving.c:226-241 | the two loops fill a fresh buffer with the energy field |
| Carver.ImageProcessData.EnergyRow | ParallelSeamCarving/parallel_seam_carving.c:235-240 | one row extends the filled prefix by that row |
| Carver.ImageProcessData.SeamIdentification | ParallelSeamCarving/parallel_seam_carving.c:343-378 | a fresh cost buffer equal to the cost field; nothing else changes |
| Carver.ImageProcessData.CostBuffer | ParallelSeamCarving/parallel_seam_carving.c:352-377 | bottom row, then the rows above, fill a fresh buffer with the cost field |
| Carver.ImageProcessData.CostRowPass | ParallelSeamCarving/parallel_seam_carving.c:366-376 | one row makes the cost buffer final from that row down |
| Carver.ImageProcessData.FillBottomRow | ParallelSeamCarving/parallel_seam_carving.c:356-359 | the bottom row becomes final and nothing above it changes |
| Carver.ImageProcessData.TriangleSeamIdentification | ParallelSeamCarving/parallel_seam_carving.c:381-458 | the corrected tiled pass yields exactly the cost field |
| Carver.ImageProcessData.TiledBuffer | ParallelSeamCarving/parallel_seam_carving.c:387-457 | whatever the fresh buffer held, the corrected strip loop leaves the cost field |
| Carver.ImageProcessData.TriangleSeamIdentificationAsWritten | ParallelSeamCarving/parallel_seam_carving.c:381-458 | the tiled pass as written yields the as-written tiled buffer |
| Carver.ImageProcessData.TiledBufferAsWritten | ParallelSeamCarving/parallel_seam_carving.c:387-457 | the as-written strip loop over the uninitialised buffer leaves the as-written tiled buffer |
| Carver.ImageProcessData.StripPass | ParallelSeamCarving/parallel_seam_carving.c:399-456 | one strip makes 15 more rows final and leaves the rows below it unchanged |
| Carver.ImageProcessData.UpTriangle | ParallelSeamCarving/parallel_seam_carving.c:404-425 | one up triangle becomes final |
| Carver.ImageProcessData.UpRow | ParallelSeamCarving/parallel_seam_carving.c:406-424 | one row of an up triangle becomes final |
| Carver.ImageProcessData.DownTriangle | ParallelSeamCarving/parallel_seam_carving.c:433-456 | one down triangle becomes final |
| Carver.ImageProcessData.DownRow | ParallelSeamCarving/parallel_seam_carving.c:435-455 | one row of a down triangle becomes final |
| Carver.ImageProcessData.StoreCellCost | ParallelSeamCarving/parallel_seam_carving.c:368-375 | with the row below final, the store writes exactly the cell's final cost and nothing else |
| Carver.ImageProcessData.SeamAnnotate | ParallelSeamCarving/parallel_seam_carving.c:461-513 | the seam table holds the traced seam of every band |
| Carver.ImageProcessData.SeamRemove | ParallelSeamCarving/parallel_seam_carving.c:516-556 | a fresh image, k columns narrower, holding the carved image |
| Carver.ImageProcessData.UpdateEnergyOnSeam | ParallelSeamCarving/parallel_seam_carving.c:245-295 | the as-written refresh succeeds exactly when no iteration faults, and then gives a fresh buffer equal to the refreshed field |
| Carver.ImageProcessData.RefreshBuffer | ParallelSeamCarving/parallel_seam_carving.c:247-292 | the loops fill a fresh buffer with the refreshed field unless an iteration faults |
| Carver.ImageProcessData.RefreshRow | ParallelSeamCarving/parallel_seam_carving.c:256-289 | one row of the as-written refresh; it succeeds exactly when the row is safe |
| Carver.ImageProcessData.RefreshStore | ParallelSeamCarving/parallel_seam_carving.c:268-289 | one iteration, which succeeds exactly when it is safe |
| Carver.ImageProcessData.StoreWritten | ParallelSeamCarving/parallel_seam_carving.c:279-288 | the store of a safe iteration extends the written prefix |
| Carver.ImageProcessData.RefreshCell | ParallelSeamCarving/parallel_seam_carving.c:258-288 | the destination index and the value the iteration computes |
| Carver.ImageProcessData.UpdateEnergyOnSeamFixed | ParallelSeamCarving/parallel_seam_carving.c:245-295 | the corrected refresh gives a fresh buffer equal to the corrected refreshed field |
| Carver.ImageProcessData.RefreshBufferFixed | ParallelSeamCarving/parallel_seam_carving.c:247-292 | the corrected loops fill a fresh buffer with the corrected field |
| Carver.ImageProcessData.RefreshRowFixed | ParallelSeamCarving/parallel_seam_carving.c:256-289 | one row of the corrected refresh becomes final |
| Carver.ImageProcessData.RefreshStoreFixed | ParallelSeamCarving/parallel_seam_carving.c:268-289 | one corrected iteration: a seam column stores nothing, a kept column extends the written prefix |
| Carver.ImageProcessData.StoreWrittenFixed | ParallelSeamCarving/parallel_seam_carving.c:279-288 | a kept column's store extends the written prefix by one |
| Carver.ImageProcessData.RefreshCellFixed | ParallelSeamCarving/parallel_seam_carving.c:258-288 | the destination index and the value of the corrected iteration |
| Carver.ImageProcessData.CarvePass | ParallelSeamCarving/parallel_seam_carving.c:647-662 | one pass carves the image as `Pipeline.Carve` does, and leaves the refresh of the next pass pending |
| Carver.ImageProcessData.RefreshStage | ParallelSeamCarving/parallel_seam_carving.c:640-643 | the pending refresh brings the energy buffer up to date |
| Carver.ImageProcessData.FindSeams | ParallelSeamCarving/parallel_seam_carving.c:649-656 | the seam table holds the pass's seams |
| Carver.ImageProcessData.RemoveSeams | ParallelSeamCarving/parallel_seam_carving.c:662 | the image becomes the carved image of the pass |
| Carver.ImageProcessData.CarveSeams | ParallelSeamCarving/parallel_seam_carving.c:612-669 | a rejected count leaves the whole state, the image included, unchanged and valid; an accepted count leaves the image of the corrected passes, seamCount columns narrower |
| Carver.ImageProcessData.PassLoop | ParallelSeamCarving/parallel_seam_carving.c:634-669 | the loop leaves the image `Pipeline.Run` computes |
| Carver.ImageProcessData.PassIteration | ParallelSeamCarving/parallel_seam_carving.c:640-662 | one iteration is one pass of `Pipeline.Run`, with the refresh first on every pass but the first |
| Carver.ImageProcessData.RefreshStageAsWritten | ParallelSeamCarving/parallel_seam_carving.c:640-643 | the refresh as written succeeds exactly when no iteration faults; a fault leaves the run without an image, and success leaves the energies the rest of the run starts from |
| Carver.ImageProcessData.PassIterationAsWritten | ParallelSeamCarving/parallel_seam_carving.c:640-662 | one iteration of the loop as written: a faulting refresh means the run has no image, else the pass is carved and the next refresh is pending |
| Carver.ImageProcessData.PassLoopAsWritten | ParallelSeamCarving/parallel_seam_carving.c:634-669 | the loop as written stops exactly when the passes as written have no image, and otherwise leaves their image |
| Carver.ImageProcessData.CarveSeamsAsWritten | ParallelSeamCarving/parallel_seam_carving.c:612-669 | a rejected count leaves the whole state, the image included, unchanged; an accepted one runs the passes as written: the run reaches the end exactly when `Pipeline.ProcessAsWritten` has an image, and leaves that image |
| Carver.CarveImage | ParallelSeamCarving/parallel_seam_carving.c:520-546 | the copy loops fill a fresh image with the carved image |
| Carver.CarveRow | ParallelSeamCarving/parallel_seam_carving.c:529-546 | one row extends the copied prefix by the carved row |
| Carver.CopyPixel | ParallelSeamCarving/parallel_seam_carving.c:536-541 | the channel loop copies one pixel's bytes |
| Carver.TopRowMin | ParallelSeamCarving/parallel_seam_carving.c:478-487 | the scan finds the leftmost minimum of the band's top row |
| Carver.TraceBand | ParallelSeamCarving/parallel_seam_carving.c:476-511 | the loop traces the band's seam |
| Carver.StepBelow | ParallelSeamCarving/parallel_seam_carving.c:494-506 | one step of the tracer |

## Left out

- Image decoding and encoding (`stbi_load`, `stbi_write_png`), reading the arguments (lines 583-593), timing (`omp_get_wtime`, `TimingStats`), the loading bar (`updatePrintLoadingBar`), the debug image (`outputDebugImage`) and every `printf`: these are input and output. `CarveSeams` takes the decoded image and the seam count as parameters.
- The OpenMP pragmas. The source runs sequentially, since every `#pragma omp` is commented out, and the model follows its loop order. The refresh depends on that order: in `updateEnergyOnSeam` a seam pixel's store and the next column's store go to the same new cell, and the later store wins (`Refresh.RefreshedRow`, `Refresh.RowStoreStep`).
- `malloc` and `free`: a fresh buffer is a fresh Dafny array. The uninitialised contents of the tiled cost buffer are a `junk` parameter of the as-written tiled pass.
- Carver.ImageProcessData.constructor: `main` allocates the seam table with `malloc` and leaves its k pointers uninitialised (line 601); the first `seamAnnotate` then tests and frees those pointers (lines 472-474), which is undefined behaviour. The constructor starts from k empty seams instead.
- `updateEnergyOnSeamUpgrade` (lines 297-340): `main` does not call it.
- `triangleSeamIdentification` is modelled, but the pass loop uses `seamIdentification`, as `main` does.
- Sobel.FloorSqrt: `sqrt` is floating point, and line 169 adds its result to an `int`, which truncates. Both are modelled as the integer square root. The radicand is at most 2 × 1020², far from rounding trouble.
- Index products (`y * width + x` in `unsigned int`, `int` widths) are unbounded integers. Images are assumed small enough not to wrap.
- Carver.ImageProcessData.UpdateEnergyOnSeam: when an iteration reads NULL or stores past the buffer, the C behaviour is undefined. The model reports `ok == false` and keeps the old buffer.
- Carver.ImageProcessData.UpdateEnergyOnSeam: requires every seam inside its band (`InBands`). That holds after every pass of `main` (`Pipeline.SeamsInBands`); other seam tables are not modelled.
- Carver.ImageProcessData.CarveSeams: requires 1442 × height ≤ `INT_MAX`, which the source does not check. Taller images could let a cost reach the `INT_MAX` that marks cells outside the band, and a seam could then leave its band.
- Carver.ImageProcessData.CarveSeamsAsWritten: the same 1442 × height ≤ `INT_MAX` requirement.
- Pipeline.Process: the same 1442 × height ≤ `INT_MAX` requirement, as do `Pipeline.PassReady` and `Pipeline.RunReady`.
- Pipeline.ProcessAsWritten: the same 1442 × height ≤ `INT_MAX` requirement.
- Pipeline.Run: the same 1442 × height ≤ `INT_MAX` requirement, through `Pipeline.RunReady`.
- Pipeline.RunAsWritten: the same 1442 × height ≤ `INT_MAX` requirement, through `Pipeline.RunReady`.
- Pipeline.Run: its passes, and those of `Carver.ImageProcessData.PassLoop`, use the corrected refresh, because the as-written one can fault (see Findings).
- Pipeline.NextEnergy: the energies of the corrected refresh. Line 641 runs the refresh as written, which clamps recomputed pixels to old-coordinate band limits, so its values differ even where it does not fault; `Pipeline.ResumeAsWritten` uses those.
- Pipeline.Process: the image of the corrected passes, not the image `main` as written writes out; that outcome is `Pipeline.ProcessAsWritten`.
- Carver.ImageProcessData.PassLoop: runs the corrected refresh on every pass but the first, and leaves the image of `Pipeline.Run`; `Carver.ImageProcessData.PassLoopAsWritten` is the loop as written.
- Carver.ImageProcessData.RefreshStage: runs the corrected refresh where line 641 runs the as-written one; `Carver.ImageProcessData.RefreshStageAsWritten` runs that.
- Carver.ImageProcessData.PassIteration: one corrected pass; `Carver.ImageProcessData.PassIterationAsWritten` is the pass as written.
- Carver.ImageProcessData.CarveSeams: leaves the image of the corrected passes; `Carver.ImageProcessData.CarveSeamsAsWritten` is `main` as written, whose refreshes can fault.
- Carver.ImageProcessData.SeamRemove: requires k < width and seams that are sorted and in the image, as every pass of `main` provides.
- Refresh.CopiedWhenFar: a copied energy can be stale. A pixel next to a seam of a neighbouring band, but not next to its own band's seam, may be copied (`Refresh.StaleCopyExample`). The model states the field the source computes; it does not claim it equals a full recompute.
- `SIM_NUM_SEAM_REMOVAL` is the parameter k > 0. `STRIP_HEIGHT` stays at 15, with triangles 30 columns wide.

## Findings

| source | as written | input that shows it | evidently intended | confidence | as-written member | corrected member |
|---|---|---|---|---|---|---|
| ParallelSeamCarving/parallel_seam_carving.c:171 | `energy` is divided by the channel count while `energy` is still uninitialised; the summed `energyTotal` is never used | one-row, one-channel images [0, 0, 255] and [0, 0, 0]: their middle energies are 1020 and 0, but the as-written value is the same garbage for both | `energyTotal / channelCount` | not executed | Sobel.AsWrittenIgnoresGradient | Carver.ImageProcessData.CalculatePixelEnergyStripe |
| ParallelSeamCarving/parallel_seam_carving.c:397 | the strip loop runs while `stripBottom > 0`, so when height − 2 is a multiple of 15 the strip ending at row 0 is skipped and the top row keeps the `malloc` contents | a 1 × 2 image with energies [5, 7] and a zeroed buffer: the top cost should be 12 but stays 0 | `stripBottom >= 0` | not executed | Tiles.TwoRowImageSkipsTopRow | Carver.ImageProcessData.TriangleSeamIdentification |
| ParallelSeamCarving/parallel_seam_carving.c:258-283 | a recomputed pixel moves to its new column, but is clamped to its band's limits in old coordinates. The last band's upper limit is the old width, past the new image. | the last band's seam in the last old column of a row: the pixel beside it is recomputed at the last new column, its right neighbour, new column w, clamps under the old limits to a column at least w, past the carved row, and `getPixelE` returns NULL, whose `[rgbChannel]` subscript lines 155-167 dereference | the band limits of the new image, (sw − 1) columns per band | not executed | Refresh.LastColumnSeamReadsNull | Refresh.RecomputedWhenNear |
| ParallelSeamCarving/parallel_seam_carving.c:268-288 | the seam pixel itself is stored too, at its own column minus the seams before it | the last band's seam in the last old column of the bottom row: the store index is width × height, one past the new buffer. In C's order the same row's iteration at old column w + k − 2 reads NULL first (the defect of lines 258-283, `Refresh.LastColumnSeamReadsNull` with y = h − 1), so the store past the buffer is reached only once that read is fixed | seam pixels are skipped, so every store lands inside the new image | not executed | Refresh.LastRowSeamStoresPastBuffer | Refresh.KeptInNewBand |
