# Nine-patch shrinking, modelled in Dafny

This project models the optimisation pass of `ckitching/Main.java`. The pass shrinks a nine-patch
image. The top row and the left column of such an image carry a run of opaque-black marker
pixels (`ARGB_BLACK`, 0xFF000000). The run marks the part of the picture that a renderer stretches. When
every row of the picture is constant across the columns under the top run, those columns can be
collapsed to one. The same holds for the rows beside the left run. The picture is then re-stretched
to the same result, and the file gets smaller.

The model has five modules:

- `Shift` (shift.dfy) holds the sequence shapes behind the two collapses:
  - `Collapse` is what `System.arraycopy(s, end, s, start + 1, |s| - end)` leaves, stale tail included.
  - `Squeeze` is the kept part, with the interior of the span deleted.
  - `Expand` re-stretches a span.
- `Border` (border.dfy) holds the pixel type and the marker colour. A pixel is a Java `int`, so a
  signed 32-bit newtype. It also holds what a border line says: its first marker run (`SpanOf`,
  `IsSpanOf`) and whether it has a second, disjoint run (`TwoRuns`).
- `Grid` (grid.dfy) treats the picture as a value: `Image` is `seq<seq<Pixel>>` indexed `[y][x]`. It
  holds:
  - the left border `Side`;
  - the two uniformity tests;
  - the row-wise column collapse;
  - lemmas on how one axis's collapse affects what the other axis reads.
- `Pipeline` (pipeline.dfy) holds the whole pass as a function, `Optimised`. It follows the source step by step:
  - The guard runs first.
  - Next it finds and maybe collapses the top span.
  - Then it reads the side span from the grid as the column collapse left it.
  - Finally it maybe collapses the side span, comparing rows over the full array width.

  `Pipeline` also holds the intended result, `Shrunk`: the original grid with the interiors of its
  uniform spans deleted. The theorems tie the two together:
  - After a successful pass, the reported top-left corner is exactly `Shrunk` (`OptimisedKeepsShrunk`).
  - Re-stretching `Shrunk` restores the original pixel for pixel (`ShrunkRestores`).
  - Running the pass again on its own output reports the same size and changes nothing (`OptimiseIdempotent`).
- `NinePatch` (ninepatch.dfy) is the pass as the program runs it: in place, on an
  `array2<Pixel>`, with the same loops and early returns as the Java methods. `Rows(a)` reads the
  array as an `Image`.
  - Every method is proved against the value-level model.
  - `OptimisePixels` leaves the array equal to `Optimised(old(Rows(a))).image` and returns
    `Optimised(old(Rows(a))).outcome`.

The Java method returns `null` or a `java.awt.Point`. Here it returns an `Outcome`:
- `MultipleRegions` is the `null` return.
- `Resized(width, height)` is the returned point.
- `NoMarker(axis)` is the case where a border has no marker at all.

In the source, that last case makes the unbounded `while (true)` scans at lines 101-107 and 137-143
index past the end of the border, so the pass ends with an `ArrayIndexOutOfBoundsException`. The
model ends the pass there too, reporting `NoMarker`. On the vertical axis, the horizontal collapse
has already been applied to the array, and the model keeps that change, as the source does.

A gentler pass could skip only the axis without a marker and go on with the other one. The model
follows the code, where the pass ends at that point.

The source shares rows in `collapseRowRange` (array-of-arrays aliasing). The model copies the row
values instead. Nothing writes through the shared rows afterwards; they are only read (by the
flattening at lines 195-196), so the pixels read are the same.

## Model

| member | source | states |
|---|---|---|
| Shift.Squeeze | ckitching/Main.java:205-213 | the kept part of a collapsed line: positions up to start unchanged, later positions shifted by end - start - 1, length reduced by that amount |
| Shift.Collapse | ckitching/Main.java:207 | the in-place block move: same length, prefix through start kept, tail from end moved to start + 1, the last end - start - 1 places stale; its kept prefix is Squeeze |
| Shift.ExpandSqueeze | ckitching/Main.java:205-213 | for every line and every span whose elements all equal the first, re-stretching the squeezed line gives back the original line |
| Border.ArgbBlack | ckitching/Main.java:13 | the marker colour 0xFF000000 as a signed 32-bit value, -0x0100_0000 |
| Border.ArgbBlackBits | ckitching/Main.java:13 | the marker colour read as an unsigned 32-bit ARGB word is 0xFF000000: alpha 0xFF, red, green and blue 0 |
| Border.SpanOf | ckitching/Main.java:99-117 | the forward scan finds nothing exactly when the line has no marker, and otherwise finds the first marker run: no marker before it, only markers in it, a non-marker or the line's end after it |
| Border.SpanUnique | ckitching/Main.java:99-117 | the first marker run is unique: any span meeting that description is the one SpanOf finds |
| Border.NoMarkerAfterSpan | ckitching/Main.java:251-302 | on a line the guard accepts, no marker follows the first run |
| Border.SqueezeSpan | ckitching/Main.java:205-209 | collapsing the only marker run of a line leaves a one-pixel run at the same start and still a single run |
| Border.ScanStep | ckitching/Main.java:255-271 | one step of the guard's three-flag scan: how "seen a marker", "seen the end of it" and "seen a second run" grow with the next pixel |
| Border.TwoRunsInPrefix | ckitching/Main.java:267-270 | a second run found in a prefix of the line is a second run of the line, so the early return is right |
| Grid.Side | ckitching/Main.java:137-153 | the left border read by the side scan: pixel 0 of every row |
| Grid.CollapseColumns | ckitching/Main.java:205-209 | every row collapsed in place over the same span; rectangular grids stay rectangular with the same width |
| Grid.SqueezeColumns | ckitching/Main.java:205-209 | every row with the span's interior deleted; the width drops by end - start - 1 |
| Grid.Crop | ckitching/Main.java:193-200 | the top-left h x w corner, the part the flattened buffer keeps |
| Grid.SideAfterColumnCollapse | ckitching/Main.java:135-153 | the column collapse never writes column 0, so the side scan after it reads the original left border |
| Grid.SideAfterRowSqueeze | ckitching/Main.java:211-213 | deleting rows deletes the same entries from the left border |
| Grid.RowsUniformMeansEqualRows | ckitching/Main.java:231-245 | rows that match column by column over the full width are equal rows |
| Grid.StaleTailHarmless | ckitching/Main.java:231-245 | after a uniform column collapse, comparing rows over the full width (stale tail included) decides the same as comparing only the kept columns |
| Grid.ColumnsUniformAfterRowSqueeze | ckitching/Main.java:215-229 | deleting rows that copy row start does not change whether a column span is uniform |
| Grid.ExpandSqueezedColumns | ckitching/Main.java:205-209 | re-stretching a collapsed uniform column span restores every row |
| Grid.ExpandSqueezedRows | ckitching/Main.java:211-213 | re-stretching a collapsed uniform row span restores the grid |
| Grid.CropWhole | ckitching/Main.java:193-200 | flattening with the grid's own size keeps every pixel |
| Grid.CropCollapsedColumns | ckitching/Main.java:205-209 | the kept columns of an in-place column collapse are the squeezed rows |
| Grid.CropCollapsedRows | ckitching/Main.java:211-213 | the kept rows of an in-place row collapse are the squeezed rows |
| Pipeline.ColumnStep | ckitching/Main.java:119-131 | the horizontal block leaves a picture of the same size with the same left border |
| Pipeline.RowStep | ckitching/Main.java:155-167 | the vertical block leaves a picture of the same size |
| Pipeline.Optimised | ckitching/Main.java:93-173 | the pass aborts exactly when a border has two runs, reports a missing marker exactly when the top border (then the left one) has none, leaves the grid untouched on abort or a missing top marker, leaves it as the horizontal step left it on a missing side marker, and reports a size within the grid's size |
| Pipeline.ShrinkColumns | ckitching/Main.java:119-131 | the intended column step: width reduced by end - start - 1 when the span collapses |
| Pipeline.ShrinkRows | ckitching/Main.java:155-167 | the intended row step: height reduced by end - start - 1 when the span collapses, width kept |
| Pipeline.Shrink | ckitching/Main.java:169-170 | both steps: width and height are the original ones minus the collapsed reductions |
| Pipeline.PlanOf | ckitching/Main.java:99-167 | the spans are the first marker runs of the original borders, and each collapses exactly when it is wider than one pixel and uniform |
| Pipeline.RestoreRows | ckitching/Main.java:211-213 | undoing the row step yields a picture of the same width |
| Pipeline.ColumnsInPlace | ckitching/Main.java:205-209 | the in-place column step keeps the grid's size |
| Pipeline.InPlace | ckitching/Main.java:205-213 | the in-place pass keeps the grid's size |
| Pipeline.InPlaceKeepsShrink | ckitching/Main.java:193-213 | the top-left corner of the in-place result is the intended result |
| Pipeline.OptimisedFollowsPlan | ckitching/Main.java:93-173 | a pass that reports a size read the spans of the original borders, and its result is the in-place application of that plan |
| Pipeline.OptimisedKeepsShrunk | ckitching/Main.java:93-173 | after a successful pass, the reported size is the intended result's size and the reported corner is the intended result |
| Pipeline.RestoreRowsOfShrink | ckitching/Main.java:211-213 | undoing the row step gives back the grid before it |
| Pipeline.RestoreColumnsOfShrink | ckitching/Main.java:205-209 | undoing the column step gives back the original grid |
| Pipeline.ShrunkRestores | ckitching/Main.java:93-173 | content preservation: re-stretching both spans of the shrunk grid gives back the original pixel for pixel |
| Pipeline.ShrunkIsFixedPoint | ckitching/Main.java:93-173 | the shrunk grid keeps one marker run per border and neither of its spans collapses again |
| Pipeline.OptimisedLeavesFixedPoint | ckitching/Main.java:93-173 | on such a grid the pass reports the full size and changes nothing |
| Pipeline.OptimiseIdempotent | ckitching/Main.java:93-173 | the pass run again on its own reported corner reports the same size and changes nothing |
| NinePatch.HasMultipleScalableRegions | ckitching/Main.java:251-302 | true exactly when row 0 or column 0 holds two disjoint marker runs |
| NinePatch.FindTopSpan | ckitching/Main.java:99-117 | None exactly when row 0 has no marker, otherwise the first marker run of row 0 |
| NinePatch.FindSideSpan | ckitching/Main.java:135-153 | None exactly when column 0 has no marker, otherwise the first marker run of column 0 |
| NinePatch.ColumnRangeMatches | ckitching/Main.java:215-229 | true exactly when in every row the columns of [start, end) equal column start |
| NinePatch.RowRangeMatches | ckitching/Main.java:231-245 | true exactly when in every column of the array the rows of [start, end) equal row start |
| NinePatch.CollapseRow | ckitching/Main.java:207 | row y becomes its in-place collapse and every other row is unchanged |
| NinePatch.CollapseColumnRange | ckitching/Main.java:205-209 | the array becomes every row collapsed in place over [start, end) |
| NinePatch.CopyRow | ckitching/Main.java:212 | row to takes the values of row from and every other row is unchanged |
| NinePatch.CollapseRowRange | ckitching/Main.java:211-213 | the array's rows become their in-place collapse over [start, end) |
| NinePatch.CollapseTopSpan | ckitching/Main.java:119-131 | the horizontal block leaves the grid ColumnStep describes and reports end - start - 1 removed columns exactly when the span collapses |
| NinePatch.CollapseSideSpan | ckitching/Main.java:155-167 | the vertical block leaves the grid RowStep describes and reports end - start - 1 removed rows exactly when the span collapses |
| NinePatch.OptimisePixels | ckitching/Main.java:93-173 | the in-place pass leaves the array and returns the outcome exactly as Optimised of the original grid |
| NinePatch.CollapseAndFlattenBuffer | ckitching/Main.java:193-200 | a fresh buffer of width * height pixels holding the top-left corner in row-major order |

## Left out

- `main`, `shrinkNinePatch`, `loadPixels` and `writeImage` are left out. They handle command-line arguments, PNG decoding and encoding, and file I/O. The model starts from the decoded pixel array.
- The diagnostics printed to `System.err` are left out. They change no state.
- Empty images are left out. Every method that reads row 0 or column 0 requires at least one row and one column, as the source indexes `pixels[0]` and `pixels[i][0]` unconditionally.
- `Pipeline.Optimised` and `NinePatch.OptimisePixels` report `NoMarker` where the source throws `ArrayIndexOutOfBoundsException`. Exceptions are not modelled. The outcome carries the axis on which the scan ran off, and the array is left as the source leaves it at that point.
- `NinePatch.CollapseRowRange` copies row values where the source makes rows share storage. Array-of-arrays aliasing is not modelled.
- `NinePatch.CollapseAndFlattenBuffer` does not model 32-bit overflow of `width * height`. The reported size never exceeds the decoded image's size, and the buffer length is taken as the mathematical product.
