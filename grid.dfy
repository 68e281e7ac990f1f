/** The pixel grid as a value: rows of pixels, its left border column,
    the two uniformity tests and the two collapses, and how the
    collapses interact with what the other axis reads. */
module Grid {
  import opened Shift
  import opened Border

  /** Row-major pixels: g[y][x]. */
  type Image = seq<seq<Pixel>>

  function Width(g: Image): nat {
    if |g| == 0 then 0 else |g[0]|
  }

  /** All rows have the same length. */
  ghost predicate IsRect(g: Image) {
    forall k :: 0 <= k < |g| ==> |g[k]| == Width(g)
  }

  /** A decoded picture: rectangular, with at least one row and one column. */
  ghost predicate IsImage(g: Image) {
    IsRect(g) && |g| >= 1 && Width(g) >= 1
  }

  /** Every row is at least n pixels long. */
  ghost predicate RowsReach(g: Image, n: nat) {
    forall k :: 0 <= k < |g| ==> n <= |g[k]|
  }

  /** The left border: column 0, top to bottom. */
  function Side(g: Image): (r: seq<Pixel>)
    requires IsImage(g)
    ensures |r| == |g|
    ensures forall k :: 0 <= k < |g| ==> r[k] == g[k][0]
  {
    seq(|g|, k requires 0 <= k < |g| && |g[k]| > 0 => g[k][0])
  }

  /** In every row, the pixels in columns [start, end) equal the one in column start. */
  ghost predicate ColumnsUniform(g: Image, start: nat, end: nat)
    requires RowsReach(g, end)
  {
    forall k, i :: 0 <= k < |g| && start <= i < end ==> g[k][i] == g[k][start]
  }

  /** In every column below Width(g), the pixels in rows [start, end) equal the one in row start. */
  ghost predicate RowsUniform(g: Image, start: nat, end: nat)
    requires IsRect(g) && end <= |g|
  {
    forall c, i :: 0 <= c < Width(g) && start <= i < end ==> g[i][c] == g[start][c]
  }

  /** Every row after the in-place column collapse (stale tails kept). */
  function CollapseColumns(g: Image, start: nat, end: nat): (r: Image)
    requires start < end && RowsReach(g, end)
    ensures |r| == |g|
    ensures forall k :: 0 <= k < |g| ==> r[k] == Collapse(g[k], start, end)
    ensures IsRect(g) ==> IsRect(r) && Width(r) == Width(g)
  {
    seq(|g|, k requires 0 <= k < |g| && start < end <= |g[k]| => Collapse(g[k], start, end))
  }

  /** Every row with the interior of the column span removed. */
  function SqueezeColumns(g: Image, start: nat, end: nat): (r: Image)
    requires start < end && RowsReach(g, end)
    ensures |r| == |g|
    ensures forall k :: 0 <= k < |g| ==> r[k] == Squeeze(g[k], start, end)
    ensures IsRect(g) && |g| > 0 ==> IsRect(r) && Width(r) == Width(g) - (end - start - 1)
  {
    seq(|g|, k requires 0 <= k < |g| && start < end <= |g[k]| => Squeeze(g[k], start, end))
  }

  /** Every row with column start re-stretched to n columns. */
  function ExpandColumns(g: Image, start: nat, n: nat): (r: Image)
    requires n >= 1 && RowsReach(g, start + 1)
    ensures |r| == |g|
    ensures forall k :: 0 <= k < |g| ==> r[k] == Expand(g[k], start, n)
  {
    seq(|g|, k requires 0 <= k < |g| && start < |g[k]| => Expand(g[k], start, n))
  }

  /** The top-left h x w corner: what is kept once the reported size truncates the grid. */
  function Crop(g: Image, w: nat, h: nat): (r: Image)
    requires h <= |g| && RowsReach(g, w)
    ensures |r| == h
    ensures forall k :: 0 <= k < h ==> r[k] == g[k][..w]
  {
    seq(h, k requires 0 <= k < h && w <= |g[k]| => g[k][..w])
  }

  /** A column collapse only writes columns after start, so column 0 is untouched;
      the same holds for the squeezed view. */
  lemma SideAfterColumnCollapse(g: Image, start: nat, end: nat)
    requires IsImage(g) && start < end <= Width(g)
    ensures IsImage(CollapseColumns(g, start, end)) && Side(CollapseColumns(g, start, end)) == Side(g)
    ensures IsImage(SqueezeColumns(g, start, end)) && Side(SqueezeColumns(g, start, end)) == Side(g)
  {
  }

  /** The left border of a grid whose rows were squeezed is the squeezed left border. */
  lemma SideAfterRowSqueeze(g: Image, start: nat, end: nat)
    requires IsImage(g) && start < end <= |g|
    ensures IsImage(Squeeze(g, start, end))
    ensures Side(Squeeze(g, start, end)) == Squeeze(Side(g), start, end)
  {
    var t := Squeeze(g, start, end);
    assert t[0] == g[0];
    assert forall k :: 0 <= k < |t| ==> t[k] in g;
  }

  /** Rows uniform over the full width means the rows themselves are equal. */
  lemma RowsUniformMeansEqualRows(g: Image, start: nat, end: nat)
    requires IsRect(g) && end <= |g| && RowsUniform(g, start, end)
    ensures Uniform(g, start, end)
  {
    forall i | start <= i < end
      ensures g[i] == g[start]
    {
      assert |g[i]| == |g[start]| == Width(g);
      assert forall c :: 0 <= c < Width(g) ==> g[i][c] == g[start][c];
    }
  }

  /** After a uniform column span is collapsed in place, comparing rows over the
      full original width (stale tail included) decides the same as comparing
      them over the kept width only. */
  lemma StaleTailHarmless(g: Image, ts: nat, te: nat, start: nat, end: nat)
    requires IsImage(g) && ts < te <= Width(g) && ColumnsUniform(g, ts, te)
    requires end <= |g|
    ensures RowsUniform(CollapseColumns(g, ts, te), start, end)
        <==> RowsUniform(SqueezeColumns(g, ts, te), start, end)
  {
    var full := CollapseColumns(g, ts, te);
    var kept := SqueezeColumns(g, ts, te);
    var d := te - ts - 1;
    var w := Width(g);
    assert Width(kept) == w - d;
    forall k, c | 0 <= k < |g| && 0 <= c < w - d
      ensures full[k][c] == kept[k][c]
    {
      assert full[k][..w - d] == kept[k];
    }
    if RowsUniform(kept, start, end) {
      forall c, i | 0 <= c < w && start <= i < end
        ensures full[i][c] == full[start][c]
      {
        if c >= w - d {
          // A stale column: it is an original column from ts + 1 onwards.
          assert full[i][c] == g[i][c] && full[start][c] == g[start][c];
          if c < te {
            assert g[i][c] == g[i][ts] == kept[i][ts];
            assert g[start][c] == g[start][ts] == kept[start][ts];
          } else {
            assert g[i][c] == kept[i][c - d];
            assert g[start][c] == kept[start][c - d];
          }
        }
      }
    }
  }

  /** Deleting rows that duplicate row start does not change whether a column span is uniform. */
  lemma ColumnsUniformAfterRowSqueeze(g: Image, start: nat, end: nat, ts: nat, te: nat)
    requires IsImage(g) && start < end <= |g| && RowsUniform(g, start, end)
    requires te <= Width(g)
    ensures RowsReach(Squeeze(g, start, end), te)
    ensures ColumnsUniform(Squeeze(g, start, end), ts, te) <==> ColumnsUniform(g, ts, te)
  {
    var t := Squeeze(g, start, end);
    var d := end - start - 1;
    RowsUniformMeansEqualRows(g, start, end);
    if ColumnsUniform(t, ts, te) {
      forall k, i | 0 <= k < |g| && ts <= i < te
        ensures g[k][i] == g[k][ts]
      {
        if k <= start {
          assert g[k] == t[k];
        } else if k < end {
          assert g[k] == g[start] == t[start];
        } else {
          assert g[k] == t[k - d];
        }
      }
    }
  }

  /** Re-stretching a squeezed uniform column span gives back every row. */
  lemma ExpandSqueezedColumns(g: Image, start: nat, end: nat)
    requires IsImage(g) && start < end <= Width(g) && ColumnsUniform(g, start, end)
    ensures RowsReach(SqueezeColumns(g, start, end), start + 1)
    ensures ExpandColumns(SqueezeColumns(g, start, end), start, end - start) == g
  {
    var r := ExpandColumns(SqueezeColumns(g, start, end), start, end - start);
    forall m | 0 <= m < |g|
      ensures r[m] == g[m]
    {
      assert Uniform(g[m], start, end);
      ExpandSqueeze(g[m], start, end);
    }
  }

  /** Re-stretching a row of a picture leaves a picture of the same width. */
  lemma ExpandImage(g: Image, start: nat, n: nat)
    requires IsImage(g) && start < |g| && n >= 1
    ensures IsImage(Expand(g, start, n)) && Width(Expand(g, start, n)) == Width(g)
  {
    var r := Expand(g, start, n);
    forall k | 0 <= k < |r|
      ensures |r[k]| == Width(g)
    {
      ExpandAt(g, start, n, k);
    }
    ExpandAt(g, start, n, 0);
  }

  /** Re-stretching a squeezed uniform row span gives back the grid. */
  lemma ExpandSqueezedRows(g: Image, start: nat, end: nat)
    requires IsImage(g) && start < end <= |g| && RowsUniform(g, start, end)
    ensures Expand(Squeeze(g, start, end), start, end - start) == g
  {
    RowsUniformMeansEqualRows(g, start, end);
    ExpandSqueeze(g, start, end);
  }

  /** Cropping a rectangular grid to its own size changes nothing. */
  lemma CropWhole(g: Image)
    requires IsRect(g)
    ensures RowsReach(g, Width(g)) && Crop(g, Width(g), |g|) == g
  {
    var c := Crop(g, Width(g), |g|);
    forall m | 0 <= m < |g|
      ensures c[m] == g[m]
    {
      assert g[m][..Width(g)] == g[m];
    }
  }

  /** The kept columns of an in-place column collapse are the squeezed rows. */
  lemma CropCollapsedColumns(g: Image, start: nat, end: nat)
    requires IsRect(g) && |g| > 0 && start < end <= Width(g)
    ensures var w := Width(g) - (end - start - 1);
      RowsReach(CollapseColumns(g, start, end), w)
      && Crop(CollapseColumns(g, start, end), w, |g|) == SqueezeColumns(g, start, end)
  {
    var w := Width(g) - (end - start - 1);
    var full := CollapseColumns(g, start, end);
    var c := Crop(full, w, |g|);
    var kept := SqueezeColumns(g, start, end);
    forall m | 0 <= m < |g|
      ensures c[m] == kept[m]
    {
      assert full[m] == Collapse(g[m], start, end);
    }
  }

  /** If the top-left w columns of G are K, then after an in-place row
      collapse of G the kept rows of those columns are K squeezed. */
  lemma CropCollapsedRows(G: Image, K: Image, w: nat, start: nat, end: nat)
    requires RowsReach(G, w) && start < end <= |G| && Crop(G, w, |G|) == K
    ensures RowsReach(Collapse(G, start, end), w)
    ensures Crop(Collapse(G, start, end), w, |G| - (end - start - 1)) == Squeeze(K, start, end)
  {
    var out := Collapse(G, start, end);
    var d := end - start - 1;
    var c := Crop(out, w, |G| - d);
    var s := Squeeze(K, start, end);
    forall i | 0 <= i < |G| - d
      ensures c[i] == s[i]
    {
      if i > start {
        assert out[i] == G[i + d] && s[i] == K[i + d];
      } else {
        assert out[i] == G[i] && s[i] == K[i];
      }
    }
  }
}
