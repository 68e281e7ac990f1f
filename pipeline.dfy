/** The optimisation pass as a function of the decoded grid: first the
    step-by-step account (Optimised) of what the in-place pass leaves
    behind, then the intended result (Shrunk: the original grid with the
    interiors of its uniform spans deleted), and the theorems that tie
    the two together, undo the shrink and make the pass idempotent. */
module Pipeline {
  import opened Shift
  import opened Border
  import opened Grid

  datatype Axis = Horizontal | Vertical

  /** What the pass reports: an abort for several marker runs, a border
      without any marker, or the size of the kept top-left corner. */
  datatype Outcome = MultipleRegions | NoMarker(axis: Axis) | Resized(width: nat, height: nat)

  /** An outcome with the whole grid as the pass leaves it (stale data included). */
  datatype Run = Run(outcome: Outcome, image: Image)

  /** The horizontal span is collapsed: it is wider than one pixel and uniform in every row. */
  ghost predicate CollapsesColumns(g: Image, top: Span)
    requires RowsReach(g, top.end)
  {
    top.end != top.start + 1 && ColumnsUniform(g, top.start, top.end)
  }

  /** The vertical span is collapsed: it is taller than one pixel and uniform in every column. */
  ghost predicate CollapsesRows(g: Image, side: Span)
    requires IsRect(g) && side.end <= |g|
  {
    side.end != side.start + 1 && RowsUniform(g, side.start, side.end)
  }

  /** The horizontal step: the grid after the column collapse, if it happens. */
  ghost function ColumnStep(g: Image, top: Span): (r: Image)
    requires IsImage(g) && top.start < top.end <= Width(g)
    ensures IsImage(r) && |r| == |g| && Width(r) == Width(g)
    ensures Side(r) == Side(g)
  {
    SideAfterColumnCollapse(g, top.start, top.end);
    if CollapsesColumns(g, top) then CollapseColumns(g, top.start, top.end) else g
  }

  /** The vertical step: the grid after the row collapse, if it happens. */
  ghost function RowStep(g: Image, side: Span): (r: Image)
    requires IsImage(g) && side.start < side.end <= |g|
    ensures IsImage(r) && |r| == |g| && Width(r) == Width(g)
  {
    if CollapsesRows(g, side) then Collapse(g, side.start, side.end) else g
  }

  /** The pass step by step: guard on the original borders, locate and
      maybe collapse the top span, then locate the side span on the
      grid as it now is and maybe collapse it. */
  ghost function Optimised(g: Image): (r: Run)
    requires IsImage(g)
    ensures IsImage(r.image) && |r.image| == |g| && Width(r.image) == Width(g)
    ensures r.outcome.MultipleRegions? <==> TwoRuns(g[0]) || TwoRuns(Side(g))
    ensures r.outcome == NoMarker(Horizontal)
        <==> !TwoRuns(g[0]) && !TwoRuns(Side(g)) && !HasMarker(g[0])
    ensures r.outcome == NoMarker(Vertical)
        <==> !TwoRuns(g[0]) && !TwoRuns(Side(g)) && HasMarker(g[0]) && !HasMarker(Side(g))
    ensures r.outcome.MultipleRegions? || r.outcome == NoMarker(Horizontal) ==> r.image == g
    ensures r.outcome == NoMarker(Vertical) ==> r.image == ColumnStep(g, SpanOf(g[0]).value)
    ensures r.outcome.Resized? ==>
      1 <= r.outcome.width <= Width(g) && 1 <= r.outcome.height <= |g|
  {
    if TwoRuns(g[0]) || TwoRuns(Side(g)) then Run(MultipleRegions, g)
    else if SpanOf(g[0]).None? then Run(NoMarker(Horizontal), g)
    else
      var top := SpanOf(g[0]).value;
      var g1 := ColumnStep(g, top);
      if SpanOf(Side(g1)).None? then Run(NoMarker(Vertical), g1)
      else
        var side := SpanOf(Side(g1)).value;
        var dx := if CollapsesColumns(g, top) then top.Reduction() else 0;
        var dy := if CollapsesRows(g1, side) then side.Reduction() else 0;
        Run(Resized(Width(g) - dx, |g| - dy), RowStep(g1, side))
  }

  /** Both borders carry a marker. */
  ghost predicate Framed(g: Image) {
    IsImage(g) && HasMarker(g[0]) && HasMarker(Side(g))
  }

  /** The spans of a framed grid and which of them are collapsed. */
  datatype Plan = Plan(top: Span, side: Span, columns: bool, rows: bool)

  /** A plan fits g: its spans lie inside the grid. */
  ghost predicate Fits(g: Image, p: Plan) {
    IsImage(g) && p.top.start < p.top.end <= Width(g) && p.side.start < p.side.end <= |g|
  }

  /** Columns first: the grid with the top span's interior deleted when the plan says so. */
  ghost function ShrinkColumns(g: Image, p: Plan): (r: Image)
    requires Fits(g, p)
    ensures IsImage(r) && |r| == |g|
    ensures Width(r) == Width(g) - (if p.columns then p.top.Reduction() else 0)
  {
    if p.columns then SqueezeColumns(g, p.top.start, p.top.end) else g
  }

  /** Then rows: the side span's interior deleted when the plan says so. */
  ghost function ShrinkRows(g: Image, p: Plan): (r: Image)
    requires IsImage(g) && p.side.start < p.side.end <= |g|
    ensures IsImage(r) && Width(r) == Width(g)
    ensures |r| == |g| - (if p.rows then p.side.Reduction() else 0)
  {
    if p.rows then
      SideAfterRowSqueeze(g, p.side.start, p.side.end);
      Squeeze(g, p.side.start, p.side.end)
    else g
  }

  /** Both steps, columns first. */
  ghost function Shrink(g: Image, p: Plan): (r: Image)
    requires Fits(g, p)
    ensures IsImage(r)
    ensures Width(r) == Width(g) - (if p.columns then p.top.Reduction() else 0)
    ensures |r| == |g| - (if p.rows then p.side.Reduction() else 0)
  {
    ShrinkRows(ShrinkColumns(g, p), p)
  }

  /** The plan the pass follows on g, with every span read from the ORIGINAL borders. */
  ghost function PlanOf(g: Image): (p: Plan)
    requires Framed(g)
    ensures Fits(g, p)
    ensures IsSpanOf(g[0], p.top) && IsSpanOf(Side(g), p.side)
    ensures p.columns <==> CollapsesColumns(g, p.top)
    ensures p.rows <==> CollapsesRows(ShrinkColumns(g, p), p.side)
  {
    var top := SpanOf(g[0]).value;
    var side := SpanOf(Side(g)).value;
    var columns := CollapsesColumns(g, top);
    var kept := if columns then SqueezeColumns(g, top.start, top.end) else g;
    Plan(top, side, columns, CollapsesRows(kept, side))
  }

  /** The intended result of the pass. */
  ghost function Shrunk(g: Image): (k: Image)
    requires Framed(g)
    ensures IsImage(k)
  {
    Shrink(g, PlanOf(g))
  }

  /** Undo the row step of Shrink: row side.start re-stretched to the span's height. */
  ghost function RestoreRows(k: Image, p: Plan): (r: Image)
    requires IsImage(k) && p.side.start < |k| && p.side.start < p.side.end
    ensures IsImage(r) && Width(r) == Width(k)
  {
    if p.rows then
      ExpandImage(k, p.side.start, p.side.end - p.side.start);
      Expand(k, p.side.start, p.side.end - p.side.start)
    else k
  }

  /** Undo the column step of Shrink: column top.start re-stretched to the span's width. */
  ghost function RestoreColumns(g: Image, p: Plan): Image
    requires IsImage(g) && p.top.start < Width(g) && p.top.start < p.top.end
  {
    if p.columns then ExpandColumns(g, p.top.start, p.top.end - p.top.start) else g
  }

  /** Re-stretch a shrunk grid: rows first, then columns (the reverse order of Shrink). */
  ghost function Restore(k: Image, p: Plan): Image
    requires IsImage(k) && p.side.start < |k| && p.top.start < Width(k)
    requires p.top.start < p.top.end && p.side.start < p.side.end
  {
    RestoreColumns(RestoreRows(k, p), p)
  }

  /** The grid the in-place column step leaves when it follows plan p.
      ColumnStep and RowStep decide each collapse from the grid at hand, as
      the pass does; ColumnsInPlace and InPlace take the decisions from a plan
      fixed up front, so that InPlaceKeepsShrink can be stated for any plan.
      OptimisedFollowsPlan shows the two agree on the plan PlanOf(g). */
  ghost function ColumnsInPlace(g: Image, p: Plan): (r: Image)
    requires Fits(g, p)
    ensures IsImage(r) && |r| == |g| && Width(r) == Width(g)
  {
    SideAfterColumnCollapse(g, p.top.start, p.top.end);
    if p.columns then CollapseColumns(g, p.top.start, p.top.end) else g
  }

  /** The grid the in-place pass leaves when it follows plan p: collapses
      done by shifting, stale tails and stale bottom rows kept. */
  ghost function InPlace(g: Image, p: Plan): (r: Image)
    requires Fits(g, p)
    ensures IsImage(r) && |r| == |g| && Width(r) == Width(g)
  {
    var full := ColumnsInPlace(g, p);
    if p.rows then Collapse(full, p.side.start, p.side.end) else full
  }

  /** Whatever the plan, the in-place result holds the intended result in
      its top-left corner. */
  lemma {:induction false} InPlaceKeepsShrink(g: Image, p: Plan)
    requires Fits(g, p)
    ensures var k := Shrink(g, p);
      RowsReach(InPlace(g, p), Width(k)) && |k| <= |g| && Crop(InPlace(g, p), Width(k), |k|) == k
  {
    var full := ColumnsInPlace(g, p);
    var kept := ShrinkColumns(g, p);
    var w := Width(kept);
    if p.columns {
      CropCollapsedColumns(g, p.top.start, p.top.end);
    } else {
      CropWhole(g);
    }
    assert Crop(full, w, |g|) == kept;
    if p.rows {
      CropCollapsedRows(full, kept, w, p.side.start, p.side.end);
      assert InPlace(g, p) == Collapse(full, p.side.start, p.side.end);
      assert Shrink(g, p) == Squeeze(kept, p.side.start, p.side.end);
    } else {
      assert InPlace(g, p) == full;
      assert Shrink(g, p) == kept;
    }
  }

  /** A pass that reports a size followed the plan of the original grid:
      the side span it reads after the column collapse is the original
      one, and its full-width row check (stale tail included) decides as
      a check over the kept columns would. */
  lemma {:induction false} OptimisedFollowsPlan(g: Image)
    requires IsImage(g) && Optimised(g).outcome.Resized?
    ensures Framed(g) && !TwoRuns(g[0]) && !TwoRuns(Side(g))
    ensures Optimised(g).outcome == Resized(Width(Shrunk(g)), |Shrunk(g)|)
    ensures Optimised(g).image == InPlace(g, PlanOf(g))
  {
    var p := PlanOf(g);
    var top, side := p.top, p.side;
    assert SpanOf(g[0]) == Some(top);
    var g1 := ColumnStep(g, top);
    assert SpanOf(Side(g1)) == Some(side);
    assert g1 == ColumnsInPlace(g, p);
    if p.columns {
      assert g1 == CollapseColumns(g, top.start, top.end);
      assert ShrinkColumns(g, p) == SqueezeColumns(g, top.start, top.end);
      StaleTailHarmless(g, top.start, top.end, side.start, side.end);
    } else {
      assert g1 == g;
      assert ShrinkColumns(g, p) == g;
    }
    assert CollapsesRows(g1, side) == p.rows;
    assert Optimised(g).image == RowStep(g1, side);
    assert RowStep(g1, side) == InPlace(g, p);
  }

  /** The pass, once it reports a size, kept exactly the intended result
      in the reported top-left corner. */
  lemma {:induction false} OptimisedKeepsShrunk(g: Image)
    requires IsImage(g) && Optimised(g).outcome.Resized?
    ensures Framed(g) && !TwoRuns(g[0]) && !TwoRuns(Side(g))
    ensures var k := Shrunk(g);
      && Optimised(g).outcome == Resized(Width(k), |k|)
      && Crop(Optimised(g).image, Width(k), |k|) == k
  {
    OptimisedFollowsPlan(g);
    InPlaceKeepsShrink(g, PlanOf(g));
  }

  /** Undoing the row step of any plan whose row span is uniform. */
  lemma {:induction false} RestoreRowsOfShrink(g: Image, p: Plan)
    requires IsImage(g) && p.side.start < p.side.end <= |g|
    requires p.rows ==> RowsUniform(g, p.side.start, p.side.end)
    ensures p.side.start < |ShrinkRows(g, p)|
    ensures RestoreRows(ShrinkRows(g, p), p) == g
  {
    if p.rows {
      ExpandSqueezedRows(g, p.side.start, p.side.end);
    }
  }

  /** Undoing the column step of any plan whose column span is uniform. */
  lemma {:induction false} RestoreColumnsOfShrink(g: Image, p: Plan)
    requires Fits(g, p)
    requires p.columns ==> ColumnsUniform(g, p.top.start, p.top.end)
    ensures p.top.start < Width(ShrinkColumns(g, p)) && RestoreColumns(ShrinkColumns(g, p), p) == g
  {
    if p.columns {
      assert ShrinkColumns(g, p) == SqueezeColumns(g, p.top.start, p.top.end);
      ExpandSqueezedColumns(g, p.top.start, p.top.end);
    }
  }

  /** Content preservation: re-stretching the spans of the shrunk grid
      gives back the original grid, pixel for pixel. */
  lemma {:induction false} ShrunkRestores(g: Image)
    requires Framed(g)
    ensures var p := PlanOf(g);
      var k := Shrunk(g);
      p.side.start < |k| && p.top.start < Width(k) && Restore(k, p) == g
  {
    var p := PlanOf(g);
    var k := Shrunk(g);
    assert k == ShrinkRows(ShrinkColumns(g, p), p);
    RestoreRowsOfShrink(ShrinkColumns(g, p), p);
    RestoreColumnsOfShrink(g, p);
  }

  /** The shrunk grid is a fixed point: it keeps a single marker run on
      each border, and neither of its spans collapses any more. */
  lemma {:induction false} ShrunkIsFixedPoint(g: Image)
    requires Framed(g) && !TwoRuns(g[0]) && !TwoRuns(Side(g))
    ensures var k := Shrunk(g);
      && Framed(k) && !TwoRuns(k[0]) && !TwoRuns(Side(k))
      && !PlanOf(k).columns && !PlanOf(k).rows
  {
    var p := PlanOf(g);
    var top, side := p.top, p.side;
    var g1 := ShrinkColumns(g, p);
    var k := Shrunk(g);
    // The top border of k.
    assert k[0] == g1[0];
    var top' := if p.columns then Span(top.start, top.start + 1) else top;
    if p.columns {
      SqueezeSpan(g[0], top);
    }
    assert IsSpanOf(k[0], top') && !TwoRuns(k[0]);
    // The left border of k.
    SideAfterColumnCollapse(g, top.start, top.end);
    assert Side(g1) == Side(g);
    var side' := if p.rows then Span(side.start, side.start + 1) else side;
    if p.rows {
      SideAfterRowSqueeze(g1, side.start, side.end);
      SqueezeSpan(Side(g), side);
    }
    assert IsSpanOf(Side(k), side') && !TwoRuns(Side(k));
    assert HasMarker(k[0]) by { assert k[0][top'.start] == ArgbBlack; }
    assert HasMarker(Side(k)) by { assert Side(k)[side'.start] == ArgbBlack; }
    SpanUnique(k[0], top');
    SpanUnique(Side(k), side');
    var q := PlanOf(k);
    assert q.top == top' && q.side == side';
    // No column collapse: a single pixel now, or a span that was already not uniform.
    if !p.columns && top.end != top.start + 1 {
      assert !ColumnsUniform(g, top.start, top.end);
      if p.rows {
        ColumnsUniformAfterRowSqueeze(g, side.start, side.end, top.start, top.end);
      }
    }
    assert !q.columns;
    assert ShrinkColumns(k, q) == k;
  }

  /** On a grid with one marker run per border and neither span
      collapsing, the pass reports the full size and changes nothing. */
  lemma {:induction false} OptimisedLeavesFixedPoint(k: Image)
    requires Framed(k) && !TwoRuns(k[0]) && !TwoRuns(Side(k))
    requires !PlanOf(k).columns && !PlanOf(k).rows
    ensures Optimised(k).outcome == Resized(Width(k), |k|)
    ensures Optimised(k).image == k
  {
    var q := PlanOf(k);
    assert SpanOf(k[0]) == Some(q.top);
    var g1 := ColumnStep(k, q.top);
    assert g1 == k;
    assert SpanOf(Side(g1)) == Some(q.side);
    assert RowStep(g1, q.side) == k;
  }

  /** Idempotence: running the pass on the kept corner of a successful
      pass reports the same size and changes nothing. */
  lemma {:induction false} OptimiseIdempotent(g: Image)
    requires IsImage(g) && Optimised(g).outcome.Resized?
    ensures var k := Crop(Optimised(g).image, Optimised(g).outcome.width, Optimised(g).outcome.height);
      && IsImage(k)
      && Optimised(k).outcome == Optimised(g).outcome
      && Optimised(k).image == k
  {
    OptimisedKeepsShrunk(g);
    ShrunkIsFixedPoint(g);
    OptimisedLeavesFixedPoint(Shrunk(g));
  }
}
