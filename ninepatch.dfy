/** The optimisation pass as the program runs it: in place on a
    two-dimensional pixel array (pixels[y][x] in the source, a[y, x]
    here), each routine proved against the value-level model of
    Border, Grid and Pipeline. */
module NinePatch {
  import opened Shift
  import opened Border
  import opened Grid
  import opened Pipeline

  /** The array as a grid value: Rows(a)[y][x] == a[y, x]. */
  ghost function Rows(a: array2<Pixel>): (g: Image)
    reads a
    ensures |g| == a.Length0
    ensures forall r :: 0 <= r < a.Length0 ==> |g[r]| == a.Length1
    ensures forall r, c :: 0 <= r < a.Length0 && 0 <= c < a.Length1 ==> g[r][c] == a[r, c]
    ensures IsRect(g) && (a.Length0 >= 1 ==> Width(g) == a.Length1)
    ensures a.Length0 >= 1 && a.Length1 >= 1 ==> IsImage(g)
  {
    seq(a.Length0, r requires 0 <= r < a.Length0 reads a =>
      seq(a.Length1, c requires 0 <= c < a.Length1 reads a => a[r, c]))
  }

  /** The guard: scan row 0, then column 0, with the seen-a-marker /
      seen-the-end-of-it flags, and report a marker met after the end
      of the first run. */
  method HasMultipleScalableRegions(a: array2<Pixel>) returns (multiple: bool)
    requires a.Length0 >= 1 && a.Length1 >= 1
    ensures multiple <==> TwoRuns(Rows(a)[0]) || TwoRuns(Side(Rows(a)))
  {
    ghost var top := Rows(a)[0];
    var seenTop, seenEnd := false, false;
    for i := 0 to a.Length1
      invariant seenEnd ==> seenTop
      invariant seenTop == MarkerWithin(top, i)
      invariant seenEnd == GapWithin(top, i)
      invariant !TwoRunsWithin(top, i)
    {
      var isBlack := a[0, i] == ArgbBlack;
      ScanStep(top, i);
      if isBlack && !seenTop {
        seenTop := true;
        continue;
      }
      if !isBlack && seenTop {
        seenEnd := true;
        continue;
      }
      if isBlack && seenEnd {
        TwoRunsInPrefix(top, i + 1);
        return true;
      }
    }
    ghost var side := Side(Rows(a));
    seenTop, seenEnd := false, false;
    for i := 0 to a.Length0
      invariant seenEnd ==> seenTop
      invariant seenTop == MarkerWithin(side, i)
      invariant seenEnd == GapWithin(side, i)
      invariant !TwoRunsWithin(side, i)
    {
      var isBlack := a[i, 0] == ArgbBlack;
      ScanStep(side, i);
      if isBlack && !seenTop {
        seenTop := true;
        continue;
      }
      if !isBlack && seenTop {
        seenEnd := true;
        continue;
      }
      if isBlack && seenEnd {
        TwoRunsInPrefix(side, i + 1);
        return true;
      }
    }
    return false;
  }

  /** Locate the marker run on row 0: the first marker, then the first
      non-marker after it (or the right edge). None when row 0 has no
      marker, where the source's unbounded scan runs off the row. */
  method FindTopSpan(a: array2<Pixel>) returns (span: Option<Span>)
    requires a.Length0 >= 1
    ensures span.None? <==> !HasMarker(Rows(a)[0])
    ensures span.Some? ==> IsSpanOf(Rows(a)[0], span.value)
  {
    ghost var top := Rows(a)[0];
    var start := 0;
    while start < a.Length1
      invariant 0 <= start <= a.Length1
      invariant forall k :: 0 <= k < start ==> top[k] != ArgbBlack
    {
      if a[0, start] == ArgbBlack {
        break;
      }
      start := start + 1;
    }
    if start == a.Length1 {
      return None;
    }
    assert top[start] == ArgbBlack;
    var end := start + 1;
    while end < a.Length1
      invariant start < end <= a.Length1
      invariant forall k :: start <= k < end ==> top[k] == ArgbBlack
    {
      if a[0, end] != ArgbBlack {
        break;
      }
      end := end + 1;
    }
    return Some(Span(start, end));
  }

  /** Locate the marker run on column 0, as FindTopSpan does on row 0. */
  method FindSideSpan(a: array2<Pixel>) returns (span: Option<Span>)
    requires a.Length0 >= 1 && a.Length1 >= 1
    ensures span.None? <==> !HasMarker(Side(Rows(a)))
    ensures span.Some? ==> IsSpanOf(Side(Rows(a)), span.value)
  {
    ghost var side := Side(Rows(a));
    var start := 0;
    while start < a.Length0
      invariant 0 <= start <= a.Length0
      invariant forall k :: 0 <= k < start ==> side[k] != ArgbBlack
    {
      if a[start, 0] == ArgbBlack {
        break;
      }
      start := start + 1;
    }
    if start == a.Length0 {
      return None;
    }
    assert side[start] == ArgbBlack;
    var end := start + 1;
    while end < a.Length0
      invariant start < end <= a.Length0
      invariant forall k :: start <= k < end ==> side[k] == ArgbBlack
    {
      if a[end, 0] != ArgbBlack {
        break;
      }
      end := end + 1;
    }
    return Some(Span(start, end));
  }

  /** Row by row, every pixel in columns (start, end) equals the one in column start. */
  method ColumnRangeMatches(a: array2<Pixel>, start: nat, end: nat) returns (matches: bool)
    requires start < a.Length1 && end <= a.Length1
    ensures matches <==> ColumnsUniform(Rows(a), start, end)
  {
    for depth := 0 to a.Length0
      invariant forall r, i :: 0 <= r < depth && start <= i < end ==> a[r, i] == a[r, start]
    {
      var target := a[depth, start];
      var i := start + 1;
      while i < end
        invariant start < i
        invariant forall k :: start <= k < i && k < end ==> a[depth, k] == target
      {
        if a[depth, i] != target {
          assert Rows(a)[depth][i] != Rows(a)[depth][start];
          return false;
        }
        i := i + 1;
      }
    }
    return true;
  }

  /** Column by column, over the whole array width, every pixel in rows
      (start, end) equals the one in row start. */
  method RowRangeMatches(a: array2<Pixel>, start: nat, end: nat) returns (matches: bool)
    requires start < a.Length0 && end <= a.Length0
    ensures matches <==> RowsUniform(Rows(a), start, end)
  {
    for column := 0 to a.Length1
      invariant forall c, i :: 0 <= c < column && start <= i < end ==> a[i, c] == a[start, c]
    {
      var target := a[start, column];
      var i := start + 1;
      while i < end
        invariant start < i
        invariant forall k :: start <= k < i && k < end ==> a[k, column] == target
      {
        if a[i, column] != target {
          assert Rows(a)[i][column] != Rows(a)[start][column];
          return false;
        }
        i := i + 1;
      }
    }
    return true;
  }

  /** Rows whose every cell still holds the value it has in g are the rows of g. */
  lemma OtherRowsKept(a: array2<Pixel>, g: Image, y: nat)
    requires |g| == a.Length0 && forall r :: 0 <= r < |g| ==> |g[r]| == a.Length1
    requires forall r, c :: 0 <= r < a.Length0 && r != y && 0 <= c < a.Length1 ==> a[r, c] == g[r][c]
    ensures forall r :: 0 <= r < a.Length0 && r != y ==> Rows(a)[r] == g[r]
  {
    forall r | 0 <= r < a.Length0 && r != y
      ensures Rows(a)[r] == g[r]
    {
      assert forall c :: 0 <= c < a.Length1 ==> Rows(a)[r][c] == g[r][c];
    }
  }

  /** System.arraycopy within row y: columns [end, width) move down to
      start + 1; the last end - start - 1 columns keep their values. */
  method CollapseRow(a: array2<Pixel>, y: nat, start: nat, end: nat)
    requires y < a.Length0 && start < end <= a.Length1
    modifies a
    ensures Rows(a)[y] == Collapse(old(Rows(a))[y], start, end)
    ensures forall r :: 0 <= r < a.Length0 && r != y ==> Rows(a)[r] == old(Rows(a))[r]
  {
    ghost var g := Rows(a);
    ghost var d := end - start - 1;
    var j := 0;
    while j < a.Length1 - end
      invariant 0 <= j <= a.Length1 - end
      invariant forall r, c :: 0 <= r < a.Length0 && r != y && 0 <= c < a.Length1 ==> a[r, c] == g[r][c]
      invariant forall c :: 0 <= c <= start ==> a[y, c] == g[y][c]
      invariant forall c :: start < c < start + 1 + j ==> a[y, c] == g[y][c + d]
      invariant forall c :: start + 1 + j <= c < a.Length1 ==> a[y, c] == g[y][c]
    {
      a[y, start + 1 + j] := a[y, end + j];
      j := j + 1;
    }
    CollapseByParts(g[y], Rows(a)[y], start, end);
    OtherRowsKept(a, g, y);
  }

  /** Collapse the column span [start, end) to its first column, in every row. */
  method CollapseColumnRange(a: array2<Pixel>, start: nat, end: nat)
    requires start < end <= a.Length1
    modifies a
    ensures Rows(a) == CollapseColumns(old(Rows(a)), start, end)
  {
    ghost var g := Rows(a);
    for depth := 0 to a.Length0
      invariant forall r :: 0 <= r < depth ==> Rows(a)[r] == Collapse(g[r], start, end)
      invariant forall r :: depth <= r < a.Length0 ==> Rows(a)[r] == g[r]
    {
      CollapseRow(a, depth, start, end);
    }
  }

  /** Copy row from over row to, by value (the source shares the row instead). */
  method CopyRow(a: array2<Pixel>, from: nat, to: nat)
    requires from < a.Length0 && to < a.Length0
    modifies a
    ensures Rows(a)[to] == old(Rows(a))[from]
    ensures forall r :: 0 <= r < a.Length0 && r != to ==> Rows(a)[r] == old(Rows(a))[r]
  {
    ghost var g := Rows(a);
    for c := 0 to a.Length1
      invariant forall r, x :: 0 <= r < a.Length0 && r != to && 0 <= x < a.Length1 ==> a[r, x] == g[r][x]
      invariant forall x :: 0 <= x < c ==> a[to, x] == g[from][x]
      invariant forall x :: c <= x < a.Length1 ==> a[to, x] == g[to][x]
    {
      a[to, c] := a[from, c];
    }
    assert forall x :: 0 <= x < a.Length1 ==> Rows(a)[to][x] == g[from][x];
    OtherRowsKept(a, g, to);
  }

  /** System.arraycopy on the rows: rows [end, height) move up to start + 1;
      the last end - start - 1 rows keep their values. */
  method CollapseRowRange(a: array2<Pixel>, start: nat, end: nat)
    requires start < end <= a.Length0
    modifies a
    ensures Rows(a) == Collapse(old(Rows(a)), start, end)
  {
    ghost var g := Rows(a);
    ghost var d := end - start - 1;
    var j := 0;
    while j < a.Length0 - end
      invariant 0 <= j <= a.Length0 - end
      invariant forall r :: 0 <= r <= start ==> Rows(a)[r] == g[r]
      invariant forall r :: start < r < start + 1 + j ==> Rows(a)[r] == g[r + d]
      invariant forall r :: start + 1 + j <= r < a.Length0 ==> Rows(a)[r] == g[r]
    {
      CopyRow(a, end + j, start + 1 + j);
      j := j + 1;
    }
    CollapseByParts(g, Rows(a), start, end);
  }

  /** The horizontal block of the pass: a top span wider than one pixel
      whose columns match in every row is collapsed; reports the columns removed. */
  method CollapseTopSpan(a: array2<Pixel>, top: Span) returns (xCollapsed: nat)
    requires a.Length0 >= 1 && top.start < top.end <= a.Length1
    modifies a
    ensures Rows(a) == ColumnStep(old(Rows(a)), top)
    ensures xCollapsed == if CollapsesColumns(old(Rows(a)), top) then top.Reduction() else 0
  {
    xCollapsed := 0;
    if top.end != top.start + 1 {
      var matches := ColumnRangeMatches(a, top.start, top.end);
      if matches {
        CollapseColumnRange(a, top.start, top.end);
        xCollapsed := top.end - top.start - 1;
      }
    }
  }

  /** The vertical block of the pass: a side span taller than one pixel
      whose rows match across the whole width is collapsed; reports the rows removed. */
  method CollapseSideSpan(a: array2<Pixel>, side: Span) returns (yCollapsed: nat)
    requires a.Length1 >= 1 && side.start < side.end <= a.Length0
    modifies a
    ensures Rows(a) == RowStep(old(Rows(a)), side)
    ensures yCollapsed == if CollapsesRows(old(Rows(a)), side) then side.Reduction() else 0
  {
    yCollapsed := 0;
    if side.end != side.start + 1 {
      var matches := RowRangeMatches(a, side.start, side.end);
      if matches {
        CollapseRowRange(a, side.start, side.end);
        yCollapsed := side.end - side.start - 1;
      }
    }
  }

  /** The whole pass: it leaves the array and reports the outcome exactly
      as the value-level account Optimised says. */
  method OptimisePixels(a: array2<Pixel>) returns (outcome: Outcome)
    requires a.Length0 >= 1 && a.Length1 >= 1
    modifies a
    ensures outcome == Optimised(old(Rows(a))).outcome
    ensures Rows(a) == Optimised(old(Rows(a))).image
  {
    ghost var g := Rows(a);
    var multiple := HasMultipleScalableRegions(a);
    if multiple {
      return MultipleRegions;
    }
    var top := FindTopSpan(a);
    if top.None? {
      return NoMarker(Horizontal);
    }
    SpanUnique(g[0], top.value);
    var xCollapsed := CollapseTopSpan(a, top.value);
    ghost var g1 := Rows(a);
    assert g1 == ColumnStep(g, top.value);
    var side := FindSideSpan(a);
    if side.None? {
      return NoMarker(Vertical);
    }
    SpanUnique(Side(g1), side.value);
    var yCollapsed := CollapseSideSpan(a, side.value);
    assert Rows(a) == RowStep(g1, side.value);
    outcome := Resized(a.Length1 - xCollapsed, a.Length0 - yCollapsed);
  }

  /** Where pixel (y, x) of a width-w grid lands in a row-major buffer. */
  function Offset(w: nat, y: nat, x: nat): nat {
    y * w + x
  }

  /** Every pixel of the first i rows lands before row i starts. */
  lemma RowsBefore(w: nat, i: nat)
    ensures forall r, c :: 0 <= r < i && 0 <= c < w ==> Offset(w, r, c) < Offset(w, i, 0)
  {
    forall r, c | 0 <= r < i && 0 <= c < w
      ensures Offset(w, r, c) < Offset(w, i, 0)
    {
      assert (r + 1) * w <= i * w;
    }
  }

  /** Row-major positions of an h x w grid lie in [0, w * h). */
  lemma OffsetsInside(w: nat, h: nat)
    ensures forall r, c :: 0 <= r < h && 0 <= c < w ==> Offset(w, r, c) < w * h
  {
    forall r, c | 0 <= r < h && 0 <= c < w
      ensures Offset(w, r, c) < w * h
    {
      assert (r + 1) * w <= h * w;
    }
  }

  /** Copy the top-left height x width corner, row by row, into a fresh row-major buffer. */
  method CollapseAndFlattenBuffer(a: array2<Pixel>, width: nat, height: nat) returns (buffer: array<Pixel>)
    requires height <= a.Length0 && width <= a.Length1
    ensures fresh(buffer) && buffer.Length == width * height
    ensures forall i, j :: 0 <= i < height && 0 <= j < width ==>
      Offset(width, i, j) < buffer.Length && buffer[Offset(width, i, j)] == a[i, j]
  {
    OffsetsInside(width, height);
    buffer := new Pixel[width * height];
    for i := 0 to height
      invariant forall r, c :: 0 <= r < i && 0 <= c < width ==> buffer[Offset(width, r, c)] == a[r, c]
    {
      RowsBefore(width, i);
      for j := 0 to width
        invariant forall r, c :: 0 <= r < i && 0 <= c < width ==> buffer[Offset(width, r, c)] == a[r, c]
        invariant forall c :: 0 <= c < j ==> buffer[Offset(width, i, c)] == a[i, c]
      {
        buffer[Offset(width, i, j)] := a[i, j];
      }
    }
  }
}
