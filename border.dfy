/** Pixels, the marker colour, and what a border line (row 0 or
    column 0) says about the scalable span: where it starts and ends,
    and whether it holds more than one marker run. */
module Border {
  import opened Shift

  /** A packed ARGB colour held in a Java int (signed 32 bits). */
  newtype Pixel = x: int | -0x8000_0000 <= x < 0x8000_0000

  /** ARGB_BLACK = 0xFF000000, which as a Java int is -0x0100_0000. */
  const ArgbBlack: Pixel := -0x0100_0000

  /** The marker as the unsigned ARGB word the source writes: opaque (alpha 0xFF) black. */
  lemma ArgbBlackBits()
    ensures ArgbBlack as int % 0x1_0000_0000 == 0xFF00_0000
    ensures (ArgbBlack as int % 0x1_0000_0000) / 0x100_0000 == 0xFF
    ensures (ArgbBlack as int % 0x1_0000_0000) % 0x100_0000 == 0
  {
  }

  datatype Option<T> = None | Some(value: T)

  /** The half-open interval [start, end) of a marker run on a border. */
  datatype Span = Span(start: nat, end: nat) {
    /** How many pixels a collapse of this span removes. */
    function Reduction(): nat
      requires start < end
    {
      end - start - 1
    }
  }

  /** Among the first n pixels of s there is a marker. */
  ghost predicate MarkerWithin(s: seq<Pixel>, n: nat)
    requires n <= |s|
  {
    exists k :: 0 <= k < n && s[k] == ArgbBlack
  }

  /** Among the first n pixels of s a marker is followed by a non-marker. */
  ghost predicate GapWithin(s: seq<Pixel>, n: nat)
    requires n <= |s|
  {
    exists j, k :: 0 <= j < k < n && s[j] == ArgbBlack && s[k] != ArgbBlack
  }

  /** Among the first n pixels of s there are two disjoint marker runs:
      a marker, later a non-marker, later a marker again. */
  ghost predicate TwoRunsWithin(s: seq<Pixel>, n: nat)
    requires n <= |s|
  {
    exists i, j, k :: 0 <= i < j < k < n && s[i] == ArgbBlack && s[j] != ArgbBlack && s[k] == ArgbBlack
  }

  ghost predicate HasMarker(s: seq<Pixel>) { MarkerWithin(s, |s|) }

  ghost predicate TwoRuns(s: seq<Pixel>) { TwoRunsWithin(s, |s|) }

  /** sp is the first marker run of s: it starts at the first marker,
      holds only markers, and ends at the end of s or at a non-marker. */
  ghost predicate IsSpanOf(s: seq<Pixel>, sp: Span) {
    && sp.start < sp.end <= |s|
    && (forall k :: 0 <= k < sp.start ==> s[k] != ArgbBlack)
    && (forall k :: sp.start <= k < sp.end ==> s[k] == ArgbBlack)
    && (sp.end == |s| || s[sp.end] != ArgbBlack)
  }

  /** Index of the first marker at or after i, or |s| if there is none. */
  function FirstMarkerFrom(s: seq<Pixel>, i: nat): (k: nat)
    requires i <= |s|
    ensures i <= k <= |s|
    ensures k < |s| ==> s[k] == ArgbBlack
    ensures forall j :: i <= j < k ==> s[j] != ArgbBlack
    decreases |s| - i
  {
    if i == |s| || s[i] == ArgbBlack then i else FirstMarkerFrom(s, i + 1)
  }

  /** Index of the first non-marker at or after i, or |s| if there is none. */
  function RunEndFrom(s: seq<Pixel>, i: nat): (k: nat)
    requires i <= |s|
    ensures i <= k <= |s|
    ensures k < |s| ==> s[k] != ArgbBlack
    ensures forall j :: i <= j < k ==> s[j] == ArgbBlack
    decreases |s| - i
  {
    if i == |s| || s[i] != ArgbBlack then i else RunEndFrom(s, i + 1)
  }

  /** The span a forward scan of s finds, or None when s has no marker. */
  function SpanOf(s: seq<Pixel>): (r: Option<Span>)
    ensures r.None? <==> !HasMarker(s)
    ensures r.Some? ==> IsSpanOf(s, r.value)
  {
    var start := FirstMarkerFrom(s, 0);
    if start == |s| then None else Some(Span(start, RunEndFrom(s, start + 1)))
  }

  /** The first marker run is unique, so any span meeting IsSpanOf is SpanOf's. */
  lemma SpanUnique(s: seq<Pixel>, sp: Span)
    requires IsSpanOf(s, sp)
    ensures SpanOf(s) == Some(sp)
  {
    assert s[sp.start] == ArgbBlack;
  }

  /** With a single marker run, nothing after the span is a marker. */
  lemma NoMarkerAfterSpan(s: seq<Pixel>, sp: Span)
    requires IsSpanOf(s, sp) && !TwoRuns(s)
    ensures forall k :: sp.end <= k < |s| ==> s[k] != ArgbBlack
  {
    forall k | sp.end <= k < |s|
      ensures s[k] != ArgbBlack
    {
      assert s[sp.start] == ArgbBlack;
      if k > sp.end {
        assert s[sp.end] != ArgbBlack;
      }
    }
  }

  /** Squeezing the only marker run of s leaves a single-pixel run in the
      same place and still a single run. */
  lemma SqueezeSpan(s: seq<Pixel>, sp: Span)
    requires IsSpanOf(s, sp) && !TwoRuns(s)
    ensures IsSpanOf(Squeeze(s, sp.start, sp.end), Span(sp.start, sp.start + 1))
    ensures !TwoRuns(Squeeze(s, sp.start, sp.end))
  {
    NoMarkerAfterSpan(s, sp);
    var t := Squeeze(s, sp.start, sp.end);
    assert forall k :: 0 <= k < |t| && k != sp.start ==> t[k] != ArgbBlack;
    if sp.start + 1 < |t| {
      assert t[sp.start + 1] == s[sp.end];
    }
  }

  /** One step of a left-to-right scan: how the three facts about a prefix
      grow when the pixel at index i is added. */
  lemma ScanStep(s: seq<Pixel>, i: nat)
    requires i < |s|
    ensures MarkerWithin(s, i + 1) == (MarkerWithin(s, i) || s[i] == ArgbBlack)
    ensures GapWithin(s, i + 1) == (GapWithin(s, i) || (MarkerWithin(s, i) && s[i] != ArgbBlack))
    ensures TwoRunsWithin(s, i + 1) == (TwoRunsWithin(s, i) || (GapWithin(s, i) && s[i] == ArgbBlack))
  {
    if MarkerWithin(s, i) && s[i] != ArgbBlack {
      var j :| 0 <= j < i && s[j] == ArgbBlack;
      assert s[j] == ArgbBlack && s[i] != ArgbBlack;
    }
    if GapWithin(s, i) && s[i] == ArgbBlack {
      var j, k :| 0 <= j < k < i && s[j] == ArgbBlack && s[k] != ArgbBlack;
      assert s[j] == ArgbBlack && s[k] != ArgbBlack && s[i] == ArgbBlack;
    }
    if GapWithin(s, i + 1) && !GapWithin(s, i) {
      var j, k :| 0 <= j < k < i + 1 && s[j] == ArgbBlack && s[k] != ArgbBlack;
      assert k == i && s[j] == ArgbBlack;
    }
    if TwoRunsWithin(s, i + 1) && !TwoRunsWithin(s, i) {
      var h, j, k :| 0 <= h < j < k < i + 1 && s[h] == ArgbBlack && s[j] != ArgbBlack && s[k] == ArgbBlack;
      assert k == i && s[h] == ArgbBlack && s[j] != ArgbBlack;
    }
  }

  /** Two runs within a prefix are two runs of the whole line. */
  lemma TwoRunsInPrefix(s: seq<Pixel>, n: nat)
    requires n <= |s| && TwoRunsWithin(s, n)
    ensures TwoRuns(s)
  {
    var h, j, k :| 0 <= h < j < k < n && s[h] == ArgbBlack && s[j] != ArgbBlack && s[k] == ArgbBlack;
    assert s[h] == ArgbBlack && s[j] != ArgbBlack && s[k] == ArgbBlack;
  }
}
