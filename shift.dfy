/** Generic sequence shapes behind the two collapses: the in-place
    block move done by System.arraycopy, the "interior removed" view
    of what is kept, and its inverse that re-stretches a span. */
module Shift {

  /** All elements of s in [start, end) equal the one at start. */
  ghost predicate Uniform<T>(s: seq<T>, start: nat, end: nat)
    requires end <= |s|
  {
    forall i :: start <= i < end ==> s[i] == s[start]
  }

  /** s with the interior (start, end) of the span [start, end) deleted:
      the span keeps one representative element, at start. */
  function Squeeze<T>(s: seq<T>, start: nat, end: nat): (r: seq<T>)
    requires start < end <= |s|
    ensures |r| == |s| - (end - start - 1)
    ensures forall k :: 0 <= k <= start ==> r[k] == s[k]
    ensures forall k :: start < k < |r| ==> r[k] == s[k + (end - start - 1)]
  {
    s[..start + 1] + s[end..]
  }

  /** What System.arraycopy(s, end, s, start + 1, |s| - end) leaves in s:
      the tail from end moves down to start + 1, and the last
      end - start - 1 places keep their stale values. */
  function Collapse<T>(s: seq<T>, start: nat, end: nat): (r: seq<T>)
    requires start < end <= |s|
    ensures |r| == |s|
    ensures forall k :: 0 <= k <= start ==> r[k] == s[k]
    ensures forall k :: start < k < |s| - (end - start - 1) ==> r[k] == s[k + (end - start - 1)]
    ensures forall k :: |s| - (end - start - 1) <= k < |s| ==> r[k] == s[k]
    ensures r[..|s| - (end - start - 1)] == Squeeze(s, start, end)
  {
    s[..start + 1] + s[end..] + s[|s| - (end - start - 1)..]
  }

  /** Collapse is determined by its three pieces: any sequence that keeps
      the prefix up to start, holds the shifted tail after it and keeps the
      stale end is the collapse. */
  lemma CollapseByParts<T>(s: seq<T>, t: seq<T>, start: nat, end: nat)
    requires start < end <= |s| && |t| == |s|
    requires forall k :: 0 <= k <= start ==> t[k] == s[k]
    requires forall k :: start < k < |s| - (end - start - 1) ==> t[k] == s[k + (end - start - 1)]
    requires forall k :: |s| - (end - start - 1) <= k < |s| ==> t[k] == s[k]
    ensures t == Collapse(s, start, end)
  {
    var c := Collapse(s, start, end);
    forall k | 0 <= k < |s|
      ensures t[k] == c[k]
    {
    }
  }

  /** Re-stretch: the element at start is repeated so that it occupies n
      places. Its indexing is given by ExpandAt, one index at a time. */
  function Expand<T>(s: seq<T>, start: nat, n: nat): (r: seq<T>)
    requires start < |s| && n >= 1
    ensures |r| == |s| + n - 1
  {
    s[..start + 1] + seq(n - 1, _ => s[start]) + s[start + 1..]
  }

  /** The element at index k of a re-stretched sequence. */
  lemma ExpandAt<T>(s: seq<T>, start: nat, n: nat, k: nat)
    requires start < |s| && n >= 1 && k < |s| + n - 1
    ensures k <= start ==> Expand(s, start, n)[k] == s[k]
    ensures start <= k < start + n ==> Expand(s, start, n)[k] == s[start]
    ensures start + n <= k ==> Expand(s, start, n)[k] == s[k - (n - 1)]
  {
  }

  /** Re-stretching a squeezed uniform span gives back the original sequence. */
  lemma ExpandSqueeze<T>(s: seq<T>, start: nat, end: nat)
    requires start < end <= |s| && Uniform(s, start, end)
    ensures Expand(Squeeze(s, start, end), start, end - start) == s
  {
    var t := Squeeze(s, start, end);
    var r := Expand(t, start, end - start);
    forall k | 0 <= k < |s|
      ensures r[k] == s[k]
    {
      ExpandAt(t, start, end - start, k);
      if k >= end {
        assert r[k] == t[k - (end - start - 1)];
      }
    }
  }
}
