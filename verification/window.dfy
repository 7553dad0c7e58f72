/**
 The context window cut around each match: up to `Radius` bytes before the
 match offset and up to `Radius` bytes from it on, clamped to the corpus edges.
 */
module Window {
  import opened Bounds
  import opened Lookup

  /** Bytes kept on each side of a match offset. */
  const Radius: int := 250

  /** The window `[max(0, idx - Radius), min(n, idx + Radius))` around offset `idx` of a corpus of length `n`. */
  function WindowOf(n: nat, idx: int): (w: Span)
    ensures 0 <= w.start && w.end <= n
    ensures forall k {:trigger w.Contains(k)} ::
      w.Contains(k) <==> 0 <= k < n && idx - Radius <= k < idx + Radius
    ensures -Radius <= idx <= n + Radius <==> w.Within(n)
    ensures idx <= Radius ==> w.start == 0
    ensures idx >= n - Radius ==> w.end == n
  {
    Span(Max(0, idx - Radius), Min(n, idx + Radius))
  }

  /** Whether the corpus slice around `idx` can be taken (Go panics on a slice whose start exceeds its end). */
  predicate Sliceable(works: Bytes, idx: int) {
    -Radius <= idx <= |works| + Radius
  }

  /** The snippet shown for a match at offset `idx`. */
  function Snippet(works: Bytes, idx: int): (r: Bytes)
    requires Sliceable(works, idx)
    ensures |r| <= 2 * Radius
    ensures Radius <= idx <= |works| - Radius ==> |r| == 2 * Radius
    ensures WindowOf(|works|, idx).Within(|works|)
    ensures r == works[WindowOf(|works|, idx).start..WindowOf(|works|, idx).end]
  {
    var w := WindowOf(|works|, idx);
    works[w.start..w.end]
  }

  /** A snippet around a real match contains the match start, and the whole match when it is at most `Radius` long. */
  lemma MatchInSnippet(works: Bytes, q: Bytes, idx: int)
    requires |q| > 0 && OccursAt(works, q, idx)
    ensures Sliceable(works, idx)
    ensures WindowOf(|works|, idx).Contains(idx)
    ensures Snippet(works, idx)[idx - WindowOf(|works|, idx).start] == works[idx]
    ensures |q| <= Radius ==>
      var off := idx - WindowOf(|works|, idx).start;
      off + |q| <= |Snippet(works, idx)| && Snippet(works, idx)[off..off + |q|] == q
  {
    var w := WindowOf(|works|, idx);
    assert w.Contains(idx);
    var s := Snippet(works, idx);
    if |q| <= Radius {
      var off := idx - w.start;
      assert w.Contains(idx + |q| - 1);
      assert s == works[w.start..w.end];
      assert off + |q| <= |s|;
      forall t | 0 <= t < |q|
        ensures s[off + t] == q[t]
      {
        assert s[off + t] == works[idx + t];
        assert works[idx..idx + |q|][t] == works[idx + t];
      }
      assert s[off..off + |q|] == q;
    }
  }
}
