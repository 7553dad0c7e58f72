/**
 The `Searcher`: a lowercased corpus together with an occurrence index built
 over the same bytes, and the paginated search over it.
 */
module Engine {
  import opened Bounds
  import opened Lookup
  import opened Window

  /**
   The foreign functions the searcher is built from: the case folding applied
   to corpus and queries alike, and the construction of an index over a text.
   */
  datatype Library = Library(toLower: Bytes -> Bytes, newIndex: Bytes -> Index) {

    /** Every index the library builds answers every query by the lookup contract. */
    ghost predicate Valid() {
      forall text, q :: IsLookupResult(text, q, newIndex(text)(q))
    }
  }

  datatype Searcher = Searcher(completeWorks: Bytes, suffixArray: Index) {

    /** The index is consistent with the exact text that is searched. */
    ghost predicate Valid() {
      forall q :: IsLookupResult(completeWorks, q, suffixArray(q))
    }
  }

  /** A library whose index is the linear scan satisfies the library contract, whatever its case folding. */
  lemma NaiveLibraryValid(toLower: Bytes -> Bytes)
    ensures Library(toLower, NaiveIndex).Valid()
  {
    forall text, q
      ensures IsLookupResult(text, q, NaiveIndex(text)(q))
    {
      NaiveIndexCorrect(text, q);
    }
  }

  /** Builds a searcher from the raw corpus: lowercases it and indexes the lowercased bytes. */
  function Load(raw: Bytes, lib: Library): (s: Searcher)
    ensures s.completeWorks == lib.toLower(raw)
    ensures lib.Valid() ==> s.Valid()
  {
    var lower := lib.toLower(raw);
    Searcher(lower, lib.newIndex(lower))
  }

  /** The match offsets of a query: those of its lowercased form, in the index's own order. */
  function MatchOffsets(s: Searcher, lib: Library, query: Bytes): (idxs: seq<int>)
    ensures s.Valid() ==> IsLookupResult(s.completeWorks, lib.toLower(query), idxs)
    ensures s.Valid() ==> |idxs| == |Matches(s.completeWorks, lib.toLower(query))|
    ensures s.Valid() ==> forall k :: 0 <= k < |idxs| ==> 0 <= idxs[k] < |s.completeWorks|
  {
    var idxs := s.suffixArray(lib.toLower(query));
    assert s.Valid() ==>
      (|idxs| == |Matches(s.completeWorks, lib.toLower(query))|
       && forall k :: 0 <= k < |idxs| ==> 0 <= idxs[k] < |s.completeWorks|)
    by {
      if s.Valid() {
        LookupCount(s.completeWorks, lib.toLower(query), idxs);
        forall k | 0 <= k < |idxs|
          ensures 0 <= idxs[k] < |s.completeWorks|
        {
          LookupResultInText(s.completeWorks, lib.toLower(query), idxs, k);
        }
      }
    }
    idxs
  }

  /**
   Whether `idxs[page * pageSize : min(page * pageSize + pageSize, n)]` can be
   taken from a list of `n` offsets without a slice-bounds panic.
   */
  predicate PageInRange(n: int, page: int, pageSize: int) {
    0 <= pageSize && 0 <= page * pageSize <= n
  }

  /** The positions of page `page` in a list of `n` offsets. */
  function PageOf(n: int, page: int, pageSize: int): (b: Span)
    ensures b.start == page * pageSize
    ensures PageInRange(n, page, pageSize) <==> b.Within(n)
    ensures PageInRange(n, page, pageSize) ==> b.Len() == Min(pageSize, n - page * pageSize)
    ensures forall k {:trigger b.Contains(k)} ::
      b.Contains(k) <==> page * pageSize <= k < page * pageSize + pageSize && k < n
  {
    var startIdx := page * pageSize;
    Span(startIdx, Min(startIdx + pageSize, n))
  }

  /** Every offset of the list is close enough to the corpus for its window to be cut. */
  predicate AllSliceable(works: Bytes, idxs: seq<int>) {
    forall k :: 0 <= k < |idxs| ==> Sliceable(works, idxs[k])
  }

  /** The snippets of a list of offsets, one per offset. */
  function Snippets(works: Bytes, idxs: seq<int>): (r: seq<Bytes>)
    requires AllSliceable(works, idxs)
    ensures |r| == |idxs|
  {
    if idxs == [] then [] else [Snippet(works, idxs[0])] + Snippets(works, idxs[1..])
  }

  /** Snippet `k` is cut around offset `k`: the order of the offsets is kept and nothing is dropped. */
  lemma {:induction false} SnippetsAt(works: Bytes, idxs: seq<int>, k: int)
    requires AllSliceable(works, idxs)
    requires 0 <= k < |idxs|
    ensures Snippets(works, idxs)[k] == Snippet(works, idxs[k])
    decreases k
  {
    if k > 0 {
      SnippetsAt(works, idxs[1..], k - 1);
    }
  }

  /** Cutting snippets distributes over concatenation of offset lists. */
  lemma {:induction false} SnippetsAppend(works: Bytes, a: seq<int>, b: seq<int>)
    requires AllSliceable(works, a) && AllSliceable(works, b)
    ensures AllSliceable(works, a + b)
    ensures Snippets(works, a + b) == Snippets(works, a) + Snippets(works, b)
    decreases |a|
  {
    var ab := a + b;
    assert forall k :: 0 <= k < |ab| ==> ab[k] == if k < |a| then a[k] else b[k - |a|];
    if a == [] {
      assert ab == b;
    } else {
      var t := a[1..];
      assert AllSliceable(works, t) by {
        forall k | 0 <= k < |t|
          ensures Sliceable(works, t[k])
        {
          assert t[k] == a[k + 1];
        }
      }
      assert ab[1..] == t + b;
      SnippetsAppend(works, t, b);
      calc {
        Snippets(works, ab);
        [Snippet(works, a[0])] + Snippets(works, t + b);
        [Snippet(works, a[0])] + (Snippets(works, t) + Snippets(works, b));
        ([Snippet(works, a[0])] + Snippets(works, t)) + Snippets(works, b);
        Snippets(works, a) + Snippets(works, b);
      }
    }
  }

  /** The snippets around the offsets in page `page` of `idxs`: the loop over `idxs[startIdx:endIdx]`. */
  function Page(works: Bytes, idxs: seq<int>, page: int, pageSize: int): (r: seq<Bytes>)
    requires AllSliceable(works, idxs)
    requires PageInRange(|idxs|, page, pageSize)
    ensures |r| == Min(pageSize, |idxs| - page * pageSize)
  {
    var b := PageOf(|idxs|, page, pageSize);
    Snippets(works, idxs[b.start..b.end])
  }

  /** Result `i` of a page is cut around offset `page * pageSize + i` of the list. */
  lemma PageAt(works: Bytes, idxs: seq<int>, page: int, pageSize: int, i: int)
    requires AllSliceable(works, idxs)
    requires PageInRange(|idxs|, page, pageSize)
    requires 0 <= i < |Page(works, idxs, page, pageSize)|
    ensures Page(works, idxs, page, pageSize)[i] == Snippet(works, idxs[page * pageSize + i])
  {
    var b := PageOf(|idxs|, page, pageSize);
    SnippetsAt(works, idxs[b.start..b.end], i);
  }

  /**
   One page of results for a query: the snippets around the offsets at positions
   `[page * pageSize, min(page * pageSize + pageSize, n))` of the lookup result.
   */
  function Search(s: Searcher, lib: Library, query: Bytes, page: int, pageSize: int): (r: seq<Bytes>)
    requires s.Valid()
    requires PageInRange(|MatchOffsets(s, lib, query)|, page, pageSize)
    ensures |r| == Min(pageSize, |Matches(s.completeWorks, lib.toLower(query))| - page * pageSize)
    ensures |r| <= pageSize
    ensures page * pageSize == |Matches(s.completeWorks, lib.toLower(query))| ==> r == []
    ensures forall i :: 0 <= i < |r| ==>
      r[i] == Snippet(s.completeWorks, MatchOffsets(s, lib, query)[page * pageSize + i])
  {
    var idxs := MatchOffsets(s, lib, query);
    var r := Page(s.completeWorks, idxs, page, pageSize);
    assert forall i :: 0 <= i < |r| ==> r[i] == Snippet(s.completeWorks, idxs[page * pageSize + i]) by {
      forall i | 0 <= i < |r|
        ensures r[i] == Snippet(s.completeWorks, idxs[page * pageSize + i])
      {
        PageAt(s.completeWorks, idxs, page, pageSize, i);
      }
    }
    r
  }

  /**
   The snippet around a reported offset is a non-empty corpus window that holds
   the match start, and the whole query when that is at most `Radius` bytes long.
   */
  lemma SnippetHoldsMatch(works: Bytes, q: Bytes, idxs: seq<int>, j: int)
    requires IsLookupResult(works, q, idxs)
    requires 0 <= j < |idxs|
    ensures OccursAt(works, q, idxs[j])
    ensures Sliceable(works, idxs[j])
    ensures WindowOf(|works|, idxs[j]).Contains(idxs[j])
    ensures |Snippet(works, idxs[j])| > 0
    ensures |q| <= Radius ==> Contains(Snippet(works, idxs[j]), q)
  {
    var idx := idxs[j];
    LookupResultInText(works, q, idxs, j);
    MatchInSnippet(works, q, idx);
    if |q| <= Radius {
      var off := idx - WindowOf(|works|, idx).start;
      assert OccursAt(Snippet(works, idx), q, off);
    }
  }

  /**
   Result `i` of a page is a non-empty corpus window around a real match: it
   holds the match start, and the whole lowercased query when that is at most
   `Radius` bytes long.
   */
  lemma SearchResultHoldsMatch(s: Searcher, lib: Library, query: Bytes, page: int, pageSize: int, i: int)
    requires s.Valid()
    requires PageInRange(|MatchOffsets(s, lib, query)|, page, pageSize)
    requires 0 <= i < |Search(s, lib, query, page, pageSize)|
    ensures
      var idx := MatchOffsets(s, lib, query)[page * pageSize + i];
      && OccursAt(s.completeWorks, lib.toLower(query), idx)
      && WindowOf(|s.completeWorks|, idx).Contains(idx)
      && |Search(s, lib, query, page, pageSize)[i]| > 0
    ensures |lib.toLower(query)| <= Radius ==>
      Contains(Search(s, lib, query, page, pageSize)[i], lib.toLower(query))
  {
    SnippetHoldsMatch(s.completeWorks, lib.toLower(query), MatchOffsets(s, lib, query), page * pageSize + i);
  }

  /**
   Loading and searching with the same library: result `i` is the window of the
   lowercased corpus around an occurrence of the lowercased query.
   */
  lemma LoadedSearchWindows(raw: Bytes, lib: Library, query: Bytes, page: int, pageSize: int, i: int)
    requires lib.Valid()
    ensures Load(raw, lib).Valid()
    ensures PageInRange(|MatchOffsets(Load(raw, lib), lib, query)|, page, pageSize) ==>
      0 <= i < |Search(Load(raw, lib), lib, query, page, pageSize)| ==>
        exists idx :: OccursAt(lib.toLower(raw), lib.toLower(query), idx)
          && Search(Load(raw, lib), lib, query, page, pageSize)[i] == Snippet(lib.toLower(raw), idx)
  {
    var s := Load(raw, lib);
    if PageInRange(|MatchOffsets(s, lib, query)|, page, pageSize)
      && 0 <= i < |Search(s, lib, query, page, pageSize)|
    {
      var idxs := MatchOffsets(s, lib, query);
      var idx := idxs[page * pageSize + i];
      SnippetHoldsMatch(s.completeWorks, lib.toLower(query), idxs, page * pageSize + i);
      assert Search(s, lib, query, page, pageSize)[i] == Snippet(lib.toLower(raw), idx);
    }
  }

  /** No match (in particular, an empty lowercased query) gives an empty first page. */
  lemma NoMatchNoResults(s: Searcher, lib: Library, query: Bytes, pageSize: int)
    requires s.Valid() && 0 <= pageSize
    requires Matches(s.completeWorks, lib.toLower(query)) == {}
    ensures PageInRange(|MatchOffsets(s, lib, query)|, 0, pageSize)
    ensures Search(s, lib, query, 0, pageSize) == []
  {
  }

  /** Search sees the query only through its lowercased form. */
  lemma SearchThroughLower(s: Searcher, lib: Library, q1: Bytes, q2: Bytes, page: int, pageSize: int)
    requires s.Valid()
    requires lib.toLower(q1) == lib.toLower(q2)
    requires PageInRange(|MatchOffsets(s, lib, q1)|, page, pageSize)
    ensures PageInRange(|MatchOffsets(s, lib, q2)|, page, pageSize)
    ensures Search(s, lib, q1, page, pageSize) == Search(s, lib, q2, page, pageSize)
  {
  }

  /** Pages `0 .. k` of an offset list, concatenated; each of them must be in range. */
  function Pages(works: Bytes, idxs: seq<int>, pageSize: int, k: nat): (r: seq<Bytes>)
    requires AllSliceable(works, idxs) && 0 <= pageSize
    requires k * pageSize <= |idxs|
  {
    MulMonotone(0, k, pageSize);
    if k == 0 then
      Page(works, idxs, 0, pageSize)
    else
      MulMonotone(k - 1, k, pageSize);
      Pages(works, idxs, pageSize, k - 1) + Page(works, idxs, k, pageSize)
  }

  /** Pages `0 .. k` are pages `0 .. k - 1` followed by page `k`, all of them in range. */
  lemma PagesStep(works: Bytes, idxs: seq<int>, pageSize: int, k: nat)
    requires AllSliceable(works, idxs) && 0 <= pageSize
    requires 0 < k && k * pageSize <= |idxs|
    ensures (k - 1) * pageSize <= |idxs|
    ensures PageInRange(|idxs|, k, pageSize)
    ensures Pages(works, idxs, pageSize, k) == Pages(works, idxs, pageSize, k - 1) + Page(works, idxs, k, pageSize)
  {
    MulMonotone(0, k, pageSize);
    MulMonotone(k - 1, k, pageSize);
  }

  /** A slice of a sliceable offset list is sliceable. */
  lemma SliceSliceable(works: Bytes, idxs: seq<int>, lo: int, hi: int)
    requires AllSliceable(works, idxs)
    requires 0 <= lo <= hi <= |idxs|
    ensures AllSliceable(works, idxs[lo..hi])
  {
    forall k | 0 <= k < hi - lo
      ensures Sliceable(works, idxs[lo..hi][k])
    {
      assert idxs[lo..hi][k] == idxs[lo + k];
    }
  }

  /** The snippets of a prefix of an offset list, extended by those of the next slice. */
  lemma PrefixExtends(works: Bytes, idxs: seq<int>, lo: int, hi: int)
    requires AllSliceable(works, idxs)
    requires 0 <= lo <= hi <= |idxs|
    ensures Snippets(works, idxs[..lo]) + Snippets(works, idxs[lo..hi]) == Snippets(works, idxs[..hi])
  {
    var a, b := idxs[..lo], idxs[lo..hi];
    assert a + b == idxs[..hi];
    SliceSliceable(works, idxs, 0, lo);
    assert idxs[0..lo] == a;
    SliceSliceable(works, idxs, lo, hi);
    SnippetsAppend(works, a, b);
  }

  /** Page `page` continues the snippets of the offsets before it up to the page's end. */
  lemma PageExtends(works: Bytes, idxs: seq<int>, page: int, pageSize: int)
    requires AllSliceable(works, idxs)
    requires PageInRange(|idxs|, page, pageSize)
    ensures
      var hi := Min(page * pageSize + pageSize, |idxs|);
      Snippets(works, idxs[..page * pageSize]) + Page(works, idxs, page, pageSize)
        == Snippets(works, idxs[..hi])
  {
    var b := PageOf(|idxs|, page, pageSize);
    PrefixExtends(works, idxs, b.start, b.end);
  }

  /** Pages `0 .. k` together are the snippets of the first `min((k + 1) * pageSize, n)` offsets, in list order. */
  lemma {:induction false} PagesConcat(works: Bytes, idxs: seq<int>, pageSize: int, k: nat)
    requires AllSliceable(works, idxs) && 0 <= pageSize
    requires k * pageSize <= |idxs|
    ensures Pages(works, idxs, pageSize, k) == Snippets(works, idxs[..Min(k * pageSize + pageSize, |idxs|)])
  {
    MulMonotone(0, k, pageSize);
    var m := k * pageSize;
    var hi := Min(m + pageSize, |idxs|);
    PageExtends(works, idxs, k, pageSize);
    if k == 0 {
      assert idxs[..0] == [];
      assert Snippets(works, idxs[..0]) == [];
    } else {
      PagesStep(works, idxs, pageSize, k);
      MulSucc(k - 1, pageSize);
      assert (k - 1) * pageSize + pageSize == m;
      PagesConcat(works, idxs, pageSize, k - 1);
    }
  }

  /** With a positive page size, pages `0 .. n / pageSize` of a list of `n` offsets together are its page of size `n`. */
  lemma PagesCoverList(works: Bytes, idxs: seq<int>, pageSize: int)
    requires AllSliceable(works, idxs) && 0 < pageSize
    ensures (|idxs| / pageSize) * pageSize <= |idxs|
    ensures PageInRange(|idxs|, 0, |idxs|)
    ensures Pages(works, idxs, pageSize, |idxs| / pageSize) == Page(works, idxs, 0, |idxs|)
    ensures !PageInRange(|idxs|, |idxs| / pageSize + 1, pageSize)
  {
    var n := |idxs|;
    var k := n / pageSize;
    DivBounds(n, pageSize);
    MulSucc(k, pageSize);
    PagesConcat(works, idxs, pageSize, k);
    assert Min(k * pageSize + pageSize, n) == n;
    assert idxs[..n] == idxs;
    assert PageOf(n, 0, n) == Span(0, n);
    assert idxs[0..n] == idxs;
  }

  /**
   With a positive page size, the in-range pages of a query are exactly
   `0 .. n / pageSize`; together they give the same snippets, in the same
   order, as the single page of size `n`. The next page is out of range.
   */
  lemma PagesCoverAll(s: Searcher, lib: Library, query: Bytes, pageSize: int)
    requires s.Valid() && 0 < pageSize
    ensures
      var idxs := MatchOffsets(s, lib, query);
      var n := |idxs|;
      && AllSliceable(s.completeWorks, idxs)
      && (n / pageSize) * pageSize <= n
      && PageInRange(n, 0, n)
      && Pages(s.completeWorks, idxs, pageSize, n / pageSize) == Search(s, lib, query, 0, n)
      && !PageInRange(n, n / pageSize + 1, pageSize)
  {
    var idxs := MatchOffsets(s, lib, query);
    PagesCoverList(s.completeWorks, idxs, pageSize);
  }
}
