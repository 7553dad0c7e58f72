/**
 The occurrence-index contract the search core relies on.

 The corpus is indexed as bytes. The index is used only through
 `Lookup(q, -1)`: all start offsets of `q`, without duplicates, in an order the
 index does not specify, and nothing at all for an empty `q`. This module
 states that contract and gives a linear-scan reference index that meets it.
 */
module Lookup {

  newtype byte = x: int | 0 <= x < 256

  type Bytes = seq<byte>

  /** An index, seen through `Lookup(q, -1)`: a query maps to its match offsets. */
  type Index = Bytes -> seq<int>

  /** `q` occurs in `text` starting at offset `i`. */
  predicate OccursAt(text: Bytes, q: Bytes, i: int) {
    0 <= i && i + |q| <= |text| && text[i..i + |q|] == q
  }

  /** `needle` is a contiguous part of `hay`. */
  predicate Contains(hay: Bytes, needle: Bytes) {
    exists off | 0 <= off <= |hay| :: OccursAt(hay, needle, off)
  }

  /** The offsets a lookup reports: every occurrence of a non-empty `q`, none for an empty one. */
  function Matches(text: Bytes, q: Bytes): (m: set<int>) {
    if |q| == 0 then {} else set i | 0 <= i <= |text| - |q| && OccursAt(text, q, i)
  }

  predicate Distinct(xs: seq<int>) {
    forall i, j :: 0 <= i < j < |xs| ==> xs[i] != xs[j]
  }

  function Elems(xs: seq<int>): (e: set<int>) {
    set x | x in xs
  }

  /** `idxs` is a correct answer of `Lookup(q, -1)` on an index over `text`. */
  predicate IsLookupResult(text: Bytes, q: Bytes, idxs: seq<int>) {
    Distinct(idxs) && Elems(idxs) == Matches(text, q)
  }

  /** Every reported offset is a real match, so it lies inside the text. */
  lemma LookupResultInText(text: Bytes, q: Bytes, idxs: seq<int>, k: int)
    requires IsLookupResult(text, q, idxs)
    requires 0 <= k < |idxs|
    ensures |q| > 0
    ensures OccursAt(text, q, idxs[k])
    ensures 0 <= idxs[k] < |text|
  {
    assert idxs[k] in Elems(idxs);
  }

  /** A duplicate-free sequence has as many elements as its set of elements. */
  lemma {:induction false} DistinctCard(xs: seq<int>)
    requires Distinct(xs)
    ensures |Elems(xs)| == |xs|
  {
    if xs != [] {
      var t := xs[1..];
      assert Distinct(t) by {
        forall i, j | 0 <= i < j < |t|
          ensures t[i] != t[j]
        {
          assert t[i] == xs[i + 1] && t[j] == xs[j + 1];
        }
      }
      DistinctCard(t);
      assert xs[0] !in Elems(t) by {
        forall j | 0 <= j < |t|
          ensures t[j] != xs[0]
        {
          assert t[j] == xs[j + 1];
        }
      }
      assert Elems(xs) == Elems(t) + {xs[0]} by {
        assert xs == [xs[0]] + t;
      }
    }
  }

  /** A lookup reports each occurrence exactly once, so its length is the match count. */
  lemma LookupCount(text: Bytes, q: Bytes, idxs: seq<int>)
    requires IsLookupResult(text, q, idxs)
    ensures |idxs| == |Matches(text, q)|
  {
    DistinctCard(idxs);
  }

  /** The occurrences of a non-empty `q` at offsets `from` or later, in ascending order. */
  function Scan(text: Bytes, q: Bytes, from: nat): (r: seq<int>)
    requires |q| > 0
    decreases |text| - from
  {
    if from + |q| > |text| then []
    else (if OccursAt(text, q, from) then [from] else []) + Scan(text, q, from + 1)
  }

  lemma {:induction false} ScanSound(text: Bytes, q: Bytes, from: nat)
    requires |q| > 0
    ensures forall k :: 0 <= k < |Scan(text, q, from)| ==>
      from <= Scan(text, q, from)[k] && OccursAt(text, q, Scan(text, q, from)[k])
    ensures forall i, j :: 0 <= i < j < |Scan(text, q, from)| ==>
      Scan(text, q, from)[i] < Scan(text, q, from)[j]
    decreases |text| - from
  {
    if from + |q| <= |text| {
      ScanSound(text, q, from + 1);
    }
  }

  lemma {:induction false} ScanComplete(text: Bytes, q: Bytes, from: nat, i: int)
    requires |q| > 0
    requires from <= i && OccursAt(text, q, i)
    ensures i in Scan(text, q, from)
    decreases |text| - from
  {
    if i != from {
      ScanComplete(text, q, from + 1, i);
    }
  }

  /** A reference index: a linear scan of the text for each query. */
  function NaiveIndex(text: Bytes): (index: Index) {
    q => if |q| == 0 then [] else Scan(text, q, 0)
  }

  /** The linear scan answers every query as the index contract demands, in ascending order. */
  lemma NaiveIndexCorrect(text: Bytes, q: Bytes)
    ensures IsLookupResult(text, q, NaiveIndex(text)(q))
    ensures forall i, j :: 0 <= i < j < |NaiveIndex(text)(q)| ==>
      NaiveIndex(text)(q)[i] < NaiveIndex(text)(q)[j]
  {
    if |q| > 0 {
      var r := Scan(text, q, 0);
      ScanSound(text, q, 0);
      assert Distinct(r);
      forall i | i in Matches(text, q)
        ensures i in Elems(r)
      {
        ScanComplete(text, q, 0, i);
      }
      forall x | x in Elems(r)
        ensures x in Matches(text, q)
      {
        var k :| 0 <= k < |r| && r[k] == x;
      }
    }
  }
}
