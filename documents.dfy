/** Documents, their stored data, and the order in which search results are listed. */
module Documents {

  datatype DocumentStatus = Actual | Irrelevant | Banned | Removed

  /** What the server keeps about a document besides its words. */
  datatype DocumentData = DocumentData(rating: int, status: DocumentStatus)

  /** One search result. The relevance is an exact real here (a `double` in C++). */
  datatype Document = Document(id: int, relevance: real, rating: int)

  /** At most this many documents are returned by a search. */
  const MAX_RESULT_DOCUMENT_COUNT: nat := 5

  /** `a` may be listed before `b`: higher relevance first, and among equal
      relevance the higher rating first. */
  predicate RanksAtLeast(a: Document, b: Document) {
    a.relevance > b.relevance || (a.relevance == b.relevance && a.rating >= b.rating)
  }

  predicate SortedByRank(s: seq<Document>) {
    forall i, j :: 0 <= i < j < |s| ==> RanksAtLeast(s[i], s[j])
  }

  /** No document id occurs twice. */
  predicate DistinctIds(s: seq<Document>) {
    forall i, j :: 0 <= i < j < |s| ==> s[i].id != s[j].id
  }

  predicate IncreasingIds(s: seq<Document>) {
    forall i, j :: 0 <= i < j < |s| ==> s[i].id < s[j].id
  }

  /** The ids of the documents in `s`. */
  function Ids(s: seq<Document>): set<int> {
    set k | 0 <= k < |s| :: s[k].id
  }

  /** std::sort with the result comparator: afterwards no document is listed
      before one that ranks strictly above it, and the array holds the same
      documents as before. */
  method SortByRank(a: array<Document>)
    modifies a
    ensures SortedByRank(a[..])
    ensures multiset(a[..]) == multiset(old(a[..]))
  {
    if a.Length == 0 { return; }
    var i := 1;
    while i < a.Length
      invariant 1 <= i <= a.Length
      invariant forall k, l :: 0 <= k < l < i ==> RanksAtLeast(a[k], a[l])
      invariant multiset(a[..]) == multiset(old(a[..]))
    {
      var j := i;
      while j > 0 && !RanksAtLeast(a[j - 1], a[j])
        invariant 0 <= j <= i
        invariant forall k, l :: 0 <= k < l <= i && k != j && l != j ==> RanksAtLeast(a[k], a[l])
        invariant forall l :: j < l <= i ==> RanksAtLeast(a[j], a[l])
        invariant multiset(a[..]) == multiset(old(a[..]))
      {
        a[j - 1], a[j] := a[j], a[j - 1];
        j := j - 1;
      }
      i := i + 1;
    }
  }

  /** In a sequence without repetitions every element occurs at most once. */
  lemma {:induction false} OccursOnce<T>(s: seq<T>, x: T)
    requires forall i, j :: 0 <= i < j < |s| ==> s[i] != s[j]
    ensures multiset(s)[x] <= 1
  {
    if s != [] {
      var init := s[..|s| - 1];
      OccursOnce(init, x);
      assert s == init + [s[|s| - 1]];
      if x == s[|s| - 1] {
        assert x !in init;
      }
    }
  }

  /** An element found at two positions occurs at least twice. */
  lemma OccursTwice<T>(s: seq<T>, i: nat, j: nat)
    requires i < j < |s| && s[i] == s[j]
    ensures multiset(s)[s[i]] >= 2
  {
    assert s == s[..j] + s[j..];
    assert s[i] in s[..j];
    assert s[j] in s[j..];
  }

  /** Reordering keeps the ids distinct. */
  lemma PermutationKeepsDistinctIds(s: seq<Document>, t: seq<Document>)
    requires multiset(s) == multiset(t) && DistinctIds(s)
    ensures DistinctIds(t)
  {
    forall i, j | 0 <= i < j < |t|
      ensures t[i].id != t[j].id
    {
      if t[i].id == t[j].id {
        assert t[i] in multiset(s) && t[j] in multiset(s);
        var p :| 0 <= p < |s| && s[p] == t[i];
        var q :| 0 <= q < |s| && s[q] == t[j];
        assert p == q;
        OccursTwice(t, i, j);
        OccursOnce(s, t[i]);
      }
    }
  }

  /** The first `n` of a rank-sorted reordering of `all` are distinct
      documents of `all`, and each ranks at or above every document of `all`
      left out of them. */
  lemma TopOfSorted(all: seq<Document>, sorted: seq<Document>, n: nat)
    requires multiset(all) == multiset(sorted) && SortedByRank(sorted) && DistinctIds(all)
    requires n <= |sorted|
    ensures DistinctIds(sorted[..n])
    ensures forall k :: 0 <= k < n ==> sorted[k] in all
    ensures forall p, k :: 0 <= p < |all| && all[p].id !in Ids(sorted[..n]) && 0 <= k < n ==>
      RanksAtLeast(sorted[k], all[p])
  {
    PermutationKeepsDistinctIds(all, sorted);
    forall k | 0 <= k < n
      ensures sorted[k] in all
    {
      assert sorted[k] in multiset(sorted);
    }
    forall p, k | 0 <= p < |all| && all[p].id !in Ids(sorted[..n]) && 0 <= k < n
      ensures RanksAtLeast(sorted[k], all[p])
    {
      assert all[p] in multiset(sorted);
      var q :| 0 <= q < |sorted| && sorted[q] == all[p];
      if q < n {
        assert false;
      }
    }
  }

  lemma IdsOfAppend(s: seq<Document>, d: Document)
    ensures Ids(s + [d]) == Ids(s) + {d.id}
  {
    var t := s + [d];
    assert forall k :: 0 <= k < |s| ==> t[k] == s[k];
    assert t[|s|] == d;
  }

  /** A sequence with increasing ids has as many ids as documents. */
  lemma {:induction false} IncreasingIdsCount(s: seq<Document>)
    requires IncreasingIds(s)
    ensures |Ids(s)| == |s|
  {
    if s != [] {
      var init := s[..|s| - 1];
      IncreasingIdsCount(init);
      assert Ids(s) == Ids(init) + {s[|s| - 1].id};
      assert s[|s| - 1].id !in Ids(init);
    }
  }
}
