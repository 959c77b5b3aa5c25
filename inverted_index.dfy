/** The inverted index: word -> (document id -> term frequency). Frequencies
    are exact reals; every occurrence of a word in a document with n content
    words adds 1/n to that word's entry for the document. */
module InvertedIndex {

  type Index = map<string, map<int, real>>

  /** How often `w` occurs in `words`. */
  function Count(w: string, words: seq<string>): nat
  {
    if words == [] then 0
    else Count(w, words[..|words| - 1]) + (if words[|words| - 1] == w then 1 else 0)
  }

  /** The frequency of `w` in document `id`: its entry, or 0 when there is none. */
  function Frequency(idx: Index, w: string, id: int): real
  {
    if w in idx && id in idx[w] then idx[w][id] else 0.0
  }

  /** `inc` added `c` times over, as `c` executions of `+= inc` do. */
  function Repeated(c: nat, inc: real): real
  {
    if c == 0 then 0.0 else Repeated(c - 1, inc) + inc
  }

  lemma {:induction false} RepeatedAdds(a: nat, b: nat, inc: real)
    ensures Repeated(a + b, inc) == Repeated(a, inc) + Repeated(b, inc)
    decreases b
  {
    if b > 0 {
      RepeatedAdds(a, b - 1, inc);
    }
  }

  lemma {:induction false} RepeatedIsProduct(c: nat, inc: real)
    ensures Repeated(c, inc) == c as real * inc
  {
    if c > 0 {
      RepeatedIsProduct(c - 1, inc);
    }
  }

  /** `idx[w][id] += inc`, creating the entries that are missing at 0. */
  function AddToEntry(idx: Index, w: string, id: int, inc: real): Index
  {
    idx[w := (if w in idx then idx[w] else map[])[id := Frequency(idx, w, id) + inc]]
  }

  /** Word `w`'s entry once `c` occurrences have each added `inc` for document `id`. */
  function EntryAfter(idx: Index, w: string, id: int, c: nat, inc: real): map<int, real>
  {
    (if w in idx then idx[w] else map[])[id := Frequency(idx, w, id) + Repeated(c, inc)]
  }

  /** The index after each occurrence of `words` has added `inv` to its
      word's entry for document `id`: a word of `words` gains `inv` times its
      number of occurrences, and the other entries stay as they were. */
  function WithOccurrences(idx: Index, id: int, words: seq<string>, inv: real): Index
  {
    map w | w in idx.Keys + (set v | v in words) ::
      if w in words then EntryAfter(idx, w, id, Count(w, words), inv) else idx[w]
  }

  /** Every word of `words` gets an entry for `id`; every other entry stays as it was. */
  lemma WithOccurrencesEntries(idx: Index, id: int, words: seq<string>, inv: real)
    ensures forall w :: w in words ==> w in WithOccurrences(idx, id, words, inv) && id in WithOccurrences(idx, id, words, inv)[w]
    ensures forall w :: w !in words ==> (w in WithOccurrences(idx, id, words, inv) <==> w in idx)
    ensures forall w :: w !in words && w in idx ==> WithOccurrences(idx, id, words, inv)[w] == idx[w]
  {
  }

  /** No occurrences leave the index as it was. */
  lemma NoOccurrences(idx: Index, id: int, inv: real)
    ensures WithOccurrences(idx, id, [], inv) == idx
  {
  }

  /** One more occurrence is one more increment of its word's entry. */
  lemma OneMoreOccurrence(idx: Index, id: int, words: seq<string>, x: string, inv: real)
    ensures WithOccurrences(idx, id, words + [x], inv) == AddToEntry(WithOccurrences(idx, id, words, inv), x, id, inv)
  {
    var after := WithOccurrences(idx, id, words + [x], inv);
    var step := AddToEntry(WithOccurrences(idx, id, words, inv), x, id, inv);
    assert (words + [x])[..|words|] == words;
    assert forall w :: w in words + [x] <==> w in words || w == x;
    assert after.Keys == step.Keys;
    forall w | w in after.Keys
      ensures after[w] == step[w]
    {
      if w != x {
        OneMoreOccurrenceOfAnother(idx, id, words, x, inv, w);
      } else if x in words {
        OneMoreOccurrenceOfKnown(idx, id, words, x, inv);
      } else {
        OneMoreOccurrenceOfNew(idx, id, words, x, inv);
      }
    }
  }

  lemma OneMoreOccurrenceOfAnother(idx: Index, id: int, words: seq<string>, x: string, inv: real, w: string)
    requires w != x && w in WithOccurrences(idx, id, words + [x], inv)
    ensures WithOccurrences(idx, id, words + [x], inv)[w] == AddToEntry(WithOccurrences(idx, id, words, inv), x, id, inv)[w]
  {
    assert (words + [x])[..|words|] == words;
    assert w in words + [x] <==> w in words;
    assert Count(w, words + [x]) == Count(w, words);
  }

  lemma OneMoreOccurrenceOfKnown(idx: Index, id: int, words: seq<string>, x: string, inv: real)
    requires x in words
    ensures WithOccurrences(idx, id, words + [x], inv)[x] == AddToEntry(WithOccurrences(idx, id, words, inv), x, id, inv)[x]
  {
    var c := Count(x, words);
    assert (words + [x])[..|words|] == words;
    assert Count(x, words + [x]) == c + 1;
    var mid := WithOccurrences(idx, id, words, inv);
    assert mid[x] == EntryAfter(idx, x, id, c, inv);
    EntryAfterOneMore(mid, idx, x, id, c, inv);
  }

  /** One more increment of an entry is the entry after one more occurrence. */
  lemma EntryAfterOneMore(m: Index, idx: Index, w: string, id: int, c: nat, inc: real)
    requires w in m && m[w] == EntryAfter(idx, w, id, c, inc)
    ensures AddToEntry(m, w, id, inc)[w] == EntryAfter(idx, w, id, c + 1, inc)
  {
    assert Frequency(m, w, id) == Frequency(idx, w, id) + Repeated(c, inc);
  }

  lemma OneMoreOccurrenceOfNew(idx: Index, id: int, words: seq<string>, x: string, inv: real)
    requires x !in words
    ensures WithOccurrences(idx, id, words + [x], inv)[x] == AddToEntry(WithOccurrences(idx, id, words, inv), x, id, inv)[x]
  {
    var mid := WithOccurrences(idx, id, words, inv);
    CountAbsent(words, x);
    assert (words + [x])[..|words|] == words;
    assert Count(x, words + [x]) == 1;
    assert WithOccurrences(idx, id, words + [x], inv)[x] == EntryAfter(idx, x, id, 1, inv);
    if x in idx {
      assert mid[x] == idx[x];
    } else {
      assert x !in mid;
    }
    assert Frequency(mid, x, id) == Frequency(idx, x, id);
    assert Repeated(1, inv) == inv;
  }

  /** The distinct words of `words`, each at its last occurrence. */
  function Distinct(words: seq<string>): (d: seq<string>)
    ensures forall w :: w in d <==> w in words
    ensures forall i, j :: 0 <= i < j < |d| ==> d[i] != d[j]
  {
    if words == [] then []
    else
      var init := Distinct(words[..|words| - 1]);
      assert forall w :: w in words <==> w in words[..|words| - 1] || w == words[|words| - 1];
      if words[|words| - 1] in init then init else init + [words[|words| - 1]]
  }

  /** The sum of document `id`'s frequencies over the words `ws`. */
  function FrequencySum(idx: Index, id: int, ws: seq<string>): real
  {
    if ws == [] then 0.0 else FrequencySum(idx, id, ws[..|ws| - 1]) + Frequency(idx, ws[|ws| - 1], id)
  }

  /** The sum over `ds` of the occurrence counts in `words`. */
  function CountSum(ds: seq<string>, words: seq<string>): nat
  {
    if ds == [] then 0 else CountSum(ds[..|ds| - 1], words) + Count(ds[|ds| - 1], words)
  }

  lemma {:induction false} CountSumOneMore(ds: seq<string>, words: seq<string>, x: string)
    ensures CountSum(ds, words + [x]) == CountSum(ds, words) + Count(x, ds)
  {
    assert (words + [x])[..|words|] == words;
    if ds != [] {
      CountSumOneMore(ds[..|ds| - 1], words, x);
    }
  }

  lemma {:induction false} CountInDistinct(ds: seq<string>, x: string)
    requires forall i, j :: 0 <= i < j < |ds| ==> ds[i] != ds[j]
    requires x in ds
    ensures Count(x, ds) == 1
  {
    var init := ds[..|ds| - 1];
    if ds[|ds| - 1] == x {
      assert x !in init;
      CountAbsent(init, x);
    } else {
      assert x in init;
      CountInDistinct(init, x);
    }
  }

  lemma {:induction false} CountAbsent(ds: seq<string>, x: string)
    requires x !in ds
    ensures Count(x, ds) == 0
  {
    if ds != [] {
      CountAbsent(ds[..|ds| - 1], x);
    }
  }

  /** Counting every distinct word's occurrences counts every word once. */
  lemma {:induction false} CountsAddUpToLength(ds: seq<string>, words: seq<string>)
    requires forall i, j :: 0 <= i < j < |ds| ==> ds[i] != ds[j]
    requires forall w :: w in words ==> w in ds
    ensures CountSum(ds, words) == |words|
  {
    if words == [] {
      CountSumOfNothing(ds);
    } else {
      var init := words[..|words| - 1];
      var x := words[|words| - 1];
      assert init + [x] == words;
      CountsAddUpToLength(ds, init);
      CountSumOneMore(ds, init, x);
      CountInDistinct(ds, x);
    }
  }

  lemma {:induction false} CountSumOfNothing(ds: seq<string>)
    ensures CountSum(ds, []) == 0
  {
    if ds != [] {
      CountSumOfNothing(ds[..|ds| - 1]);
    }
  }

  /** When each frequency is `inv` repeated its word's count times, their sum
      is `inv` repeated the total count. */
  lemma {:induction false} FrequencySumRepeats(idx: Index, id: int, ds: seq<string>, words: seq<string>, inv: real)
    requires forall w :: w in ds ==> Frequency(idx, w, id) == Repeated(Count(w, words), inv)
    ensures FrequencySum(idx, id, ds) == Repeated(CountSum(ds, words), inv)
  {
    if ds != [] {
      var init := ds[..|ds| - 1];
      assert forall w :: w in init ==> w in ds;
      FrequencySumRepeats(idx, id, init, words, inv);
      RepeatedAdds(CountSum(init, words), Count(ds[|ds| - 1], words), inv);
    }
  }

  /** Adding 1/n to itself n times gives 1. */
  lemma RepeatedInverse(n: nat)
    requires n > 0
    ensures Repeated(n, 1.0 / n as real) == 1.0
  {
    RepeatedIsProduct(n, 1.0 / n as real);
  }

  /** Adding a document under a new id gives it an entry for exactly its
      words, and its frequencies over its distinct words sum to 1. */
  lemma FrequenciesSumToOne(idx: Index, id: int, words: seq<string>)
    requires words != []
    requires forall w :: w in idx ==> id !in idx[w]
    ensures forall w :: (w in WithOccurrences(idx, id, words, 1.0 / |words| as real)
                         && id in WithOccurrences(idx, id, words, 1.0 / |words| as real)[w]) <==> w in words
    ensures FrequencySum(WithOccurrences(idx, id, words, 1.0 / |words| as real), id, Distinct(words)) == 1.0
  {
    var inv := 1.0 / |words| as real;
    var after := WithOccurrences(idx, id, words, inv);
    var ds := Distinct(words);
    forall w | w in ds
      ensures Frequency(after, w, id) == Repeated(Count(w, words), inv)
    {
      assert Frequency(idx, w, id) == 0.0;
    }
    FrequencySumRepeats(after, id, ds, words, inv);
    CountsAddUpToLength(ds, words);
    RepeatedInverse(|words|);
  }
}
