/** The search server: stop words, an inverted index from words to term
    frequencies, and a store of document ratings and statuses; documents are
    added one at a time, and queries are ranked by TF-IDF or matched against
    one document. */
module Server {
  import opened Tokenizer
  import opened Lexicographic
  import opened Ratings
  import opened Documents
  import opened InvertedIndex

  /** One word of a query: its text without a leading '-', whether it had
      one, and whether that text is a stop word. */
  datatype QueryWord = QueryWord(data: string, isMinus: bool, isStop: bool)

  datatype Query = Query(plusWords: set<string>, minusWords: set<string>)

  /** The caller's predicate on (id, status, rating) that decides which documents may be ranked. */
  type Filter = (int, DocumentStatus, int) -> bool

  /** Stands for ln(total / containing): the inverse document frequency of a
      word found in `containing` of `total` documents. */
  type Idf = (int, int) -> real

  /** The filter of the status overload of FindTopDocuments. */
  function StatusIs(status: DocumentStatus): Filter {
    (id: int, documentStatus: DocumentStatus, rating: int) => documentStatus == status
  }

  /** The words of `words` that are not stop words, in their order. */
  function WithoutStopWords(words: seq<string>, stopWords: set<string>): (r: seq<string>)
    ensures forall w :: w in r <==> w in words && w !in stopWords
    ensures forall w :: Count(w, r) == if w in stopWords then 0 else Count(w, words)
  {
    if words == [] then []
    else
      var init := words[..|words| - 1];
      var last := words[|words| - 1];
      var r := WithoutStopWords(init, stopWords);
      assert forall w :: w in words <==> w in init || w == last;
      if last in stopWords then r
      else
        assert (r + [last])[..|r|] == r;
        r + [last]
  }

  /** 1/n, the share of one occurrence in a document of n content words.
      (For n = 0 the C++ computes +inf, which its loop never uses.) */
  function InverseWordCount(n: nat): real {
    if n == 0 then 0.0 else 1.0 / n as real
  }

  /** The words among `ws` that are indexed under document `id`, in their order. */
  function IndexedUnder(idx: Index, ws: seq<string>, id: int): (r: seq<string>)
    ensures forall w :: w in r <==> w in ws && w in idx && id in idx[w]
    ensures StrictlyAscending(ws) ==> StrictlyAscending(r)
  {
    if ws == [] then []
    else
      var init := ws[..|ws| - 1];
      var last := ws[|ws| - 1];
      var r := IndexedUnder(idx, init, id);
      assert forall w :: w in ws <==> w in init || w == last;
      if last in idx && id in idx[last] then
        assert forall k :: 0 <= k < |r| ==> r[k] in init;
        r + [last]
      else r
  }

  /** A set of ids that is not empty has an element. */
  lemma HasElement(s: set<int>)
    ensures s != {} ==> exists x :: x in s
  {
    if forall x :: x !in s {
      assert s == {};
    }
  }

  /** The elements of a set of ids in ascending order, as a std::map visits its keys. */
  method AscendingIds(s: set<int>) returns (ids: seq<int>)
    ensures forall i, j :: 0 <= i < j < |ids| ==> ids[i] < ids[j]
    ensures forall x :: x in ids <==> x in s
  {
    ids := [];
    var rest := s;
    while rest != {}
      invariant rest <= s
      invariant forall i, j :: 0 <= i < j < |ids| ==> ids[i] < ids[j]
      invariant forall x :: x in s <==> x in ids || x in rest
      invariant forall k, x :: 0 <= k < |ids| && x in rest ==> ids[k] < x
      decreases |rest|
    {
      var m := LeastId(rest);
      ids := ids + [m];
      rest := rest - {m};
    }
  }

  /** The least of a non-empty set of document ids: std::map hands out its keys in ascending order. */
  method LeastId(s: set<int>) returns (m: int)
    requires s != {}
    ensures m in s && forall x :: x in s ==> m <= x
  {
    HasElement(s);
    m :| m in s;
    var rest := s - {m};
    while rest != {}
      invariant rest <= s && m in s
      invariant forall x :: x in s && x !in rest ==> m <= x
      decreases |rest|
    {
      HasElement(rest);
      var x :| x in rest;
      if x < m { m := x; }
      rest := rest - {x};
    }
  }

  class SearchServer {
    var stopWords: set<string>
    var wordToDocumentFreqs: Index
    var documents: map<int, DocumentData>

    /** Every indexed word has an entry for at least one document, and only
        for documents the store knows. */
    ghost predicate Valid()
      reads this
    {
      forall w :: w in wordToDocumentFreqs ==>
        wordToDocumentFreqs[w].Keys != {} && wordToDocumentFreqs[w].Keys <= documents.Keys
    }

    constructor ()
      ensures Valid()
      ensures stopWords == {} && wordToDocumentFreqs == map[] && documents == map[]
    {
      stopWords := {};
      wordToDocumentFreqs := map[];
      documents := map[];
    }

    /** Adds every word of `text` to the stop words. */
    method SetStopWords(text: string)
      requires Valid()
      modifies this`stopWords
      ensures Valid()
      ensures stopWords == old(stopWords) + (set w | w in Words(text))
    {
      var words := SplitIntoWords(text);
      for i := 0 to |words|
        invariant stopWords == old(stopWords) + (set k | 0 <= k < i :: words[k])
      {
        stopWords := stopWords + {words[i]};
      }
      assert (set k | 0 <= k < |words| :: words[k]) == (set w | w in words);
    }

    predicate IsStopWord(word: string)
      reads this
    {
      word in stopWords
    }

    /** The words of `text` that are not stop words. */
    method SplitIntoWordsNoStop(text: string) returns (words: seq<string>)
      ensures words == WithoutStopWords(Words(text), stopWords)
    {
      var all := SplitIntoWords(text);
      words := [];
      for i := 0 to |all|
        invariant words == WithoutStopWords(all[..i], stopWords)
      {
        assert all[..i + 1][..i] == all[..i];
        if !IsStopWord(all[i]) {
          words := words + [all[i]];
        }
      }
      assert all[..|all|] == all;
    }

    /** The integer mean of the ratings, truncated toward zero; 0 for none. */
    static method ComputeAverageRating(ratings: seq<int>) returns (rating: int)
      ensures rating == AverageRating(ratings)
    {
      if ratings == [] {
        return 0;
      }
      var ratingSum := 0;
      for i := 0 to |ratings|
        invariant ratingSum == Sum(ratings[..i])
      {
        assert ratings[..i + 1][..i] == ratings[..i];
        ratingSum := ratingSum + ratings[i];
      }
      assert ratings[..|ratings|] == ratings;
      rating := TruncatingDiv(ratingSum, |ratings|);
    }

    /** Indexes the content words of `document` under `documentId` and records
        its rating and status. An id that is already stored keeps its first
        record, while its frequencies still grow by the new text's. */
    method AddDocument(documentId: int, document: string, status: DocumentStatus, ratings: seq<int>)
      requires Valid()
      modifies this`wordToDocumentFreqs, this`documents
      ensures Valid()
      ensures var words := WithoutStopWords(Words(document), stopWords);
        wordToDocumentFreqs == WithOccurrences(old(wordToDocumentFreqs), documentId, words, InverseWordCount(|words|))
      ensures documents == if documentId in old(documents) then old(documents)
                           else old(documents)[documentId := DocumentData(AverageRating(ratings), status)]
      ensures forall w :: w in Words(document) && w !in stopWords ==>
        w in wordToDocumentFreqs && documentId in wordToDocumentFreqs[w]
      ensures forall w :: w in stopWords ==>
        (w in wordToDocumentFreqs <==> w in old(wordToDocumentFreqs)) &&
        (w in wordToDocumentFreqs ==> wordToDocumentFreqs[w] == old(wordToDocumentFreqs)[w])
      ensures var words := WithoutStopWords(Words(document), stopWords);
        documentId !in old(documents) && words != [] ==>
          FrequencySum(wordToDocumentFreqs, documentId, Distinct(words)) == 1.0
    {
      var words := SplitIntoWordsNoStop(document);
      var invWordCount := InverseWordCount(|words|);
      IndexWords(documentId, words, invWordCount);
      WithOccurrencesEntries(old(wordToDocumentFreqs), documentId, words, invWordCount);
      var rating := ComputeAverageRating(ratings);
      if documentId !in documents {
        documents := documents[documentId := DocumentData(rating, status)];
      }
      AddedDocumentKeepsValid(old(wordToDocumentFreqs), old(documents), documentId, words, invWordCount);
      if documentId !in old(documents) && words != [] {
        FrequenciesSumToOne(old(wordToDocumentFreqs), documentId, words);
      }
    }

    /** The indexing loop of AddDocument: each occurrence in `words` adds
        `invWordCount` to its word's entry for `documentId`. */
    method IndexWords(documentId: int, words: seq<string>, invWordCount: real)
      modifies this`wordToDocumentFreqs
      ensures wordToDocumentFreqs == WithOccurrences(old(wordToDocumentFreqs), documentId, words, invWordCount)
    {
      ghost var start := wordToDocumentFreqs;
      NoOccurrences(start, documentId, invWordCount);
      assert words[..0] == [];
      for i := 0 to |words|
        invariant wordToDocumentFreqs == WithOccurrences(start, documentId, words[..i], invWordCount)
      {
        var word := words[i];
        var entry := if word in wordToDocumentFreqs then wordToDocumentFreqs[word] else map[];
        var frequency := if documentId in entry then entry[documentId] else 0.0;
        ghost var before := wordToDocumentFreqs;
        wordToDocumentFreqs := wordToDocumentFreqs[word := entry[documentId := frequency + invWordCount]];
        assert wordToDocumentFreqs == AddToEntry(before, word, documentId, invWordCount);
        assert words[..i + 1] == words[..i] + [word];
        OneMoreOccurrence(start, documentId, words[..i], word, invWordCount);
      }
      assert words[..|words|] == words;
    }

    /** Indexing a document's words under its id and storing the id keeps Valid. */
    lemma AddedDocumentKeepsValid(idx: Index, docs: map<int, DocumentData>, id: int, words: seq<string>, inv: real)
      requires forall w :: w in idx ==> idx[w].Keys != {} && idx[w].Keys <= docs.Keys
      requires wordToDocumentFreqs == WithOccurrences(idx, id, words, inv)
      requires documents.Keys == docs.Keys + {id}
      ensures Valid()
    {
      forall w | w in wordToDocumentFreqs
        ensures wordToDocumentFreqs[w].Keys != {} && wordToDocumentFreqs[w].Keys <= documents.Keys
      {
        if w in words {
          assert id in wordToDocumentFreqs[w];
        }
      }
    }

    function GetDocumentCount(): nat
      reads this
    {
      |documents|
    }

    /** The counts given to the inverse document frequency of an indexed word
        are in range: at least one document holds it, and no more than all. */
    lemma IdfArgumentsInRange(w: string)
      requires Valid() && w in wordToDocumentFreqs
      ensures 0 < |wordToDocumentFreqs[w]| <= GetDocumentCount()
    {
      var entry := wordToDocumentFreqs[w];
      HasElement(entry.Keys);
      var id :| id in entry.Keys;
      assert documents.Keys == entry.Keys + (documents.Keys - entry.Keys);
      assert |entry.Keys| >= |{id}|;
    }

    /** One query word: a leading '-' is removed exactly once, and the text
        left is looked up among the stop words. */
    function ParseQueryWord(text: string): (word: QueryWord)
      reads this
      requires text != []
      ensures word.isMinus <==> text[0] == '-'
      ensures (if word.isMinus then ['-'] + word.data else word.data) == text
      ensures word.isStop <==> word.data in stopWords
    {
      var isMinus := text[0] == '-';
      var data := if isMinus then text[1..] else text;
      QueryWord(data, isMinus, IsStopWord(data))
    }

    /** The query made of `words`: a word starting with '-' loses that one '-'
        and becomes a minus-word, any other word is a plus-word, and a word
        whose remaining text is a stop word is dropped. */
    function QueryFromWords(words: seq<string>): (query: Query)
      reads this
      requires forall k :: 0 <= k < |words| ==> words[k] != []
      ensures forall w :: w in query.plusWords <==>
        w !in stopWords && exists k :: 0 <= k < |words| && words[k] == w && words[k][0] != '-'
      ensures forall w :: w in query.minusWords <==>
        w !in stopWords && exists k :: 0 <= k < |words| && words[k][0] == '-' && words[k][1..] == w
    {
      if words == [] then Query({}, {})
      else
        var init := words[..|words| - 1];
        var query := QueryFromWords(init);
        var word := ParseQueryWord(words[|words| - 1]);
        assert forall k :: 0 <= k < |init| ==> init[k] == words[k];
        if word.isStop then query
        else if word.isMinus then query.(minusWords := query.minusWords + {word.data})
        else query.(plusWords := query.plusWords + {word.data})
    }

    /** The query that `text` parses to. */
    function QueryOf(text: string): Query
      reads this
    {
      QueryFromWords(Words(text))
    }

    method ParseQuery(text: string) returns (query: Query)
      ensures query == QueryOf(text)
    {
      var words := SplitIntoWords(text);
      query := Query({}, {});
      for i := 0 to |words|
        invariant query == QueryFromWords(words[..i])
      {
        assert words[..i + 1][..i] == words[..i];
        var queryWord := ParseQueryWord(words[i]);
        if !queryWord.isStop {
          if queryWord.isMinus {
            query := query.(minusWords := query.minusWords + {queryWord.data});
          } else {
            query := query.(plusWords := query.plusWords + {queryWord.data});
          }
        }
      }
      assert words[..|words|] == words;
    }

    /** A query made only of stop words has no plus-word, so no search with
        it finds a document. */
    lemma StopWordQueryFindsNothing(text: string, filter: Filter)
      requires forall w :: w in Words(text) ==> w in stopWords
      ensures QueryOf(text).plusWords == {}
      ensures SelectedIds(QueryOf(text), filter) == {}
    {
    }

    /** The inverse document frequency of an indexed word. */
    function InverseDocumentFreq(w: string, idf: Idf): real
      reads this
      requires w in wordToDocumentFreqs
    {
      idf(GetDocumentCount(), |wordToDocumentFreqs[w]|)
    }

    /** Word `w` adds to document `id`'s relevance: `w` is indexed under `id`
        and the document passes `filter`. */
    ghost predicate Contributes(w: string, id: int, filter: Filter)
      reads this
    {
      && w in wordToDocumentFreqs && id in wordToDocumentFreqs[w] && id in documents
      && filter(id, documents[id].status, documents[id].rating)
    }

    ghost predicate AnyContributes(ws: seq<string>, id: int, filter: Filter)
      reads this
    {
      exists w :: w in ws && Contributes(w, id, filter)
    }

    /** Some word of `ws` is indexed under document `id`. */
    ghost predicate AnyIndexed(ws: seq<string>, id: int)
      reads this
    {
      exists w :: w in ws && w in wordToDocumentFreqs && id in wordToDocumentFreqs[w]
    }

    /** The TF-IDF relevance of document `id`: term frequency times inverse
        document frequency, summed over the words of `ws` that contribute. */
    ghost function Relevance(ws: seq<string>, id: int, filter: Filter, idf: Idf): real
      reads this
    {
      if ws == [] then 0.0
      else
        var w := ws[|ws| - 1];
        Relevance(ws[..|ws| - 1], id, filter, idf) +
        if Contributes(w, id, filter) then wordToDocumentFreqs[w][id] * InverseDocumentFreq(w, idf) else 0.0
    }

    /** A document no word of `ws` contributes to has relevance 0. */
    lemma {:induction false} NoContributionNoRelevance(ws: seq<string>, id: int, filter: Filter, idf: Idf)
      requires !AnyContributes(ws, id, filter)
      ensures Relevance(ws, id, filter, idf) == 0.0
    {
      if ws != [] {
        assert forall w :: w in ws[..|ws| - 1] ==> w in ws;
        NoContributionNoRelevance(ws[..|ws| - 1], id, filter, idf);
      }
    }

    /** Document `id` holds a minus-word of `query`. */
    ghost predicate Excluded(query: Query, id: int)
      reads this
    {
      exists w :: w in query.minusWords && w in wordToDocumentFreqs && id in wordToDocumentFreqs[w]
    }

    /** Document `id` is found: some plus-word contributes to it and it holds no minus-word. */
    ghost predicate Selected(query: Query, filter: Filter, id: int)
      reads this
    {
      (exists w :: w in query.plusWords && Contributes(w, id, filter)) && !Excluded(query, id)
    }

    ghost function SelectedIds(query: Query, filter: Filter): set<int>
      reads this
    {
      set id | id in documents && Selected(query, filter, id)
    }

    /** The result for document `id`: its relevance, the plus-words taken in
        ascending order, and its stored rating. */
    ghost function Ranked(query: Query, filter: Filter, idf: Idf, id: int): Document
      reads this
      requires id in documents
    {
      Document(id, Relevance(Ascending(query.plusWords), id, filter, idf), documents[id].rating)
    }

    /** Every document found for `query`, once each, in ascending id order. */
    method FindAllDocuments(query: Query, filter: Filter, idf: Idf) returns (matched: seq<Document>)
      requires Valid()
      ensures IncreasingIds(matched)
      ensures Ids(matched) == SelectedIds(query, filter)
      ensures forall k :: 0 <= k < |matched| ==>
        matched[k].id in documents && matched[k] == Ranked(query, filter, idf, matched[k].id)
    {
      var plus := SortedElements(query.plusWords);
      var documentToRelevance := AccumulateRelevance(plus, filter, idf);
      var minus := SortedElements(query.minusWords);
      documentToRelevance := EraseExcluded(minus, documentToRelevance);
      forall id | id in documentToRelevance
        ensures id in documents
      {
        var w :| w in plus && Contributes(w, id, filter);
      }
      matched := ListByAscendingId(documentToRelevance);
      AscendingIsSortedEnumeration(query.plusWords);
      AscendingIsSortedEnumeration(query.minusWords);
      assert forall id :: id in documentToRelevance <==> id in documents && Selected(query, filter, id);
    }

    /** The first loop of FindAllDocuments: the relevance of every document
        some word of `plus` contributes to. */
    method AccumulateRelevance(plus: seq<string>, filter: Filter, idf: Idf) returns (documentToRelevance: map<int, real>)
      requires Valid()
      ensures forall id :: id in documentToRelevance <==> AnyContributes(plus, id, filter)
      ensures forall id :: id in documentToRelevance ==>
        documentToRelevance[id] == Relevance(plus, id, filter, idf)
    {
      documentToRelevance := map[];
      for i := 0 to |plus|
        invariant forall id :: id in documentToRelevance <==> AnyContributes(plus[..i], id, filter)
        invariant forall id :: id in documentToRelevance ==>
          documentToRelevance[id] == Relevance(plus[..i], id, filter, idf)
      {
        var word := plus[i];
        ghost var before := documentToRelevance;
        if word in wordToDocumentFreqs {
          documentToRelevance := AddWordRelevance(word, filter, idf, documentToRelevance);
        }
        assert plus[..i + 1][..i] == plus[..i];
        assert forall w :: w in plus[..i + 1] <==> w in plus[..i] || w == word;
        forall id | id in documentToRelevance
          ensures documentToRelevance[id] == Relevance(plus[..i + 1], id, filter, idf)
        {
          if id !in before {
            NoContributionNoRelevance(plus[..i], id, filter, idf);
          }
        }
      }
      assert plus[..|plus|] == plus;
    }

    /** The inner loop of AccumulateRelevance for one plus-word: every
        document it is indexed under that passes `filter` gains tf * idf.
        The C++ visits the ids in ascending order; each id is updated once,
        so the ids are taken here in any order. */
    method AddWordRelevance(word: string, filter: Filter, idf: Idf, relevance: map<int, real>)
      returns (documentToRelevance: map<int, real>)
      requires word in wordToDocumentFreqs && wordToDocumentFreqs[word].Keys <= documents.Keys
      ensures forall id :: id in documentToRelevance <==> id in relevance || Contributes(word, id, filter)
      ensures forall id :: id in documentToRelevance ==>
        documentToRelevance[id] == (if id in relevance then relevance[id] else 0.0) +
          (if Contributes(word, id, filter) then wordToDocumentFreqs[word][id] * InverseDocumentFreq(word, idf) else 0.0)
    {
      var inverseDocumentFreq := InverseDocumentFreq(word, idf);
      var entry := wordToDocumentFreqs[word];
      var pending := entry.Keys;
      documentToRelevance := relevance;
      while pending != {}
        invariant pending <= entry.Keys
        invariant forall id :: id in documentToRelevance <==>
          id in relevance || (id in entry.Keys - pending && Contributes(word, id, filter))
        invariant forall id :: id in documentToRelevance ==>
          documentToRelevance[id] == (if id in relevance then relevance[id] else 0.0) +
            (if id in entry.Keys - pending && Contributes(word, id, filter) then entry[id] * inverseDocumentFreq else 0.0)
        decreases |pending|
      {
        HasElement(pending);
        var id :| id in pending;
        if filter(id, documents[id].status, documents[id].rating) {
          var current := if id in documentToRelevance then documentToRelevance[id] else 0.0;
          documentToRelevance := documentToRelevance[id := current + entry[id] * inverseDocumentFreq];
        }
        pending := pending - {id};
      }
    }

    /** The second loop of FindAllDocuments: drops every document a word of
        `minus` is indexed under (erasing commutes, so the ids of an entry
        are taken in any order). */
    method EraseExcluded(minus: seq<string>, relevance: map<int, real>) returns (documentToRelevance: map<int, real>)
      ensures forall id :: id in documentToRelevance <==> id in relevance && !AnyIndexed(minus, id)
      ensures forall id :: id in documentToRelevance ==> documentToRelevance[id] == relevance[id]
    {
      documentToRelevance := relevance;
      for i := 0 to |minus|
        invariant forall id :: id in documentToRelevance <==> id in relevance && !AnyIndexed(minus[..i], id)
        invariant forall id :: id in documentToRelevance ==> documentToRelevance[id] == relevance[id]
      {
        var word := minus[i];
        assert forall w :: w in minus[..i + 1] <==> w in minus[..i] || w == word;
        if word in wordToDocumentFreqs {
          var entry := wordToDocumentFreqs[word];
          var pending := entry.Keys;
          ghost var before := documentToRelevance;
          while pending != {}
            invariant pending <= entry.Keys
            invariant forall id :: id in documentToRelevance <==> id in before && id !in entry.Keys - pending
            invariant forall id :: id in documentToRelevance ==> documentToRelevance[id] == before[id]
            decreases |pending|
          {
            HasElement(pending);
            var id :| id in pending;
            documentToRelevance := documentToRelevance - {id};
            pending := pending - {id};
          }
        }
      }
      assert minus[..|minus|] == minus;
    }

    /** The last loop of FindAllDocuments: one result per document, in the
        ascending key order in which a std::map is visited. */
    method ListByAscendingId(documentToRelevance: map<int, real>) returns (matched: seq<Document>)
      requires documentToRelevance.Keys <= documents.Keys
      ensures IncreasingIds(matched)
      ensures Ids(matched) == documentToRelevance.Keys
      ensures forall k :: 0 <= k < |matched| ==>
        matched[k].id in documents &&
        matched[k] == Document(matched[k].id, documentToRelevance[matched[k].id], documents[matched[k].id].rating)
    {
      var ids := AscendingIds(documentToRelevance.Keys);
      assert forall k :: 0 <= k < |ids| ==> ids[k] in ids;
      matched := [];
      for i := 0 to |ids|
        invariant |matched| == i
        invariant forall k :: 0 <= k < i ==>
          matched[k] == Document(ids[k], documentToRelevance[ids[k]], documents[ids[k]].rating)
      {
        matched := matched + [Document(ids[i], documentToRelevance[ids[i]], documents[ids[i]].rating)];
      }
      forall x | x in documentToRelevance
        ensures x in Ids(matched)
      {
        var k :| 0 <= k < |ids| && ids[k] == x;
        assert matched[k].id == x;
      }
    }

    /** At most MAX_RESULT_DOCUMENT_COUNT of the documents found for `query`,
        best first, and no found document left out ranks above one returned. */
    ghost predicate IsTopResult(top: seq<Document>, query: Query, filter: Filter, idf: Idf)
      reads this
    {
      && |top| == (if |SelectedIds(query, filter)| < MAX_RESULT_DOCUMENT_COUNT
                   then |SelectedIds(query, filter)| else MAX_RESULT_DOCUMENT_COUNT)
      && SortedByRank(top)
      && DistinctIds(top)
      && (forall k :: 0 <= k < |top| ==>
            top[k].id in SelectedIds(query, filter) && top[k] == Ranked(query, filter, idf, top[k].id))
      && (forall id, k :: id in SelectedIds(query, filter) && id !in Ids(top) && 0 <= k < |top| ==>
            RanksAtLeast(top[k], Ranked(query, filter, idf, id)))
    }

    method FindTopDocuments(rawQuery: string, filter: Filter, idf: Idf) returns (top: seq<Document>)
      requires Valid()
      ensures IsTopResult(top, QueryOf(rawQuery), filter, idf)
    {
      var query := ParseQuery(rawQuery);
      var matchedDocuments := FindAllDocuments(query, filter, idf);
      var a := new Document[|matchedDocuments|](k requires 0 <= k < |matchedDocuments| => matchedDocuments[k]);
      assert a[..] == matchedDocuments;
      SortByRank(a);
      var n := if a.Length > MAX_RESULT_DOCUMENT_COUNT then MAX_RESULT_DOCUMENT_COUNT else a.Length;
      top := a[..n];
      FirstOfSortedAreTop(query, filter, idf, matchedDocuments, a[..], n);
    }

    /** The first `n` after sorting every found document by rank, with `n` the
        smaller of their number and MAX_RESULT_DOCUMENT_COUNT, are a top result. */
    lemma FirstOfSortedAreTop(query: Query, filter: Filter, idf: Idf, all: seq<Document>, sorted: seq<Document>, n: nat)
      requires IncreasingIds(all) && Ids(all) == SelectedIds(query, filter)
      requires forall k :: 0 <= k < |all| ==> all[k].id in documents && all[k] == Ranked(query, filter, idf, all[k].id)
      requires multiset(all) == multiset(sorted) && SortedByRank(sorted)
      requires n == if |sorted| > MAX_RESULT_DOCUMENT_COUNT then MAX_RESULT_DOCUMENT_COUNT else |sorted|
      ensures IsTopResult(sorted[..n], query, filter, idf)
    {
      var top := sorted[..n];
      assert |sorted| == |all| by {
        assert |multiset(all)| == |multiset(sorted)|;
      }
      TopOfSorted(all, sorted, n);
      IncreasingIdsCount(all);
      forall k | 0 <= k < |top|
        ensures top[k].id in SelectedIds(query, filter) && top[k] == Ranked(query, filter, idf, top[k].id)
      {
        var p :| 0 <= p < |all| && all[p] == top[k];
        assert all[p].id in Ids(all);
      }
      forall id, k | id in SelectedIds(query, filter) && id !in Ids(top) && 0 <= k < |top|
        ensures RanksAtLeast(top[k], Ranked(query, filter, idf, id))
      {
        var p :| 0 <= p < |all| && all[p].id == id;
      }
    }

    /** The status overload: ranks only documents whose status is `status`. */
    method FindTopDocumentsByStatus(rawQuery: string, idf: Idf, status: DocumentStatus := Actual)
      returns (top: seq<Document>)
      requires Valid()
      ensures IsTopResult(top, QueryOf(rawQuery), StatusIs(status), idf)
      ensures forall k :: 0 <= k < |top| ==> documents[top[k].id].status == status
    {
      top := FindTopDocuments(rawQuery, StatusIs(status), idf);
    }

    /** What matching `query` against document `id` yields: its indexed
        plus-words in ascending order, or none when it holds a minus-word. */
    ghost function MatchedWords(query: Query, id: int): seq<string>
      reads this
    {
      if Excluded(query, id) then [] else IndexedUnder(wordToDocumentFreqs, Ascending(query.plusWords), id)
    }

    method MatchDocument(rawQuery: string, documentId: int) returns (matchedWords: seq<string>, status: DocumentStatus)
      requires documentId in documents
      ensures matchedWords == MatchedWords(QueryOf(rawQuery), documentId)
      ensures StrictlyAscending(matchedWords)
      ensures forall w :: w in matchedWords <==>
        !Excluded(QueryOf(rawQuery), documentId) && w in QueryOf(rawQuery).plusWords &&
        w in wordToDocumentFreqs && documentId in wordToDocumentFreqs[w]
      ensures status == documents[documentId].status
    {
      var query := ParseQuery(rawQuery);
      var plus := SortedElements(query.plusWords);
      matchedWords := MatchPlusWords(plus, documentId);
      var minus := SortedElements(query.minusWords);
      matchedWords := ClearIfExcluded(minus, documentId, matchedWords);
      AscendingIsSortedEnumeration(query.plusWords);
      AscendingIsSortedEnumeration(query.minusWords);
      assert AnyIndexed(minus, documentId) <==> Excluded(query, documentId);
      status := documents[documentId].status;
    }

    /** The first loop of MatchDocument: the words of `plus` indexed under
        `documentId`, in their order. */
    method MatchPlusWords(plus: seq<string>, documentId: int) returns (matchedWords: seq<string>)
      ensures matchedWords == IndexedUnder(wordToDocumentFreqs, plus, documentId)
    {
      matchedWords := [];
      for i := 0 to |plus|
        invariant matchedWords == IndexedUnder(wordToDocumentFreqs, plus[..i], documentId)
      {
        var word := plus[i];
        assert plus[..i + 1][..i] == plus[..i];
        if word !in wordToDocumentFreqs {
          continue;
        }
        if documentId in wordToDocumentFreqs[word] {
          matchedWords := matchedWords + [word];
        }
      }
      assert plus[..|plus|] == plus;
    }

    /** The second loop of MatchDocument: the matched words are cleared as
        soon as a word of `minus` is indexed under `documentId`. */
    method ClearIfExcluded(minus: seq<string>, documentId: int, words: seq<string>) returns (matchedWords: seq<string>)
      ensures matchedWords == if AnyIndexed(minus, documentId) then [] else words
    {
      matchedWords := words;
      var i := 0;
      while i < |minus|
        invariant 0 <= i <= |minus|
        invariant !AnyIndexed(minus[..i], documentId)
        invariant matchedWords == words
      {
        var word := minus[i];
        assert forall w :: w in minus[..i + 1] <==> w in minus[..i] || w == word;
        if word !in wordToDocumentFreqs {
          i := i + 1;
          continue;
        }
        if documentId in wordToDocumentFreqs[word] {
          assert word in minus;
          matchedWords := [];
          break;
        }
        i := i + 1;
      }
      assert i == |minus| ==> minus[..i] == minus;
    }

    /** Ranking and matching agree: with a filter that lets every document
        through, a document is found exactly when matching yields some word. */
    lemma FoundIffMatched(query: Query, id: int)
      requires id in documents
      ensures id in SelectedIds(query, (i: int, s: DocumentStatus, r: int) => true) <==> MatchedWords(query, id) != []
    {
      AscendingIsSortedEnumeration(query.plusWords);
      var words := IndexedUnder(wordToDocumentFreqs, Ascending(query.plusWords), id);
      if words != [] {
        assert words[0] in words;
      }
    }
  }
}
