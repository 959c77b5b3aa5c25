# Search server core in Dafny

This project models `SearchServer` from `search-server/main.cpp`. It is a small, sequential, in-memory full-text search engine with five parts:

- **Tokenizer.** `SplitIntoWords` cuts text into maximal runs of non-space characters.
- **Ingestion.**
  - `SetStopWords` fills the stop-word set.
  - `AddDocument` drops stop words. Each remaining occurrence then adds `1/n` to `word_to_document_freqs_[word][id]`, where `n` is the number of content words. Finally it stores the document's average rating and status.
- **Query parsing.** `ParseQueryWord` and `ParseQuery` build a set of plus-words and a set of minus-words.
- **Ranking.**
  - `FindAllDocuments` sums TF-IDF over the plus-words, for the documents that pass the caller's filter. It then erases every document that holds a minus-word.
  - `FindTopDocuments` sorts by relevance, then by rating, both descending, and keeps at most `MAX_RESULT_DOCUMENT_COUNT` (5) documents. Its second overload filters by status, `Actual` by default.
- **Matching.** `MatchDocument` returns the plus-words indexed under one document, or none when a minus-word is indexed under it. It also returns the document's status.

Modules, one file each:

| file | module | what it holds |
|---|---|---|
| `tokenizer.dfy` | `Tokenizer` | `Words`, the split as a recursive function; `SplitIntoWords`, the character loop; round-trip lemmas |
| `lexicographic.dfy` | `Lexicographic` | `std::string`'s `operator<`; the ascending order in which a `std::set<string>` is visited |
| `ratings.dfy` | `Ratings` | sums, C++ truncating division, the average rating |
| `documents.dfy` | `Documents` | `DocumentStatus`, `DocumentData`, `Document`, the result order, the in-place sort |
| `inverted_index.dfy` | `InvertedIndex` | the index type, the effect of adding a document's occurrences, and why the frequencies sum to 1 |
| `search_server.dfy` | `Server` | class `SearchServer` with its three fields and all of its operations |

`SearchServer` is a class with the three fields of the C++ class:

- `stopWords: set<string>`
- `wordToDocumentFreqs: map<string, map<int, real>>`
- `documents: map<int, DocumentData>`

`SetStopWords` and `AddDocument` change these fields in loops, as the source does. The query operations are read-only methods. The ghost predicate `Valid()` is the class invariant: every indexed word has an entry for at least one document, and only for stored documents. The constructor establishes it, and `SetStopWords` and `AddDocument` preserve it.

Each query method is proved against a specification function:

- `Relevance` is the TF-IDF sum, taken over the plus-words in ascending order.
- `Selected` says which documents are found.
- `Ranked` is the `Document` a found document yields.
- `IsTopResult` is the promise of `FindTopDocuments`.
- `MatchedWords` is the result of `MatchDocument`.

Nothing in the model reads a clock, the console or the network.

### Where the model follows the code rather than a stricter design

The code does less checking than a stricter design of the same server would. The model follows the code:

- Words are not checked for control characters.
- A negative or repeated document id is not rejected.
  - Re-adding an id keeps its first rating and status, because `emplace` does not overwrite (line 76).
  - Its frequencies still grow by the new text's (line 74).
  - `AddDocument`'s contract states both effects.
- Frequencies accumulate with `+=` rather than being written once.
- A query is never rejected.
  - `"--x"` gives the minus-word `"-x"`.
  - `"-"` gives the empty minus-word.
- `MatchDocument` on an id that was never added is outside its contract. This is a precondition, because the code calls `documents_.at` there (line 127).
- `GetDocumentId` does not exist in the code and is not modelled.

## Model

| member | source | states |
|---|---|---|
| Tokenizer.SplitIntoWords | search-server/main.cpp:28-46 | the character loop with its `word` buffer returns exactly `Words(text)` |
| Tokenizer.Words | search-server/main.cpp:28-46 | every word is non-empty and contains no space |
| Tokenizer.TrailingRun | search-server/main.cpp:30-41 | the buffer holds the run of non-spaces at the end of the text read so far: space-free, preceded by a space or the start, and non-empty exactly when the last character is not a space |
| Tokenizer.TrailingRunIsSuffix | search-server/main.cpp:30-41 | the buffer is a suffix of the text read so far |
| Tokenizer.WordsAroundSpace | search-server/main.cpp:33-37 | a space ends the current word: the words of `a + " " + b` are the words of `a` followed by the words of `b` |
| Tokenizer.SplitJoin | search-server/main.cpp:28-46 | round trip: joining non-empty space-free words with single spaces and splitting gives the words back |
| Tokenizer.WordsKeepEveryOtherCharacter | search-server/main.cpp:28-46 | no character is lost or reordered: the concatenated words equal the text with its spaces removed |
| Lexicographic.LessIsStrictTotalOrder | search-server/main.cpp:181-184 | the string order of the query's `set<string>` is irreflexive, transitive and total |
| Lexicographic.Least | search-server/main.cpp:181-184 | a non-empty set of strings has an element below all the others |
| Lexicographic.AscendingIsSortedEnumeration | search-server/main.cpp:110-117 | the visiting order of a `set<string>` lists every element exactly once, strictly ascending |
| Lexicographic.LeastOf | search-server/main.cpp:110-117 | one pass over a set finds its least element |
| Lexicographic.SortedElements | search-server/main.cpp:110-117 | a range-for over a `set<string>` visits `Ascending(s)` |
| Ratings.TruncatingDiv | search-server/main.cpp:162 | `int` division by a positive count truncates toward zero, for non-negative and negative sums alike |
| Ratings.AverageRating | search-server/main.cpp:154-163 | 0 for no ratings; otherwise the sum divided by the count, truncated toward zero |
| Ratings.AverageRatingExamples | search-server/main.cpp:344-367 | `{5,4,5,3}` gives 4, no ratings give 0, `{-5,2}` gives -1 |
| Documents.SortByRank | search-server/main.cpp:82-88 | after the sort the array is a permutation of its old contents, ordered by relevance descending and then by rating descending |
| Documents.PermutationKeepsDistinctIds | search-server/main.cpp:82 | sorting keeps the document ids distinct |
| Documents.TopOfSorted | search-server/main.cpp:82-91 | the first `n` after the sort are distinct documents of the input, and each ranks at or above every input document left out |
| Documents.IncreasingIdsCount | search-server/main.cpp:230-234 | a list with increasing ids has as many ids as documents |
| InvertedIndex.OneMoreOccurrence | search-server/main.cpp:73-75 | one more occurrence is one more `+=` on its word's entry for the document |
| InvertedIndex.WithOccurrencesEntries | search-server/main.cpp:73-75 | every content word gets an entry for the document; all other entries stay as they were |
| InvertedIndex.RepeatedInverse | search-server/main.cpp:72-74 | adding `1/n` to itself `n` times gives 1 |
| InvertedIndex.Distinct | search-server/main.cpp:73-75 | each word of a document listed once, and nothing else |
| InvertedIndex.CountsAddUpToLength | search-server/main.cpp:73-75 | the occurrence counts of the distinct words add up to the number of words |
| InvertedIndex.FrequenciesSumToOne | search-server/main.cpp:69-77 | for a new id, exactly its content words get an entry, and its frequencies over its distinct words sum to 1 |
| Server.WithoutStopWords | search-server/main.cpp:144-152 | a word is kept exactly when it is in the text and not a stop word; a kept word occurs as often as in the text, and a stop word never |
| Server.IndexedUnder | search-server/main.cpp:110-117 | a word is listed exactly when it is among the given words and indexed under the document; ascending input gives ascending output |
| Server.AscendingIds | search-server/main.cpp:231 | a `map<int, ...>` visits each key once, in ascending order |
| Server.LeastId | search-server/main.cpp:231 | the least key of a non-empty set of ids |
| Server.SearchServer.SetStopWords | search-server/main.cpp:63-67 | the stop words become the old ones plus every word of the text, and `Valid` is kept |
| Server.SearchServer.SplitIntoWordsNoStop | search-server/main.cpp:144-152 | the words of the text that are not stop words, in order |
| Server.SearchServer.ComputeAverageRating | search-server/main.cpp:154-163 | the loop computes `AverageRating(ratings)` |
| Server.SearchServer.AddDocument | search-server/main.cpp:69-77 | the index gains `1/n` per occurrence of each content word. Every content word gets an entry for the id, and no stop word's entry changes. A new id is stored with its average rating and status, while a known id keeps its old record. For a new id with content, the frequencies sum to 1. `Valid` is kept |
| Server.SearchServer.IndexWords | search-server/main.cpp:73-75 | the `+=` loop leaves the index equal to `WithOccurrences` of the words |
| Server.SearchServer.AddedDocumentKeepsValid | search-server/main.cpp:69-77 | indexing a document's words and storing its id keeps every entry non-empty and within the stored documents |
| Server.SearchServer.IdfArgumentsInRange | search-server/main.cpp:202-204 | the IDF of an indexed word is taken over a count of containing documents between 1 and `GetDocumentCount()` |
| Server.SearchServer.ParseQueryWord | search-server/main.cpp:171-179 | minus exactly when the text starts with '-'. Putting that one '-' back before the data gives the text. The word is a stop word exactly when its data is |
| Server.SearchServer.QueryFromWords | search-server/main.cpp:186-199 | a plus-word is exactly a non-stop word of the query that does not start with '-'; a minus-word is exactly a non-stop remainder of a word that does |
| Server.SearchServer.ParseQuery | search-server/main.cpp:186-199 | the loop builds `QueryFromWords(Words(text))` |
| Server.SearchServer.StopWordQueryFindsNothing | search-server/main.cpp:241-263 | a query of stop words only has no plus-words, and no document is found for it |
| Server.SearchServer.NoContributionNoRelevance | search-server/main.cpp:214-218 | a document no plus-word contributes to has relevance 0 |
| Server.SearchServer.FindAllDocuments | search-server/main.cpp:207-236 | each document is listed once, in ascending id order. A document is listed exactly when some indexed plus-word contributes to it under the filter and no minus-word is indexed under it. Each carries its TF-IDF relevance and stored rating |
| Server.SearchServer.AccumulateRelevance | search-server/main.cpp:209-219 | the relevance map holds exactly the documents some plus-word contributes to, each with its TF-IDF sum |
| Server.SearchServer.AddWordRelevance | search-server/main.cpp:213-218 | one plus-word adds tf·idf to every document it is indexed under that passes the filter, and leaves the others alone |
| Server.SearchServer.EraseExcluded | search-server/main.cpp:221-228 | exactly the documents under which a minus-word is indexed are erased; the others keep their relevance |
| Server.SearchServer.ListByAscendingId | search-server/main.cpp:230-234 | one result per map key, in ascending id order, with its relevance and stored rating |
| Server.SearchServer.FindTopDocuments | search-server/main.cpp:80-93 | at most 5 found documents are returned, as many as there are up to 5. They are sorted by relevance and then rating, descending, with distinct ids. Each carries its own relevance and rating, and no found document left out ranks above one returned |
| Server.SearchServer.FirstOfSortedAreTop | search-server/main.cpp:82-91 | sorting every found document and truncating to 5 gives a top result |
| Server.SearchServer.FindTopDocumentsByStatus | search-server/main.cpp:95-100 | a top result under the status filter (default `Actual`); every returned document has the requested status |
| Server.SearchServer.MatchDocument | search-server/main.cpp:106-128 | the words returned are the query's plus-words indexed under the document, strictly ascending, and none when a minus-word is indexed under it. The status is the document's stored status |
| Server.SearchServer.MatchPlusWords | search-server/main.cpp:110-117 | the plus-words indexed under the document, in query order |
| Server.SearchServer.ClearIfExcluded | search-server/main.cpp:118-126 | the matched words are cleared exactly when some minus-word is indexed under the document |
| Server.SearchServer.FoundIffMatched | search-server/main.cpp:106-128 | with a filter that lets everything through, a document is found by the search exactly when matching the same query against it yields a word |

## Left out

- `ReadLine`, `ReadLineWithNumber`, `PrintDocument` and `main` are left out: they do console input and output, or are a demo driver.
- The `Test*` functions are left out. They are an `assert` harness; the properties they check are stated as lemmas and contracts instead.
- `ComputeWordInverseDocumentFreq` is not modelled as `log`. The IDF is a caller-supplied function value `idf(total, containing)` of the two counts that `log(total / containing)` is taken over. `IdfArgumentsInRange` bounds those counts.
- Floating point is left out.
  - Frequencies and relevances are exact reals, so `1/n` added `n` times is exactly 1.
  - The ranking comparator's `1e-6` tolerance is replaced by exact equality of relevances. With a tolerance the comparator is not a strict weak order, so the C++ sort's result is not well defined there.
- `Documents.SortByRank`: the model sorts by insertion sort rather than the unspecified algorithm of `std::sort`. Its contract allows any order among documents of equal rank, as `std::sort` does.
- `Server.SearchServer.ComputeAverageRating` does not model overflow of the 32-bit `int` sum. Integers are unbounded.
- Template filters and lambda captures become a plain function value `(int, DocumentStatus, int) -> bool`.
- `Server.SearchServer.AddWordRelevance` and `Server.SearchServer.EraseExcluded` take the ids of an index entry in any order, where the C++ map visits them in ascending order. Each id is touched once per word, so the result is the same.
- Several loops live in helper methods: the indexing loop of `AddDocument`, the three loops of `FindAllDocuments` and the two loops of `MatchDocument`. Each helper is named after the part of the source function it models.
- The three specification functions carry no contract of their own; lemmas and contracts state their properties instead. They are:
  - `GetDocumentCount`, the size of the document map;
  - `IsStopWord`, membership in the stop-word set;
  - `InverseDocumentFreq`, `idf` applied to the two counts.
