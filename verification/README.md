# Anagram corpus engine — a Dafny model

The anagram service keeps a corpus of words. Each stored row holds:

- the word;
- its letters sorted by code point;
- the letters of the lower-cased word, sorted (the *lowercase key*, which groups anagrams case-insensitively);
- a proper-noun flag (Python's `str.istitle`);
- the length.

The service's views add words with get-or-create semantics, delete one word or every word, and answer four read queries:

- the anagrams of a word, with an optional limit and an optional proper-noun filter;
- the biggest anagram group;
- whether a list of words are all anagrams of each other;
- length statistics (count, minimum, maximum, mean and median).

This project models that engine as pure functions over an immutable sequence of rows and proves what each view promises.

Modules:

- `Wrappers` (`wrappers.dfy`): `Option` and `Result`.
- `Sequences` (`sequences.dfy`): the generic pieces the querysets map onto. These are filter, truncation, sum, extrema, and a stable insertion sort by an integer rank, together with its uniqueness lemma: a sorted permutation is unique.
- `Keys` (`keys.dfy`): the sorted key, the lowercase key and ASCII `lower`. It also holds `istitle`, both as Python's scanning loop and as a declarative definition proved equal to it, and the code-point order on keys.
- `CorpusStore` (`corpus_store.dfy`): the row record and the corpus invariant `WellFormed`. Every row carries the fields derived from its word, and no word is stored twice. It also holds the mutations: adding a list of words, deleting one word, deleting everything.
- `Queries` (`queries.dfy`): anagrams for a word, the biggest group and the anagram check.
- `Statistics` (`statistics.dfy`): the length report.
- `Scenarios` (`scenarios.dfy`): the situations of the project's test cases, stated over any corpus that fits them.

Modelling decisions:

- Characters lower-case and classify by ASCII rules only.
- Averages and medians are exact `real`s.
- Result order of the anagram query is the corpus order. The source's queryset has no `order_by`, so no contract relies on that order beyond "the limited result is a prefix of the unlimited one".
- The `Word` model is not part of this model. Its fields are taken from the `get_or_create` call in `anagram/views.py:34-40`.
- `calculate_median` is not part of this model either. Its meaning is taken from the expected values in `anagram/tests.py:113` and `:133`: the middle length for an odd count, the mean of the two middle lengths for an even count.
- `get_or_create` looks a row up by all five fields, so `Add` appends a row unless an identical row exists. Under `WellFormed` that is the same as a lookup by the word alone (`AddLooksUpByWord`), and no row is stored twice (`RowsOccurOnce`).
- `get_object_or_404` has a multiple-rows error. `DeleteWord` models it, and its contract shows it cannot happen in a well-formed corpus.
- A negative `limit` makes the ORM refuse the slice. It is modelled as the error `NegativeLimit`.

The test at `anagram/tests.py:64` expects the query `"Zab"` to find no anagrams. The code at `anagram/views.py:132` lower-cases the query before computing its key, so against the test's corpus `"Zab"` finds `"baz"` and `"zab"`. The model follows the code: `Scenarios.CaseOnlyDifferenceMatches` proves that a query differing from a stored word only in letter case returns that word, and `Scenarios.ZabFindsZab` applies it to the test's query.

## Model

| member | source | states |
|---|---|---|
| Sequences.Filter | anagram/views.py:133 | the filtered rows are at most as many as the input; a row is kept exactly when it is stored and satisfies the condition; each kept row keeps its multiplicity |
| Sequences.Take | anagram/views.py:134-136 | the slice has min(n, m) rows for m rows, and they are the first rows of the input in order |
| Sequences.SortedUnique | anagram/views.py:36 | two sequences sorted by an injective rank and holding the same elements are equal, so a sorted key is determined by the letters alone |
| Keys.SortedKey | anagram/views.py:36 | the sorted word is in code-point order and is a rearrangement of the word |
| Keys.LowercaseKey | anagram/views.py:37 | the lowercase key is in code-point order and is a rearrangement of the lower-cased word |
| Keys.Lower | anagram/views.py:37 | the lower-cased word has the word's length, and each character is the lower-case form of the word's character at that place, so no capital remains |
| Keys.SortedKeyIffPermutation | anagram/views.py:36 | two words have the same sorted word exactly when each is a rearrangement of the other |
| Keys.LowercaseKeyIffAnagram | anagram/views.py:37 | two words have the same lowercase key exactly when their lower-cased forms are rearrangements of each other |
| Keys.LowercaseKeyIgnoresCase | anagram/views.py:132 | words that lower-case alike have the same lowercase key |
| Keys.TitleScanMeaning | anagram/views.py:38 | from any scan state, the `istitle` loop succeeds exactly when the rest of the word keeps the capital/small placement rules and a cased letter has been or will be seen |
| Keys.IsTitle | anagram/views.py:38 | `istitle` holds exactly when the word has a cased letter, every capital is first or follows an uncased character, and every small letter follows a cased one |
| Keys.TitleScanIffTitleShaped | anagram/views.py:38 | the scanning loop, started before the first character with nothing seen, accepts exactly the title-shaped words |
| Keys.LexLe | anagram/views.py:88 | a key that is a prefix of another key, the empty key included, comes no later than it |
| Keys.LexLeTotal | anagram/views.py:88 | any two keys are comparable in code-point order |
| Keys.LexLeTransitive | anagram/views.py:88 | the key order is transitive |
| Keys.LexLeAntisymmetric | anagram/views.py:88 | keys ordered both ways are equal, so the tie-break names one key |
| CorpusStore.MakeEntry | anagram/views.py:34-40 | a new row holds the word and its length; its sorted word and lowercase key are sorted rearrangements of the word and of the lower-cased word; it is flagged a proper noun exactly when the word is title-shaped |
| CorpusStore.StoredRowsDerived | anagram/views.py:34-40 | every row of a well-formed corpus equals the row built from its own word, so its keys, flag and length are that word's |
| CorpusStore.RowKeyOf | anagram/views.py:37-39 | a stored row's lowercase key and length are those of its own word |
| CorpusStore.AppendFreshKeepsWellFormed | anagram/views.py:34-40 | appending the row of a word not yet stored keeps the corpus well formed |
| CorpusStore.Add | anagram/views.py:34-40 | afterwards the word's row is stored; the corpus grows by at most one row; earlier rows keep their places; the only new row is the word's; the invariant is kept |
| CorpusStore.AddLooksUpByWord | anagram/views.py:34-40 | in a well-formed corpus the all-fields lookup finds a row exactly when some row holds the word |
| CorpusStore.RowsOccurOnce | anagram/views.py:34-40 | a well-formed corpus holds each row at most once, so the all-fields lookup of `get_or_create` never matches two rows |
| CorpusStore.AddWords | anagram/views.py:33-40 | every posted word is stored afterwards; every row was there before or belongs to a posted word; at most one row per posted word is added; earlier rows keep their places; the invariant is kept |
| CorpusStore.AddNewWords | anagram/views.py:33-40 | posting words that are new and pairwise different appends one row per word, in request order |
| CorpusStore.AddWordsPresent | anagram/views.py:34-40 | posting words whose rows are all stored changes nothing |
| CorpusStore.AddWordsIdempotent | anagram/views.py:33-40 | posting the same list twice leaves the corpus as after the first post |
| CorpusStore.AddWordsStoresOnce | anagram/tests.py:29-30 | after a post into a well-formed corpus, each posted word is held by exactly one row |
| CorpusStore.StoredOnce | anagram/views.py:57 | with words distinct, the lookup by word finds one row if the word is stored and none otherwise |
| CorpusStore.DeleteAll | anagram/views.py:46 | deleting everything leaves no row |
| CorpusStore.RemoveSingleRow | anagram/views.py:58 | removing the one row that holds a word loses exactly that row and keeps all others |
| CorpusStore.WithoutWordKeepsWellFormed | anagram/views.py:58 | removing a word's rows keeps the invariant |
| CorpusStore.DeleteWord | anagram/views.py:57-58 | not-found exactly when no row holds the word; on success one row fewer, the remaining rows are exactly the stored rows without the word, and the removed row held the word; a well-formed corpus never yields the multiple-rows error and stays well formed |
| Queries.Matching | anagram/views.py:133 | a row matches exactly when it is stored, has the query's lowercase key and does not hold the query string; rows with pairwise different words stay so |
| Queries.CommonNouns | anagram/views.py:137-139 | exactly the rows not flagged as proper nouns are kept; rows with pairwise different words stay so |
| Queries.CandidatesMeaning | anagram/views.py:133 | a candidate row is a stored row with the query's lowercase key, not holding the query string, and not a proper noun when those are excluded |
| Queries.AnagramsFor | anagram/views.py:132-140 | fails exactly for a negative limit; every returned word differs from the query and is stored with the query's lowercase key, passing the proper-noun filter if asked; without a limit every such word is returned; with a limit at most that many |
| Queries.AnagramsForDistinct | anagram/views.py:132-140 | in a well-formed corpus no word is returned twice, with or without a limit or the proper-noun filter |
| Queries.LimitTruncates | anagram/views.py:134-136 | with limit n the result is the first min(n, m) of the m unlimited results, so limit 0 gives none |
| Queries.ExcludeProperNounsFilters | anagram/views.py:137-139 | the filtered result only contains words of the unfiltered one |
| Queries.AnagramsAreAnagrams | anagram/views.py:132-133 | in a well-formed corpus every returned word has the query's lowercase key and the same letters after lower-casing, and is not title-cased when proper nouns are excluded |
| Queries.AnagramsAsWritten | anagram/views.py:133-139 | the view as written fails for a negative limit and whenever a limit and the proper-noun filter are both given; otherwise it agrees with `AnagramsFor` |
| Queries.SliceThenFilterRejected | anagram/views.py:134-139 | a limit with the proper-noun filter fails as written, while the intended query returns the first min(n, m) of the m common-noun anagrams |
| Queries.OutranksTotal | anagram/views.py:88 | of any two keys, one comes no later than the other under count-descending, key-ascending order |
| Queries.OutranksAntisymmetric | anagram/views.py:88 | two keys that each come no later than the other are equal, so `.first()` has a single answer |
| Queries.OutranksTransitive | anagram/views.py:88 | that order is transitive |
| Queries.PickBest | anagram/views.py:88 | `.first()` picks a key from the list that comes no later than any key in it |
| Queries.BestKeyOutranksAll | anagram/views.py:87-88 | the chosen key is some row's key and comes no later than every row's key |
| Queries.BiggestGroup | anagram/views.py:87-92 | an empty corpus gives (0, []); the count is the number of listed words; a nonempty corpus gives a nonempty group; no group is larger; the listed words are the group of a stored key that wins the size-then-key order |
| Queries.BiggestGroupSharesKey | anagram/views.py:91-92 | in a well-formed corpus the listed words share one lowercase key, and every stored word with that key is listed |
| Queries.AreAnagrams | anagram/views.py:103-104 | the check holds exactly when the list is nonempty and every word has the first word's lowercase key |
| Queries.AreAnagramsPair | anagram/views.py:103-104 | two words pass exactly when their lower-cased forms are rearrangements of each other |
| Queries.AreAnagramsIgnoresOrder | anagram/views.py:103-104 | the verdict does not depend on the order of the words |
| Queries.AreAnagramsIgnoresCase | anagram/views.py:103-104 | the verdict does not depend on the letter case of the words |
| Statistics.Lengths | anagram/views.py:70 | the length list has one entry per row, in row order, each the row's length |
| Statistics.Ascending | anagram/views.py:70 | the lengths in ascending order are a rearrangement of the stored lengths |
| Statistics.Median | anagram/tests.py:113 | the median lies between the smallest and largest length; for an odd count it is the middle length, for an even count it lies between the two middle lengths |
| Statistics.Average | anagram/views.py:68 | the mean times the count is the total length, and it lies between the minimum and maximum |
| Statistics.AscendingEnds | anagram/views.py:66-67 | the first and last ascending lengths are the minimum and maximum |
| Statistics.SumAscending | anagram/views.py:68 | sorting the lengths keeps their total |
| Statistics.Stats | anagram/views.py:64-79 | the count is the number of rows; an empty corpus reports nothing else; otherwise minimum and maximum bound every row and are attained, the mean times the count is the total, mean and median lie between minimum and maximum, and the median is the middle ascending length or the mean of the two middle ones |
| Statistics.StatsIgnoreOrder | anagram/views.py:64-70 | corpora holding the same lengths in any arrangement get the same report |
| Scenarios.CaseOnlyDifferenceMatches | anagram/views.py:132-133 | a query differing from a stored word only in letter case returns that word |
| Scenarios.ZabLowersToZab | anagram/tests.py:64 | "Zab" and "zab" are different strings that lower-case alike |
| Scenarios.ZabFindsZab | anagram/tests.py:64 | once "zab" is stored in a well-formed corpus, the query "Zab" returns it, where the test expects no anagrams |
| Scenarios.TitleExamples | anagram/views.py:38 | "Food", "F" and "New York" are proper nouns |
| Scenarios.NotTitleExamples | anagram/views.py:38 | "food", "FOOD", "" and "McDonald" are not proper nouns |
| Scenarios.LimitExamples | anagram/tests.py:78 | with two anagrams stored, limits 1, 2, 5 and 0 return 1, 2, 2 and 0 words |
| Scenarios.StatsOfEightWords | anagram/tests.py:108-115 | lengths 2, 3, 3, 3, 3, 4, 7, 10 give count 8, minimum 2, maximum 10, mean 4.375, median 3.0 |
| Scenarios.StatsOfOneWord | anagram/tests.py:118-124 | one word of length 6 gives 6 for every statistic |
| Scenarios.StatsOfTwoWords | anagram/tests.py:128-134 | lengths 5 and 6 give mean and median 5.5 |
| Scenarios.EmptyCorpusReports | anagram/tests.py:138-145 | after deleting everything the report holds only the count 0, and the biggest group is (0, []) |

## Left out

- HTTP and REST-framework plumbing: routing, permission classes, serializers, status codes and response objects. Each view is a function from the corpus and its arguments to a result.
- Request validation by the serializers: the 100-character limit on words and the shape of the request bodies. Words are any strings.
- The word-list serializer of the anagram check is not part of this model. `AreAnagrams` takes any list; an empty list gives false, as `len(set(...)) == 1` does.
- `to_python_bool` in `anagram/helpers.py`: the proper-noun option arrives as a `bool`.
- Parsing of the `limit` query parameter: `int(limit)` on a non-number raises before the query. The limit arrives as an `Option<int>`.
- `anagram/models.py`: an older schema that the views do not use. The row's `id` column is left out as well; counts are row counts.
- `dictionary_to_anagram_fixtures.py`: file I/O for loading a dictionary.
- Statistics.Stats: the 4-decimal rounding of mean and median at `anagram/views.py:78-79` is not applied. The values are exact rationals; the test values are exact in both.
- Keys.Lower: lower-cases ASCII letters only, because full Unicode case mapping is out of scope. Keys.IsTitle is restricted to ASCII cased letters for the same reason.
- Keys.LexLe: orders keys by code point. The database collation that decides the tie-break of the biggest group may order differently.
- Queries.AnagramsFor: returns rows in corpus order. The database promises no order for this query, so the model fixes one.
- CorpusStore.Add: does not model the `MultipleObjectsReturned` error that `get_or_create` raises when two identical rows exist. `RowsOccurOnce` shows a well-formed corpus never holds two identical rows, so the error cannot arise from the views.
- Queries.BiggestGroup: lists the group's words in corpus order. The database promises no order for this query, so the model fixes one; only the set of listed words is what the source promises.
- Database transactions, concurrent requests and locking.

## Findings

| source | as written | input that shows it | evidently intended | confidence | as-written member | corrected member |
|---|---|---|---|---|---|---|
| anagram/views.py:134-139 | the queryset is sliced to `limit` first, and the proper-noun exclusion is then applied to the sliced queryset, which the ORM refuses | any word with `limit=1&exclude_proper_nouns=true` | exclude proper nouns first, then return at most `limit` of the remaining anagrams | not executed | Queries.AnagramsAsWritten | Queries.AnagramsFor |

`Queries.SliceThenFilterRejected` proves both halves. For every corpus, query and limit, the as-written view fails with `FilterAfterSlice`, while `AnagramsFor` returns the first min(n, m) of the m common-noun anagrams.
