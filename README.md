# BaniAI core in Dafny

This is a model of the core of BaniAI, a service for exploring shabads (hymns of the Sikh scripture), with proofs about that model. The model covers three parts:

- **The content-based recommender** (`app/recommender.py`):
  - The `ShabadRecommender` object holds a feature matrix and the table of cached shabads, row for row.
  - `recommend` finds the first row with a given shabad id. It ranks all rows by similarity to that row with an argsort, then returns the `top_n` rows just below the top of the ranking, most similar first. Each returned row is cut down to five fields.
  - `retrain_recommender` counts the "like" interactions per shabad id. It builds a weight vector of ones plus 0.2 per like, then replaces the matrix with the current one scaled row by row.
  - `cache_shabad` builds the document it stores for a shabad fetched from the content API.
- **The intent classifier** (`detect_intent` in `app/nlp.py`): it routes a tokenized query to search, recommendation or a general answer, using fixed Punjabi and English keyword tables.
- **The token filter** at the end of `process_english`: it keeps only alphanumeric tokens.

Files:

- `argsort.dfy` (module `Argsort`): what an admissible ascending argsort is. numpy's default sort is not stable, so any order of tied scores is admissible. The file also has an insertion sort that shows such an argsort exists for every input.
- `recommender.dfy` (module `Recommender`): the recommender class, the ranking and slicing, the reweighting, and the cached-document projection.
- `nlp.dfy` (module `Nlp`): the keyword classifier and the alphanumeric filter.

Modelling choices:

- The similarity function (`cosine_similarity`) is a parameter of `Recommend`.
- The argsort is also a parameter, constrained only by `IsArgsortFunction`. Tie order is therefore left open, as it is in numpy.
- `topN` stands for `top_n`. Its Python default of 3 is not modelled separately, because the contracts hold for every `topN`.
- Python slice bounds are modelled exactly, negative `top_n` included. The slice `[-top_n-1:-1]` is followed by a reversal.
- Weights and features are exact `real`s, so 0.2 is exactly one fifth.
- `retrain_recommender` is a method of the class. It fills a fresh weight array, one liked id at a time, and then replaces `features`.
- The table's positional index stands for the DataFrame index. A freshly loaded DataFrame has the default `RangeIndex`, so the two agree.

The recommender's intended behaviour is stable tie-breaking and a query row that is always excluded. Where that and the code disagree, the model follows the code:

- **Ties.** Ties were meant to be broken by ascending row position. The code calls numpy's default (unstable) argsort, so the model admits any tie order.
- **The query row.** The query row was meant to be always excluded. The code only leaves out the position sorted last. That position is certain to be the query row only when the query scores strictly highest (`StrictMaximumExcluded`). Under a tie it may or may not be, depending on the tie order (`QueryRecommendedUnderTies` gives one admissible order of each kind). `StableTieRecommendsQuery` shows that even the stable tie order recommends the query row in a two-row tie when the query is the earlier of the two rows. `StableTieExcludesLaterQuery` shows the stable order leaves the query out when it is the later row. So the two intended behaviours cannot both hold under this slice.
- **Weights of duplicated ids.** A like adds weight only at the first row carrying the liked id (`idx[0]`). Other rows with the same id keep weight 1.

One consequence of the code: every weight is at least 1, and cosine similarity is unchanged by positive scaling. So in exact arithmetic, retraining never changes what `recommend` returns. `RetrainKeepsRecommendations` states this for any similarity with that property. Only floating-point rounding could make a difference.

## Model

| member | source | states |
|---|---|---|
| Argsort.IsArgsort | app/recommender.py:31 | what `argsort()` may return for a score vector: a permutation of the positions in non-decreasing score order, ties in any order |
| Argsort.IsArgsortFunction | app/recommender.py:31 | a function returning an admissible argsort for every score vector, as numpy's `argsort` does |
| Argsort.ReferenceArgsort | app/recommender.py:31 | for every score vector there is an order that is a permutation of the positions in non-decreasing score order, so the argsort the recommender requires can be supplied |
| Argsort.ReferenceArgsortIsAdmissible | app/recommender.py:31 | the reference argsort is admissible for every score vector |
| Argsort.SortIndices | app/recommender.py:31 | sorting the positions by score keeps exactly the same positions (multiset) |
| Argsort.SortIndicesSorted | app/recommender.py:31 | sorting in-range positions by score yields in-range positions whose scores never decrease |
| Argsort.ReferenceArgsortOfTie | app/recommender.py:31 | the stable reference argsort orders two equal scores by position, `[0, 1]` |
| Argsort.DistinctMultiset | app/recommender.py:31 | a sequence has no repeated position exactly when its multiset holds every element at most once |
| Recommender.FirstIndex | app/recommender.py:26-29 | None exactly when no row carries the id; otherwise the position of a row carrying it with no earlier row carrying it (`idx[0]`) |
| Recommender.SliceBound | app/recommender.py:31 | Python's normalisation of a slice bound: never beyond the length; a negative bound within range counts from the end, a non-negative one within range is kept |
| Recommender.ReversedTwice | app/recommender.py:31 | `Reversed`, Python's `[::-1]`, is its own inverse: reversing twice gives the sequence back |
| Recommender.TopPositions | app/recommender.py:31 | `argsort()[-top_n-1:-1][::-1]`: every kept position comes from the order with its last element left out |
| Recommender.TopPositionsShape | app/recommender.py:31 | the slice `[-top_n-1:-1]` (`PySlice`, Python's slice with `SliceBound` normalising each bound) reversed by `Reversed` has `min(top_n, n-1)` elements for `top_n >= 0` (`max(0, n+top_n)` for negative `top_n`), and element k is the one sorted k+2-th from the end |
| Recommender.TopPositionsRanked | app/recommender.py:31 | for any admissible argsort the selected positions have that size, are distinct and in range, never include the position sorted last, are in non-increasing score order, and outscore every position left out other than the last |
| Recommender.StrictMaximumExcluded | app/recommender.py:31 | a query row whose score is strictly above all others is sorted last by every admissible argsort and is never selected |
| Recommender.QueryRecommendedUnderTies | app/recommender.py:31 | with two equal scores both orders are admissible: `[0, 1]` selects row 0, `[1, 0]` selects row 1, so under a tie the query row may or may not be recommended |
| Recommender.StableTieRecommendsQuery | app/recommender.py:25-32 | in a two-row table with equal similarities, when the query is the earlier of the two rows, `Recommend` with the stable reference argsort and `top_n = 1` returns one record, the query row itself |
| Recommender.StableTieExcludesLaterQuery | app/recommender.py:25-31 | in the same tie, when the query is the later row (ids distinct), the stable argsort sorts it last and the earlier row is the recommendation |
| Recommender.ShabadRecommender.constructor | app/recommender.py:21-23 | the object holds the given matrix and table, aligned row for row |
| Recommender.ShabadRecommender.Similarities | app/recommender.py:30 | one similarity score per row of the matrix |
| Recommender.ShabadRecommender.RecommendedPositions | app/recommender.py:25-31 | no positions when no row carries the id; otherwise, for the first row carrying it, a ranked selection of its similarity scores that excludes the query row whenever that row strictly scores highest |
| Recommender.ShabadRecommender.Recommend | app/recommender.py:25-32 | `[]` when the id is absent; otherwise exactly as many records as the selection size, each carrying shabad id, text, translation, raag and writer of the selected row, in ranking order |
| Recommender.LikedIds | app/recommender.py:41 | the ids of the "like" interactions, at most one per interaction |
| Recommender.LikedIdsMembers | app/recommender.py:41 | an id is among the liked ids exactly when the log holds a like of it |
| Recommender.LikeCount | app/recommender.py:41 | the `value_counts` entry of an id: how often it occurs among the liked ids |
| Recommender.LikeCountPositive | app/recommender.py:41 | an id's like count is positive exactly when the log holds a like of it |
| Recommender.LikedKeys | app/recommender.py:41 | the ids liked at least once, each exactly once (the index of `value_counts`) |
| Recommender.Weights | app/recommender.py:41-46 | one weight per row, each at least 1 |
| Recommender.ComputeWeights | app/recommender.py:42-46 | the array built by starting from ones and adding 0.2 per like at the first row of each liked id equals `Weights`: 1 + 0.2 × likes at the first row carrying an id, 1 elsewhere |
| Recommender.NonLikeIgnored | app/recommender.py:41 | appending an interaction that is not a like leaves every weight unchanged |
| Recommender.AbsentLikeIgnored | app/recommender.py:44-46 | a like of an id no row carries leaves every weight unchanged |
| Recommender.LikeCountAfterLike | app/recommender.py:41 | one more like of an id raises its count by one and no other count |
| Recommender.WeightAfterLike | app/recommender.py:43-46 | after one more like of the id of row i (its first row), row i's weight grows by 0.2 and row j's by nothing, for every j other than i |
| Recommender.LikeAddsAFifth | app/recommender.py:43-46 | one more like adds exactly 0.2 to the weight of the first row with that id and leaves every other weight unchanged |
| Recommender.FiveLikesDoubleTheWeight | app/recommender.py:41-46 | with shabads 1 to 4 and five likes of shabad 2, the weights are 1, 2, 1, 1 |
| Recommender.ScaleRows | app/recommender.py:47 | row scaling keeps the number of rows, each row's length, and rectangularity |
| Recommender.ShabadRecommender.Retrain | app/recommender.py:39-48 | the table is untouched, the object stays valid (same row and column counts), and the new matrix is the old one with row i scaled by `Weights[i]` |
| Recommender.RetrainKeepsRecommendations | app/recommender.py:25-48 | with a similarity unchanged by positive scaling, as cosine similarity is, the retrained recommender returns exactly the recommendations of the old one for every id and `top_n` |
| Recommender.UnlikedRowUnchanged | app/recommender.py:47-48 | a row whose shabad id has no likes is left as it was |
| Recommender.NoLikesNoChange | app/recommender.py:41-48 | with no likes in the log the matrix is unchanged |
| Recommender.RetrainTwiceCompounds | app/recommender.py:47-48 | retraining twice with the same weights (each row scaled by `Scale`, the `weights[:, None]` broadcast) multiplies every entry by the square of its row's weight |
| Recommender.RetrainIdempotentIff | app/recommender.py:47-48 | a second retraining with the same log changes nothing exactly when every row has weight 1 or is all zeros |
| Recommender.CachedDocument | app/recommender.py:54-60 | shabad id, raag and writer are copied from the shabad info; no verses give empty text and translation |
| Recommender.JoinWithSpaces | app/recommender.py:56-57 | Python's `" ".join`: empty for no parts, the part itself for one, parts separated by single spaces otherwise (layout stated by the join lemmas below) |
| Recommender.JoinPartAt | app/recommender.py:56-57 | part k stands in the join at its offset |
| Recommender.JoinSpaceAfter | app/recommender.py:56-57 | a single space follows every part but the last |
| Recommender.JoinLength | app/recommender.py:56-57 | the space-joined string ends with its last part |
| Recommender.CachedDocumentVerseOrder | app/recommender.py:56-57 | over the comprehensions `GurmukhiLines` and `EnglishLines`, verse k's Gurmukhi line sits in `text`, and its English translation in `translation`, at the offset the space-join gives it, in verse order, each followed by one space unless it is the last verse |
| Nlp.TableFor | app/nlp.py:21-30 | the Punjabi tables are used exactly when the language is "pa", the English ones otherwise |
| Nlp.AnyKeyword | app/nlp.py:22 | true exactly when some token is in the keyword list |
| Nlp.DetectIntent | app/nlp.py:18-31 | the result is always "search", "recommend" or "general"; "search" iff some token is a search keyword; "recommend" iff none is and some token is a recommend keyword; "general" iff no token is a keyword |
| Nlp.SearchWins | app/nlp.py:22-25 | a search keyword gives "search" even when a recommend keyword is also present |
| Nlp.OtherLanguagesUseEnglish | app/nlp.py:26-30 | any language other than "pa" is classified exactly as "en" |
| Nlp.IntentDependsOnlyOnTokenSet | app/nlp.py:22-30 | two token lists with the same tokens, in any order and with any repetition, get the same intent |
| Nlp.EnglishExamples | app/nlp.py:27-31 | "find similar" is a search, "similar" a recommendation, a keyword-free query and the empty query are general |
| Nlp.KeepAlnum | app/nlp.py:16 | every kept token is alphanumeric, and every alphanumeric token is kept as often as it occurs |
| Nlp.KeepAlnumAppend | app/nlp.py:16 | filtering distributes over concatenation, so kept tokens stay in input order |
| Nlp.KeepAlnumIdempotent | app/nlp.py:16 | filtering an already filtered list changes nothing |

## Left out

- Feature building (`preprocess_features`, TF-IDF and one-hot encoding) and the cosine similarity: these are sklearn computations over floats. The matrix is an input and the similarity a function parameter.
- numpy's argsort: a parameter constrained to admissible orders, so the model does not fix its tie order.
- Floating-point rounding: weights, scaling and scores are exact reals, so IEEE effects are not modelled.
- MongoDB and content-API I/O: `load_shabads` with its 1000-document cap, the loading in `init_recommender`, the 1000-interaction cap of `retrain_recommender`, the upsert and the `banidb.shabad` fetch in `cache_shabad`, `get_random_shabad`, `search_shabads`, `get_filters` and `log_interaction`. The interaction log and the fetched shabad are inputs.
- Interaction timestamps: reweighting ignores them.
- The iteration order of `value_counts`: the model walks the liked ids in one fixed order. No weight gets more than one addition, so the order does not change the result.
- `app/app.py` and `app/database.py` are not part of this model: HTTP routes, the global recommender variable, and client setup.
- `process_punjabi`, and the tokenizer and lower-casing in `process_english`: these are indicnlp and nltk library calls. Their token lists are the classifier's input.
- Concurrency between retraining and reads: retraining is one sequential update of the object.
- Nlp.KeepAlnum: `str.isalnum` is modelled for ASCII letters and digits only, while Python also accepts non-ASCII letters and digits (Gurmukhi letters among them).
- An empty shabad table: the object's invariant requires at least one row, because features cannot be built from an empty corpus.
