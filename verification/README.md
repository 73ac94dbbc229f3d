# Movie recommender core, modelled in Dafny

This project models the algorithmic core of `movie_recommender.py`, a
Streamlit app that recommends movies. The modelled parts are:

- **loading the catalog.** `load_data` reads each row's genres cell. A
  missing (NaN) cell becomes empty, pipes become spaces, and the result is
  split into genre tokens.
- **the genre labels.** The genre selector offers these: the alphabetic
  tokens, title-cased, de-duplicated and sorted.
- **`recommend_by_genre`.** It keeps every movie whose normalised genre
  string contains the chosen genre, ignoring case, and drops missing titles.
  It then shuffles them and keeps five.
- **`recommend_by_movie`.** It looks up the movie's row in the similarity
  matrix and ranks every row with Python's stable descending sort. It keeps
  ranks 1 to 19, shuffles them and returns the titles of the first five. An
  unknown title answers the list `["Movie not found!"]`.
- **`get_movie_suggestions`.** It returns the titles that contain the query,
  ignoring case, in catalog order. The result is cut with `[:max_suggestions]`.

Modules:

- `Cells`: pandas cells that may be NaN (`Cell`), and a call that may raise
  `ValueError` (`Call`).
- `Strings`: the ASCII behaviour of `split()`, `replace`, `lower`, `title`,
  `isalpha`, string `<`, and case-insensitive substring search.
- `Orders`: strictly sorted sequences under a given order, with a uniqueness lemma, and `Min`/`Max`.
- `Catalog`: the loaded rows and the genre labels.
- `Ranking`: `enumerate`, the stable descending sort, and the `[1:20]` pool.
- `Shuffling`: CPython's `random.shuffle` loop, driven by an explicit stream
  of draws.
- `Recommender`: the three queries.

The random source is a parameter. `draws: seq<nat>` feeds the Fisher–Yates
loop of `random.shuffle`: the swap at position `i` uses `draws[k] % (i + 1)`,
and a stream that has run out reads as 0. `ShuffleReachesEveryPermutation`
shows that this stream loses no outcome. The similarity matrix is a
parameter too (`IsSimilarityMatrix`).

## Model

| member | source | states |
|---|---|---|
| `Catalog.NormaliseGenres` | movie_recommender.py:12 | A missing cell gives `""`. The result has the cell's length and no pipe character. Every pipe becomes a space, and every other character is kept. |
| `Catalog.PipesBecomeSpaces` | movie_recommender.py:12 | Pipe-joined genres normalise to the same genres joined by spaces. |
| `Catalog.NormaliseIdempotent` | movie_recommender.py:12 | Normalising a normalised genre string changes nothing. |
| `Catalog.MissingGenresHaveNoTokens` | movie_recommender.py:12-13 | A NaN genres cell yields an empty token list. |
| `Catalog.PipeSeparatedGenresRoundTrip` | movie_recommender.py:12-13 | Pipe-joined genre tokens give back exactly those tokens, in order. |
| `Catalog.LoadRow` | movie_recommender.py:11-14 | One loaded row: the title is kept and the genres are normalised. Every token is a non-empty string without whitespace or pipe. The tokens concatenate to the genre string minus its whitespace. |
| `Catalog.LoadCatalog` | movie_recommender.py:10-14 | `load_data` keeps the row count and order, and loads every row as `LoadRow` does. |
| `Catalog.LoadCatalogIsLoaded` | movie_recommender.py:10-14 | Every loaded row's token list is the split of its pipe-free genre string. |
| `Strings.Split` | movie_recommender.py:13 | Every token of `split()` is non-empty and has no whitespace. |
| `Strings.SplitKeepsNonSpace` | movie_recommender.py:13 | `split()` loses only whitespace: its tokens concatenate to the string minus its whitespace. |
| `Strings.SplitSkipsSpace` | movie_recommender.py:13 | A whitespace run in front of the text yields no token, so leading runs and the runs between tokens are skipped whole. |
| `Strings.SplitTakesWord` | movie_recommender.py:13 | A word followed by a whitespace run, or by the end of the string, is exactly one token. With `SplitSkipsSpace` and `Split("") == []` this fixes the result of `split()` on every string. |
| `Strings.SplitJoin` | movie_recommender.py:13 | Splitting space-joined words gives the words back. |
| `Strings.SplitIdempotent` | movie_recommender.py:13 | Re-splitting the space-joined tokens of a string gives the same tokens. |
| `Strings.TokenOccurs` | movie_recommender.py:13 | Every token occurs as a substring of the string it was split from. |
| `Strings.ContainsIffOccurs` | movie_recommender.py:30 | The left-to-right scan reports a match exactly when the pattern occurs at some position. |
| `Strings.ContainsIgnoreCaseOfLower` | movie_recommender.py:30 | The case-insensitive test ignores the case of both the text and the pattern. |
| `Strings.LowerOccurs` | movie_recommender.py:30 | Lower-casing keeps an occurrence at the same position. |
| `Strings.TitleCaseOfAlphaWord` | movie_recommender.py:408 | An alphabetic token title-cases to one capital followed by lower-case letters, of the same length. |
| `Strings.TitleCaseIdempotent` | movie_recommender.py:408 | A title-cased word is its own title case. |
| `Strings.LowerOfTitleCase` | movie_recommender.py:408 | Title-casing changes case only. |
| `Strings.LessIrreflexive` | movie_recommender.py:408 | String `<` is irreflexive. |
| `Strings.LessAsymmetric` | movie_recommender.py:408 | String `<` is asymmetric. |
| `Strings.LessTransitive` | movie_recommender.py:408 | String `<` is transitive. |
| `Strings.LessTotal` | movie_recommender.py:408 | Any two different strings are ordered one way or the other. |
| `Catalog.InsertSorted` | movie_recommender.py:408 | Adding a label keeps the list strictly increasing. It holds the old labels and the new one, and nothing else. |
| `Catalog.SortedLabels` | movie_recommender.py:408 | The labels of a token list are strictly increasing, and they are exactly the title cases of its alphabetic tokens. |
| `Catalog.AllTokens` | movie_recommender.py:408 | A string is collected exactly when some row carries it as a token. |
| `Catalog.GenreLabels` | movie_recommender.py:408 | The labels are strictly increasing, title-cased and alphabetic. A string is a label exactly when it is the title case of some row's alphabetic token. |
| `Catalog.GenreLabelsCanonical` | movie_recommender.py:408 | Any strictly increasing list of exactly those labels equals `GenreLabels`, so it is `sorted(set(...))`. |
| `Recommender.GenreLabelIsPlainPattern` | movie_recommender.py:408-415 | A label from the selector has no regular-expression metacharacter, so using it as a pattern is a substring search. |
| `Recommender.GenreLabelFindsItsRows` | movie_recommender.py:408-415 | Every row carrying an alphabetic token is found by a genre search for that token's label, when its title is present. |
| `Recommender.SelectRows` | movie_recommender.py:30 | A boolean mask selects exactly the satisfying rows, in increasing row order. |
| `Recommender.GenreMatchRows` | movie_recommender.py:30-31 | The mask plus `dropna()` keeps exactly the rows with a present title whose genres contain the genre, ignoring case, in increasing row order. |
| `Recommender.TitlesOf` | movie_recommender.py:31 | `['title'].tolist()` of the kept rows gives one title per row, in the rows' order. |
| `Recommender.GenreMatches` | movie_recommender.py:30-31 | One title per matching row, in row order. A title is a match exactly when some row has it, its title is present, and its genres contain the genre, ignoring case. |
| `Recommender.RecommendByGenre` | movie_recommender.py:29-33 | The result is `min(5, #matches)` titles drawn from the matches without replacement. With at most five matches it is a permutation of them. Every title comes from a matching row. |
| `Recommender.RecommendByGenreReachesEverySample` | movie_recommender.py:32-33 | Every ordering of the matches is some shuffle outcome, so each ordered five-sample can be returned. |
| `Recommender.Take` | movie_recommender.py:33 | `s[:n]` keeps the first `min(n, len(s))` entries, unchanged and in order. |
| `Recommender.TakeIsSubMultiset` | movie_recommender.py:33 | A prefix slice is a sub-multiset, and the whole list when the stop reaches the end. |
| `Shuffling.RandBelow` | movie_recommender.py:32 | Each swap partner lies in `[0, i]`. |
| `Shuffling.Swap` | movie_recommender.py:32 | A swap keeps the length. |
| `Shuffling.SwapPermutes` | movie_recommender.py:32 | A swap keeps the multiset of elements. |
| `Shuffling.ShuffleDown` | movie_recommender.py:32 | The swap loop keeps the length. |
| `Shuffling.ShuffleDownPermutes` | movie_recommender.py:32 | The swap loop keeps the multiset of elements. |
| `Shuffling.Shuffle` | movie_recommender.py:32 | The shuffle is a permutation of its input. |
| `Shuffling.ShuffleMembers` | movie_recommender.py:32 | Every element of a shuffle comes from the input. |
| `Shuffling.ShuffleReachesEveryPermutation` | movie_recommender.py:32 | Every permutation of the input is the shuffle for some stream of draws. |
| `Shuffling.SubMultisetDistinct` | movie_recommender.py:41-42 | A sample of a list without repeats has no repeats. |
| `Recommender.TitleRows` | movie_recommender.py:26 | The rows `indices[title]` addresses are exactly the rows with that title, in order. |
| `Ranking.Insert` | movie_recommender.py:40 | Insertion keeps the list in ranked order and adds exactly one entry. |
| `Ranking.SortByScore` | movie_recommender.py:40 | The sort produces a ranked permutation of its input. |
| `Ranking.Enumerate` | movie_recommender.py:39 | `enumerate` pairs every position with its score, once each, in order. |
| `Ranking.Rank` | movie_recommender.py:39-40 | The ranking is ordered by score descending, with ties broken by lower row first. It is a permutation of `enumerate(row)`, and every row appears once with its own score. |
| `Ranking.RankIsStableSort` | movie_recommender.py:40 | Any ranked rearrangement of `enumerate(row)` equals `Rank(row)`, so it is the result of Python's stable sort. |
| `Ranking.RankHeadIsMaximal` | movie_recommender.py:40 | The head of the ranking has the row's highest score. |
| `Ranking.Pool` | movie_recommender.py:40 | `[1:20]` holds `min(19, n - 1)` ranked entries with distinct valid rows and their own scores. The head of the ranking ranks before each of them, so the head is left out. |
| `Ranking.PoolIsTop` | movie_recommender.py:40 | Every row outside the head and the pool ranks behind every pool entry. |
| `Ranking.TiedRowStaysInPool` | movie_recommender.py:40 | When an earlier row ties with a row at the top score, the later row is never the head, whatever the row's length. When the row has at most 20 entries, the later row is also in the pool. |
| `Shuffling.MapSubMultiset` | movie_recommender.py:42-43 | Looking up a label for every entry keeps sub-multisets, so the titles of a sample are a sample of the titles. |
| `Recommender.PickedTitles` | movie_recommender.py:41-43 | The titles of the picked rows are a sub-multiset of the pool's titles. With at most five pool rows they are exactly the pool's titles, in some order. |
| `Recommender.PickFromPool` | movie_recommender.py:41-42 | The first five of a shuffled pool are pool entries with distinct rows. |
| `Recommender.Ids` | movie_recommender.py:42 | `[i[0] for i in ...]` keeps order and takes each entry's row id. |
| `Recommender.TitlesAt` | movie_recommender.py:43 | `df['title'].iloc[ids].tolist()` gives each id's title cell, NaN included, in the order of `ids`. |
| `Recommender.PickRows` | movie_recommender.py:41-42 | `movie_indices` holds `min(5, 19, n - 1)` distinct row ids, each from the pool. |
| `Recommender.PickRowsReachesEverySample` | movie_recommender.py:41-42 | Every ordered choice of five pool rows is some outcome. |
| `Recommender.RecommendByMovie` | movie_recommender.py:35-43 | An unknown title answers `["Movie not found!"]`. A duplicated title raises `ValueError`, and only then. A unique title gets `min(5, 19, n - 1)` titles, each of a pool row. They are pool titles taken without replacement (a sub-multiset of the pool's titles), and with at most five pool rows they are all of the pool's titles, in some order. |
| `Recommender.PickedAnswer` | movie_recommender.py:35-43 | For a unique title, the answer has `min(5, 19, n - 1)` titles, each that of a pool row. They are taken without replacement, and with at most five pool rows they are all of the pool's titles. |
| `Recommender.SelfRecommendedOnTie` | movie_recommender.py:38-43 | As written, two movies with the same genres (similarity 1.0 everywhere) make a query for the second one return exactly that movie. |
| `Recommender.SelfRecommendedWhenTied` | movie_recommender.py:38-43 | As written, in a catalog of at most six movies, a movie tied at the top score with an earlier row is always among its own recommendations, whatever the draws. |
| `Recommender.PoolExcluding` | movie_recommender.py:40 | The corrected pool has `min(19, n - 1)` rows, none of them the chosen one. It is ranked, its rows are distinct, and each has its own score. |
| `Recommender.PoolExcludingIsTop` | movie_recommender.py:40 | The corrected pool holds the best rows: every other row outside it ranks behind every pool row. |
| `Recommender.PickRowsExcluding` | movie_recommender.py:41-42 | The corrected `movie_indices` are `min(5, 19, n - 1)` distinct rows, each from the corrected pool, none of them the chosen one. |
| `Recommender.SampledTitles` | movie_recommender.py:41-43 | For any pool of distinct rows, the titles of the first five after shuffling are a sub-multiset of the pool's titles. With at most five pool rows they are exactly the pool's titles, in some order. |
| `Recommender.PickedTitlesExcluding` | movie_recommender.py:41-43 | The corrected titles are a sub-multiset of the corrected pool's titles, and exactly those titles when that pool has at most five rows. |
| `Recommender.CorrectedTitles` | movie_recommender.py:35-43 | For a unique title, the corrected answer has the length of `RecommendByMovie`'s answer and leaves out the queried title. Its titles are those of corrected-pool rows, taken without replacement. |
| `Recommender.RecommendByMovieExcludingSelf` | movie_recommender.py:35-43 | The same sentinel, the same `ValueError` condition and the same length as `RecommendByMovie`. The queried title is never among the recommendations. For a unique title, every title is that of a row in the corrected pool (`PoolExcluding`), the titles are taken without replacement, and with at most five pool rows they are all of the pool's titles, in some order. |
| `Recommender.SuggestionRows` | movie_recommender.py:51 | The rows with a present title containing the query, ignoring case, are exactly the selected ones, in catalog order. |
| `Recommender.SliceTo` | movie_recommender.py:52 | `s[:stop]` is a prefix of length `min(stop, len)` for `stop >= 0` and `max(0, len + stop)` otherwise. |
| `Recommender.SuggestTitles` | movie_recommender.py:46-52 | An empty query gives `[]`. Otherwise the result is a prefix, in catalog order, of the matching titles. Its length is `min(max, #matches)` for a non-negative max, and `max(0, #matches + max)` for a negative one. Every title contains the query, ignoring case. |
| `Recommender.DefaultSuggestionCount` | movie_recommender.py:46-52 | With the default limit, autocomplete gives the first ten matching titles, or all of them when there are fewer. |

## Left out

- Reading `movie.csv` and Streamlit caching are input and output. The catalog is the list of parsed rows (`RawMovie`).
- The TF-IDF vectorisation and `linear_kernel`, lines 20-25, are floating-point library code. The similarity matrix is a parameter of `RecommendByMovie`. Only its shape is required: square, one row per movie.
- NaN similarity scores are not modelled. The scores are `real`, and NaN comparisons would make Python's sort order undefined.
- All of the Streamlit page, lines 54 onward, is presentation, apart from the label list on line 408. So are the selectbox's placeholder entry and the result cards.
- `random.shuffle`'s `randbelow` is left as a stream of draws. The model does not state that the draws are uniform; the reachability lemmas state that no outcome is lost.
- Recommender.RecommendByGenre: requires a plain pattern, with no regular-expression metacharacters. Pandas treats the genre as a regular expression, and regex semantics are not modelled. Every label the selector offers is plain (`GenreLabelIsPlainPattern`).
- Recommender.SuggestTitles: requires a plain query for the same reason. A query with metacharacters would be matched as a regular expression, or raise `re.error`.
- Strings: case folding, `isalpha`, `title` and whitespace are ASCII only. Python's Unicode tables are not modelled, so `ToLower` and `ToUpper` leave non-ASCII characters unchanged.
- Loading errors are not modelled. A CSV without a `genres` column raises pandas' `KeyError` at line 12. When no row has a genre token, for example in an empty catalog, `fit_transform` at line 22 raises `ValueError` (empty vocabulary), so the app never starts.
- Some behaviour of the code is easy to misread, and the model follows the code:
  - `indices` (line 26) de-duplicates on the row ids, which are already unique, and not on the titles. A title held by several rows therefore looks up several rows, and the sort at line 40 raises `ValueError`.
  - The queried movie can be recommended to itself (see Findings).
  - Genre search (line 30) matches the normalised genre string, in which pipes are spaces, and not the raw CSV cell.

## Findings

| source | as written | input that shows it | evidently intended | confidence | as-written member | corrected member |
|---|---|---|---|---|---|---|
| movie_recommender.py:40 | `[1:20]` drops rank 0, assuming the queried movie ranks first | two movies with the same genres, e.g. both `Drama`, so every similarity is 1.0; query the second | the pool is the 19 best rows other than the queried movie | not executed | `Recommender.SelfRecommendedOnTie` | `Recommender.RecommendByMovieExcludingSelf` |
