# Anime recommender: the recommendation lookup

This project models `get_recommendations`, the one algorithmic function of a
small anime recommender written in Python. The application loads three
parallel arrays: `titles`, `genres`, and an N x N cosine-similarity matrix.
Given a selected title, the function works in five steps:

1. It looks up the title's position with `titles.index`, so the first
   occurrence wins.
2. It pairs every column of that matrix row with its score (`enumerate`).
3. It sorts the pairs by score, highest first. Python's `sorted` is stable,
   so equal scores keep their column order.
4. It drops sorted position 0 and keeps the next ten.
5. It maps each kept column back to `(titles[i], genres[i])`.

Everything here is a pure function, as in the source.

- `ranking.dfy`, module `Ranking`: the (index, score) pairs, `Enumerate`,
  and the stable descending sort, written as an insertion sort (`Insert`,
  `SortDesc`). It proves that the sort is a permutation, that it is
  ordered, and that it is stable. Stable here means that for every score,
  the pairs with that score keep their input order. It also proves that a
  stable descending sort has only one possible result, so the insertion
  sort orders a row exactly as Python's `sorted` does. `Ranked(row)` is
  steps 2 and 3 together.
- `recommender.dfy`, module `Recommender`: the title lookup (`FirstIndex`),
  Python slicing (`Slice`), the kept entries (`TopK`), the result table
  (`Table`) and the lookup itself (`Recommend`, with the number of results
  `k` as a parameter). `GetRecommendations` is the source's case, k = 10.
  The module also holds lemmas on what is and is not excluded, plus the
  exclude-by-index variant described under Findings.
- `scenarios.dfy`, module `Scenarios`: concrete catalogues, each evaluated
  step by step.

Scores are integers standing for the floating-point similarities: a
similarity of 0.9 is written 9. The result table is a sequence of
`Recommendation(title, genre)` values instead of a pandas `DataFrame`.

Three facts about the code shape what the model promises:

- The comment at `anime_recommender.py:27` says the query is excluded
  ("excluding itself"). The code instead drops sorted position 0, whatever
  index sits there. `Recommend` does the same. `RecommendExcludingSelf`,
  kept beside it, removes the query by its index (see Findings).
- Titles may repeat. `titles.index` takes the first match, and so does
  `FirstIndex`. Unique titles (`UniqueTitles`) appear only as a premise of
  the lemmas that talk about titles rather than indices.
- With ties, scores along the result never increase but are not strictly
  decreasing. The model proves non-increasing scores, with ties in
  ascending index order.

## Model

| member | source | states |
|---|---|---|
| `Recommender.FirstIndex` | anime_recommender.py:24 | Returns nothing exactly when the title is absent. Otherwise it returns an in-range position holding the title, with no earlier position holding it. This is `titles.index`, used again at line 60. |
| `Ranking.Enumerate` | anime_recommender.py:25 | One pair per column of the row: position i holds index i and score `row[i]`. |
| `Ranking.Insert` | anime_recommender.py:26 | The result is one longer and is, as a multiset, the input plus the inserted pair. |
| `Ranking.SortDesc` | anime_recommender.py:26 | Same length as the input and a permutation of it (equal multisets). |
| `Ranking.SortDescSorted` | anime_recommender.py:26 | The sorted sequence's scores never increase (`reverse=True`). |
| `Ranking.SortDescStable` | anime_recommender.py:26 | Stability: for every score v, the pairs scoring v appear in the output in exactly their input order. |
| `Ranking.StableSortUnique` | anime_recommender.py:26 | Two score-ordered sequences that agree, score by score, on the order of their pairs are equal. A stable descending sort therefore has only one possible result. |
| `Ranking.SortDescIsTheStableSort` | anime_recommender.py:26 | Any score-ordered sequence that keeps the input's order within each score equals `SortDesc` of the input. So the insertion sort gives the same order as Python's `sorted(..., reverse=True)`. |
| `Ranking.SortDescTiesAscending` | anime_recommender.py:26 | Sorting a sequence whose indices increase (an enumeration) puts equal scores in ascending index order. |
| `Ranking.SortDescDistinctIndices` | anime_recommender.py:25-26 | Sorting never places one index at two positions. |
| `Ranking.Ranked` | anime_recommender.py:25-26 | The ranked row has N entries and is a permutation of the enumeration. Each entry is an in-range column carrying that column's score. |
| `Ranking.RankedOrdered` | anime_recommender.py:25-26 | In the ranked row, scores never increase, ties are in ascending column order, and no column appears twice. |
| `Ranking.RankedPosition` | anime_recommender.py:25-26 | Every column of the row appears somewhere in the ranking. |
| `Recommender.Slice` | anime_recommender.py:27 | Python `s[lo:hi]` for non-negative bounds. Both bounds are clamped to the length, giving `min(hi, len) - lo` elements (0 if negative) starting at `s[lo]`. |
| `Recommender.TopK` | anime_recommender.py:25-27 | Keeps `min(k, N - 1)` entries (none for an empty row). These are ranked positions 1 to k in order, each an in-range column with its own score. |
| `Recommender.TopKOrdered` | anime_recommender.py:26-27 | The kept entries' scores never increase, ties are in ascending column order, no column is kept twice, and the column at ranked position 0 is never kept. |
| `Recommender.TopKIsBest` | anime_recommender.py:26-27 | A column that is neither kept nor at ranked position 0 scores no higher than any kept entry. |
| `Recommender.Table` | anime_recommender.py:28-32 | One row per kept entry. Row p is the title and the genre at the same index, `kept[p].index`. |
| `Recommender.Recommend` | anime_recommender.py:22-35 | Returns an error (`NotFound(title)`) exactly when the title is absent. Otherwise it returns a table of `min(k, N - 1)` rows. |
| `Recommender.GetRecommendations` | anime_recommender.py:22-35 | The source's call with k = 10: an error exactly when the title is absent, otherwise `min(10, N - 1)` rows. |
| `Recommender.RecommendationsFromRow` | anime_recommender.py:24-32 | For a present title there is a query position (the first occurrence) and a list of pairwise distinct in-range indices. Table row p is `(titles[i], genres[i])` for the p-th index i. The indices' scores in the query's row never increase, and equal scores come in ascending index order. |
| `Recommender.DroppedIsFirstMaximum` | anime_recommender.py:26-27 | The column that ranked position 0 drops holds the row's maximum score, and no lower column reaches that maximum. In other words, it is the lowest-indexed maximum, whichever column the query is. |
| `Recommender.SelfExcludedOnStrictMax` | anime_recommender.py:26-27 | If the query's self-score is strictly above every other score in its row, the query is at ranked position 0 and is never kept. |
| `Recommender.RecommendOmitsQuery` | anime_recommender.py:24-32 | With unique titles and a strictly maximal self-score, the lookup succeeds and no table row carries the query's title. |
| `Recommender.KeptIffRankedWithin` | anime_recommender.py:26-27 | For any column and any k: the column is kept exactly when its ranked position is between 1 and k. |
| `Recommender.QueryKeptOnTie` | anime_recommender.py:26-27 | For any catalogue size and any k: if a lower column ties with or beats the query's self-score, the query's ranked position is at least 1, so the query is kept exactly when that position is at most k. |
| `Recommender.QueryFirstOnSingleTie` | anime_recommender.py:26-27 | Suppose exactly one lower column ties the self-score and every other column scores less. Then, for every k >= 1 and every catalogue size, the first kept entry is the query itself. |
| `Recommender.RecommendKeepsQueryOnTie` | anime_recommender.py:24-32 | Table level: when a lower column ties with or beats the self-score, the lookup succeeds. If the query's ranked position is at most k, its own `(title, genre)` row is in the table. With unique titles, the query's title appears exactly when that position is at most k. |
| `Recommender.RecommendLeadsWithQueryOnSingleTie` | anime_recommender.py:22-35 | Table level, in the single-tie case: for every k >= 1 (the application's 10 included) and any catalogue size, the first recommended row is the query's own `(title, genre)`. |
| `Recommender.ExcludingSelfKept` | anime_recommender.py:27 | Exclusion by index keeps `min(k, N - 1)` entries. None of them is the query, each is an in-range column with its score, and they are in ranked order with distinct columns. |
| `Recommender.RecommendExcludingSelf` | anime_recommender.py:22-35 | By-index variant: an error exactly when the title is absent, otherwise `min(k, N - 1)` rows. With unique titles, no row carries the query's title. |
| `Recommender.CorrectedAgreesOnStrictMax` | anime_recommender.py:26-27 | When the self-score is strictly maximal, the by-index variant and the code's lookup return the same table. |
| `Scenarios.FourTitles` | anime_recommender.py:22-35 | Titles A, B, C, D, query A with row [10, 2, 9, 5], k = 2: the result is (C, g1) then (D, g3). |
| `Scenarios.SingleTitle` | anime_recommender.py:25-27 | A one-title catalogue yields an empty table for every k. |
| `Scenarios.FewerThanK` | anime_recommender.py:27 | k = 10 over three titles gives two rows, with no padding and no error. |
| `Scenarios.SelfTieCounterexample` | anime_recommender.py:26-27 | Titles A and B with equal genres and the matrix [[5, 5], [5, 5]]: the query B is recommended itself, (B, g), and A is lost. |
| `Scenarios.SelfTieCorrected` | anime_recommender.py:27 | In the same catalogue, excluding by index recommends (A, g) for B. |

## Left out

- `load_data` (`anime_recommender.py:8-19`): reading and unpickling the data
  file, and reporting errors in the UI. This is I/O. The model takes the
  three arrays as parameters, and `WellFormed` states what the loaded data
  must satisfy.
- `main` (`anime_recommender.py:38-69`): Streamlit widgets and display,
  which are presentation only. Its lookup of the selected title (line 60)
  is `FirstIndex`. Showing `genres[selected_idx]` is not modelled.
- pandas `DataFrame` construction (lines 29-32 and 35): replaced by a
  sequence of `Recommendation` pairs. The empty frame at line 35 is never
  produced: the handler at line 33 names an undefined exception class, so
  a missing title escapes as an error. The model returns `Err(NotFound(title))`.
  Which Python exception escapes (the lookup's `ValueError` or the
  handler's `NameError`) is not modelled.
- Floating-point similarities: scores are integers. NaN scores and their
  effect on comparisons are not modelled. Computing the similarity matrix
  is not part of this repository.
- Malformed data is a precondition, not modelled behaviour: rows of the
  wrong length, or `genres` of a different length from `titles`. On such
  data the code may raise `IndexError`, return fewer rows, or return an
  ordinary-looking table. For example, it does so when `genres` is longer
  than `titles`.
- Python's sort algorithm (Timsort) is replaced by an insertion sort.
  `SortDescIsTheStableSort` shows that every stable descending sort gives
  the same order, so only the running time differs.

## Findings

| source | as written | input that shows it | evidently intended | confidence | as-written member | corrected member |
|---|---|---|---|---|---|---|
| anime_recommender.py:26-27 | Drops sorted position 0, which the stable sort gives to the lowest-indexed item with the row's maximum score, whether or not that item is the query | titles ["A", "B"], genres ["g", "g"], similarity [[5, 5], [5, 5]], query "B": the result is [("B", "g")], so the query is recommended itself and "A" is lost | Exclude the query by its index ("excluding itself"), giving [("A", "g")] | high (equal genre strings give equal cosine scores); not executed | `Scenarios.SelfTieCounterexample` | `Recommender.RecommendExcludingSelf` |

The counterexample is not limited to small catalogues.
`RecommendLeadsWithQueryOnSingleTie` proves that whenever one lower title
ties the query's self-score and every other title scores less, the query
heads its own recommendations, for every k >= 1 and every catalogue size.
`Recommend` keeps the code's behaviour, because that is what the
application runs. `RecommendExcludingSelf` is the intended behaviour. Its
contract proves that the query's title never appears when titles are
unique, and `CorrectedAgreesOnStrictMax` proves that the two agree
whenever the self-score is strictly maximal.
