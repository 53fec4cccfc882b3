# Hybrid recommender core, modelled in Dafny

The repository recommends MovieLens items to a user by blending two scores:
- a collaborative score: the transposed user x item rating matrix times the
  cosine similarity of the user's row to every row;
- a popularity score: the mean rating of each item.

Both scores are min-max normalised and blended with weight `alpha`. The items
the user has already rated are dropped. The rest are sorted by descending
score and cut to `topk`. Titles come from the item catalogue through a left
join, and the joined rows are sorted once more.

There are two entry points with the same pipeline:
- `app.py`, the request-handler variant. Its matrix is a pandas `pivot`. It
  reports an unknown user with the observed id range. It reindexes the
  popularity series onto the collaborative index before the blend.
- `poc_reco_llm_local.py`, the command-line variant. It fills a 0.0 table in
  place, one rating record at a time, so the last record for a pair wins. It
  reports an unknown user with a plain error and blends without a reindex.

The model has four modules:
- `Tables` (`tables.dfy`): rating records, catalogue rows, the dense matrix,
  and the sorted distinct id lists that index it.
- `Scoring` (`scoring.dfy`): the steps both variants share.
- `App` (`app.dfy`): `app.py`, written as pure functions, as the source is.
- `LocalPoc` (`local.dfy`): `poc_reco_llm_local.py`. The matrix builder is an
  imperative method over an `array2<real>`, proved against the matrix function
  `Tables.MatrixOf`. `recommend` is a method proved against a function of its
  inputs.

Errors are values: `Result<T>` with a `RecoError`. Pandas' `ValueError`s
become these constructors:
- `DuplicateEntries`: the pivot meets a second record for one (user, item)
  pair.
- `UserNotFound(user, range)`: `app.py`'s unknown user, with the index min
  and max. `None` stands for the NaN an empty index prints.
- `UnknownUser(user)`: the local variant's unknown user.

Scores are exact reals, and `Epsilon` is the 1e-8 guard of the normalisation.

## Model

| member | source | states |
|---|---|---|
| Tables.SortedDistinct | poc_reco_llm_local.py:32-33 | the result is strictly increasing and holds exactly the values of the input (`np.sort(unique())`) |
| Tables.RangeOf | app.py:35 | `None` exactly for an empty index; otherwise both bounds are ids of the index, and every id lies between them |
| Tables.IndexOf | app.py:37 | `mat.loc[user_id]` selects the row whose id is the user |
| Tables.DistinctCard | poc_reco_llm_local.py:32-33 | a strictly increasing id list has as many entries as distinct ids |
| Tables.MatrixOf | app.py:29-30 | the dense matrix has one row per distinct user and one column per distinct item |
| Tables.LastRating | poc_reco_llm_local.py:35-36 | the rating of the last record for a pair, none when no record names it; its promises are `Tables.NoRecordNoRating` and `Tables.LastWriteWins` |
| Tables.CellValue | poc_reco_llm_local.py:34-36 | the cell a pair ends with: its last rating, else the 0.0 the table starts with; see `Tables.CellAfterAppend` |
| Tables.LastWriteWins | poc_reco_llm_local.py:35-36 | the record at k, with no later record for its pair, is the one whose rating the cell holds |
| Tables.NoRecordNoRating | poc_reco_llm_local.py:34-36 | a pair has no rating exactly when no record names it |
| Tables.CellAfterAppend | poc_reco_llm_local.py:36 | one more record changes the cell of its own pair, to its rating, and no other cell |
| Tables.AppendCells | poc_reco_llm_local.py:36 | over strictly increasing axes, one more record changes exactly the cell at its own row and column |
| Tables.UniquePairCell | app.py:30 | without duplicate pairs, the cell of a recorded pair is its rating |
| Tables.LastRecordCells | poc_reco_llm_local.py:35-37 | for every row and column: the cell of a pair is the rating of the last record for it |
| Tables.UniqueRecordCells | app.py:30 | for every row and column, without duplicate pairs: the cell of a recorded pair is its rating |
| Tables.UnrecordedCells | app.py:30 | for every row and column: a pair no record names has 0.0 (`fillna(0.0)`, and the 0.0 table of the local variant) |
| Tables.ItemIndexCovers | app.py:40-41 | the column index holds exactly the items of the ratings |
| Scoring.Similarities | app.py:37-38 | one similarity per matrix row, indexed like the rows |
| Scoring.ColumnDot | app.py:40 | one entry of `mat.T.dot(sim_users)`: the sum over the rows of cell times similarity; see `Scoring.CollaborativeSelfOnly` |
| Scoring.Collaborative | app.py:40 | `mat.T.dot(sim_users)` is indexed by the matrix columns |
| Scoring.CollaborativeSelfOnly | app.py:37-40 | the target's own row takes part: with similarity 1.0 for the target and 0.0 elsewhere, each collaborative score is the target's own rating |
| Scoring.RatingSum | app.py:41 | the sum of an item's raw ratings, one term per record; bounded by `Scoring.SumAtLeast` and `Scoring.SumAtMost` |
| Scoring.RatingCount | app.py:41 | the number of records for an item, positive for every rated item |
| Scoring.Mean | app.py:41 | sum over count of an item's ratings; `Scoring.MeanWithinRatings` bounds it |
| Scoring.Popularity | app.py:41 | one entry per distinct rated item, in sorted order, holding the mean of that item's ratings over a positive count |
| Scoring.MeanWithinRatings | app.py:41 | when all ratings of an item lie in [lo, hi], so does its popularity; the matrix's zero cells do not count |
| Scoring.SumAtLeast | app.py:41 | ratings of at least lo sum to at least lo times their count |
| Scoring.SumAtMost | app.py:41 | ratings of at most hi sum to at most hi times their count |
| Scoring.MinScore | app.py:44 | `s.min()`: a lower bound of the series that the series attains |
| Scoring.MaxScore | app.py:44 | `s.max()`: an upper bound of the series that the series attains |
| Scoring.Norm | app.py:43-45 | normalisation keeps the index of the series |
| Scoring.Rescale | app.py:45 | `(s - mn) / d` entry by entry, keeping the index; `Scoring.RescaleUnit`, `Scoring.RescaleOrder` and `Scoring.RescaleTop` state its values |
| Scoring.RescaleUnit | app.py:45 | a value of [mn, mx], shifted by mn and divided by mx - mn + 1e-8, lies in [0, 1) and is 0 exactly at mn |
| Scoring.RescaleOrder | app.py:45 | dividing by a positive spread keeps the order of any two values |
| Scoring.RescaleTop | app.py:45 | at mx the value falls short of 1 by exactly 1e-8 / (mx - mn + 1e-8), so by at most 1e-8 once mx - mn >= 1 |
| Scoring.NormAt | app.py:43-45 | a normalised value lies in [0, 1) and is 0 exactly where the series is minimal |
| Scoring.NormAtMax | app.py:43-45 | a maximal value normalises to within 1e-8 of 1 once the spread is at least 1 |
| Scoring.NormOrder | app.py:43-45 | normalisation keeps the order of two values, in both directions |
| Scoring.NormLaw | poc_reco_llm_local.py:50-55 | over a whole non-empty series: the length is kept, all values lie in [0, 1), the minima map to 0, the maxima lie within 1e-8 of 1 when the spread is at least 1, and order is kept |
| Scoring.Reindex | app.py:48 | the result carries the given index; an absent item gets 0.0, a present one its score |
| Scoring.ReindexOntoOwnIndex | app.py:48 | reindexing a series onto its own distinct index gives the series back |
| Scoring.Blend | app.py:50 | the blend keeps the index; with alpha in [0, 1] and both inputs in [0, 1) so is the result; alpha = 1 gives the collaborative series, alpha = 0 the popularity series |
| Scoring.Mix | app.py:50 | one blended value, `alpha * x + (1 - alpha) * y`; `Scoring.ConvexCombination` and `Scoring.MixExtremes` state its range and extremes |
| Scoring.MixExtremes | app.py:50 | alpha = 1 gives the collaborative value, alpha = 0 the popularity value |
| Scoring.ConvexCombination | app.py:50 | a convex combination of two values of [0, 1) lies in [0, 1) |
| Scoring.SeenItems | app.py:52 | the distinct items the user has rated, all of them items of the ratings |
| Scoring.DropSeen | app.py:52-53 | exactly the entries whose item is not seen remain, in order; a distinct index stays distinct; a seen item missing from the index is skipped |
| Scoring.UnseenCount | poc_reco_llm_local.py:58-59 | with a distinct index, the remaining items are the index's items minus the seen ones, one entry each |
| Scoring.InsertDesc | app.py:55 | inserting into a descending list keeps it descending and adds exactly the new element |
| Scoring.SortDesc | app.py:55 | `sort_values(ascending=False)` gives a descending permutation of its input |
| Scoring.SortDescOfSorted | app.py:58 | the model's stable sort leaves an already descending list unchanged |
| Scoring.ConsDistinct | poc_reco_llm_local.py:61 | a series with an entry in front has distinct items exactly when the rest has and the front item is new |
| Scoring.InsertDistinct | app.py:55 | inserting an entry whose item is new into a sorted series with distinct items keeps them distinct |
| Scoring.SortDistinct | app.py:55 | sorting a series with distinct items keeps them distinct |
| Scoring.Head | app.py:55 | `head(n)` is a prefix: min(n, length) entries for n >= 0; all but the last -n for n < 0 |
| Scoring.LeftJoin | app.py:56-57 | `merge(items, on="item_id", how="left")`: the joined rows of each entry in order; its promises are `Scoring.LeftJoinRows`, `Scoring.LeftJoinCovers`, `Scoring.LeftJoinSorted` and `Scoring.LeftJoinUnique` |
| Scoring.TitlesOf | app.py:57 | the titles found are exactly those the catalogue lists for the item; none exactly when no catalogue row has the item |
| Scoring.UniqueTitle | app.py:57 | with unique catalogue ids an item has at most one title |
| Scoring.JoinRow | app.py:56-57 | an entry gives at least one joined row, each with its item, its score and a matching title or none; exactly one row with unique catalogue ids |
| Scoring.LeftJoinRows | app.py:56-57 | every joined row comes from an entry and carries a title exactly when the catalogue has one |
| Scoring.LeftJoinCovers | app.py:56-57 | every entry reaches the joined rows, because the join is a left join |
| Scoring.LeftJoinSorted | app.py:56-58 | the join keeps the descending order of its left side |
| Scoring.LeftJoinUnique | poc_reco_llm_local.py:63-64 | with unique catalogue ids the join is one row per entry, in place |
| Scoring.Rank | app.py:55-59 | the returned rows are sorted by descending score |
| Scoring.FinalSortKeepsJoinOrder | app.py:56-59 | the model's stable final sort leaves the joined top-K rows where they are |
| Scoring.RankRows | app.py:55-59 | only input entries come out, each with its own score and a title exactly when the catalogue has one |
| Scoring.RankTopK | app.py:55 | no entry that was left out scores above a returned row |
| Scoring.RankDistinct | poc_reco_llm_local.py:61-66 | over a series with a distinct index and a catalogue with unique ids, the returned rows have distinct items: one row per selected item |
| Scoring.RankLength | app.py:55-59 | with unique catalogue ids: min(topk, n) rows for topk >= 0, and n + topk (at least 0) rows for negative topk |
| App.BuildUserItemMatrix | app.py:29-30 | fails exactly on a duplicate (user, item) pair. Otherwise rows and columns are the sorted distinct user and item ids, each recorded cell holds its rating, and every other cell holds 0.0 |
| App.Blended | app.py:43-50 | the blend of the normalised collaborative score and the reindexed normalised popularity, indexed by the matrix columns |
| App.Hybrid | app.py:52-53 | exactly the blended entries whose item the user has not rated |
| App.Ranked | app.py:55-59 | the ranked, truncated, title-joined rows, sorted by descending score |
| App.Recommend | app.py:30-35 | fails exactly on duplicate pairs or an unknown user. Duplicate pairs fail with `DuplicateEntries`, ahead of the user check, because the pivot is built first. An unknown user gets `UserNotFound` with its id and the observed min and max user id; none when there are no ratings |
| App.ReindexIsIdentity | app.py:47-48 | the normalised popularity already has the collaborative index, so the reindex changes nothing |
| App.AlphaExtremes | app.py:50-53 | alpha = 1 keeps only the normalised collaborative score, alpha = 0 only the normalised popularity |
| App.BlendedInUnitRange | app.py:43-50 | for alpha in [0, 1] every blended score lies in [0, 1) |
| App.HybridItems | app.py:52-53 | after the drop, exactly the rated items the user has not rated remain, one entry each |
| App.RankedLaw | app.py:37-60 | for a known user: rows sorted descending; only unseen items of the ratings, each row carrying its item's hybrid score and titled exactly when the catalogue has a title; scores in [0, 1) for alpha in [0, 1]; no unseen item left out scores above a returned one; with unique catalogue ids, distinct items and min(topk, unseen items) rows |
| App.RecommendLaw | app.py:32-60 | without duplicate pairs and for a known user the call succeeds. Its rows are sorted descending and hold only unseen items, each row carrying its item's hybrid score and titled exactly when the catalogue has a title. Scores lie in [0, 1) for alpha in [0, 1]. No unseen item left out scores above a returned row. With unique catalogue ids the rows have distinct items and there are min(topk, unseen items) of them |
| App.EveryItemRated | app.py:52-60 | a user who has rated every item gets an empty list, not an error |
| App.SingleUnseenItem | app.py:52-60 | a user with exactly one unseen item gets exactly that item for any topk >= 1 |
| App.OneUnseenItem | app.py:32-60 | user 1 rated only item 10, and item 20 has mean 3.0 from two others: topk = 1 with alpha = 0 returns exactly item 20 |
| App.ScenarioFacts | app.py:52 | in that scenario, item 20 is the only item user 1 has not rated |
| LocalPoc.BuildUserItemMatrix | poc_reco_llm_local.py:31-37 | returns a fresh table over the sorted distinct user and item ids, equal to the matrix function. Each cell holds the rating of the last record for its pair, or 0.0 when no record names it |
| LocalPoc.WriteRatings | poc_reco_llm_local.py:35-36 | the write loop over a 0.0 table leaves every cell equal to the last rating recorded for its pair, or 0.0 |
| LocalPoc.Blended | poc_reco_llm_local.py:54-57 | the blend straight over the two normalised series, indexed by the matrix columns |
| LocalPoc.Hybrid | poc_reco_llm_local.py:58-59 | exactly the blended entries whose item the user has not rated |
| LocalPoc.Recommendation | poc_reco_llm_local.py:39-42 | fails exactly when the user has no ratings, with `UnknownUser` and that user |
| LocalPoc.Recommend | poc_reco_llm_local.py:39-67 | the method builds the table in place and returns exactly what the function `Recommendation` specifies |
| LocalPoc.SharedIndex | poc_reco_llm_local.py:54-57 | both normalised series carry the sorted distinct item ids, so the blend needs no reindex |
| LocalPoc.HybridAgrees | poc_reco_llm_local.py:54-59 | the blended, seen-dropped scores equal `App.Hybrid` over the same last-write-wins matrix, duplicate records included; on duplicates `app.py` itself fails before scoring (`LocalPoc.VariantsAgree` covers the ratings where both succeed) |
| LocalPoc.VariantsAgree | poc_reco_llm_local.py:39-67 | without duplicate pairs both variants fail for the same users and otherwise return the same rows |
| LocalPoc.RecommendationLaw | poc_reco_llm_local.py:39-67 | for a user with ratings the call succeeds and keeps every ranking promise of `App.RankedLaw`, each row carrying its item's score in `LocalPoc.Hybrid`, duplicate records allowed |

## Left out

- `load_ml100k`, `_read_s3_csv` and the S3 client in `app.py` are left out: they are storage I/O. The ratings and the catalogue are plain parameters.
- The local `load_ml100k` in `poc_reco_llm_local.py` is left out too: it reads the MovieLens files from disk.
- The default arguments of `recommend` are left out: `topk=10` in `app.py`, `topk=5` in `poc_reco_llm_local.py`, and `alpha=0.5` in both. Every call site passes both values, so `topk` and `alpha` are plain parameters of the model.
- Also left out as I/O: `handler`, the cold-start cache `_RATINGS, _ITEMS`, and the command-line block of `poc_reco_llm_local.py` (argument parsing, printing, CSV output).
- `cosine_similarity` comes from scikit-learn and is not part of this model. It is the parameter `cosine` of type `(seq<real>, seq<real>) -> real`.
- Scoring.Similarities: states only that there is one similarity per row, indexed like the rows, because the cosine itself is a parameter.
- Floating point is not modelled: scores are exact reals. NaN and infinity do not arise, so `fillna(0.0)` after the normalisation has nothing to fill. An empty series normalises to an empty series.
- Scoring.SortDesc: states descending order and permutation, not which of several equally scored entries comes first. `sort_values` uses an unstable quicksort, and the model's insertion sort is only one admissible order.
- Scoring.RankTopK: says no left-out entry outscores a kept row. Among tied scores at the cut-off, it does not fix which item is kept, for the reason given for `SortDesc`.
- The `ValueError` texts are not modelled; the error constructors carry their data (user id, id range). The handler's conversion of a failure into a 400 response is I/O and is left out.
- Column names, `reset_index` and `to_dict` are left out. A result row is `Reco(item, score, title)` and its position in the sequence.
- A pivot could be read as last-write-wins on duplicate pairs, but pandas' `pivot` in `app.py` raises on them. The model follows the code: `App.BuildUserItemMatrix` returns `Err(DuplicateEntries)`.
- In `poc_reco_llm_local.py` the popularity mean counts every record, including records whose cell a later one overwrote. `LocalPoc.HybridAgrees` covers that case.
