# Steam analytics and recommendation core, in Dafny

This project models the query core of a game-analytics dashboard and proves
properties of the model. It covers two source files.

- `functions.py`:
  - Three playtime queries by release year: the top five genres by summed
    hours, the top five games, and the bottom three games with positive
    playtime.
  - An item-to-item recommender that projects the similarity matrix onto the
    chosen game's row.
  - A user-to-user recommender. It takes the ten nearest neighbours, the items
    each of them rated highest, and a tally of how often each item occurs.
- `Notebooks/utils.py`: the table-cleaning helpers `data_summ` (its counts),
  `duplicates`, `drop_duplicates` and `replace_all_nulls`.

Module layout:

- `Basics`: `Option`, counts, `Take`, and `KeepFirst`. `KeepFirst`
  models `drop_duplicates(keep='first')` and the key order of a Python dict.
  The module also holds ASCII lower-casing.
- `Sorting`: one stable insertion sort over a comparator, with lemmas for
  sortedness, permutation, stability and "first n" dominance. It stands for
  `sort_values`, `nlargest` and `sorted`.
- `Store`: the game record table and the answers (a table or an error
  message). It also holds the join (`isin`, selecting columns,
  `drop_duplicates`) that both recommenders end with.
- `Playtime`, `ItemRecs` and `UserRecs`: the queries of `functions.py`.
  - The tables the source reads from module globals are parameters here.
  - A failure message the source returns is a `QueryError` value.
  - `similar_user_recs` loops. Its two loops are methods, each proved against
    the function that specifies it.
- `Table`: a pandas DataFrame as a `Frame` class, whose `columns` and `rows`
  the cleaning helpers update in place. It also defines the order
  `sort_values` gives one column: numbers, then strings, then lists, with
  missing values last.
- `Cleaning`: the four helpers of `Notebooks/utils.py`.
  - `data_summ` and `replace_all_nulls` are methods with loops.
  - `drop_duplicates` is a method. In place, it adds its two helper columns to
    the caller's frame. It returns the deduplicated copy.
  - `duplicates` is a function.

## Model

| member | source | states |
|---|---|---|
| Playtime.GenresOfYear | functions.py:55 | the year's rows are exactly the input rows whose `Release` equals the year, each copy kept |
| Playtime.GenreYearPresent | functions.py:51-59 | the year is in the `Release` column iff the filtered table is non-empty, so the "No data available" branch can never be taken |
| Playtime.TopGenresErrors | functions.py:43-59 | "Invalid input" iff the year is not numeric; "no data for the year" iff no row has that year; never the empty-filter message; a table iff some row has the year |
| Playtime.TopGenresAnswer | functions.py:54-70 | when some row has the year, the answer is the top five of that year's per-genre sums |
| Playtime.Totals | functions.py:62 | one total per genre, each equal to the summed hours of that genre |
| Playtime.GroupByGenreSpec | functions.py:62 | `groupby('Genres').sum()` yields each genre of the rows exactly once with its summed hours, and nothing else |
| Playtime.HoursOf | functions.py:62 | a genre that no row has sums to zero hours |
| Playtime.GroupByGenre | functions.py:62 | no more groups than rows, each carrying the summed hours of its genre (GroupByGenreSpec states the rest) |
| Playtime.GroupOf | functions.py:62 | the genre of every row has its group among the totals, holding that genre's summed hours |
| Playtime.TopByHours | functions.py:65-68 | the first n groups by descending hours are in non-increasing order, and no group left out has more hours than one kept |
| Playtime.TopGenreRowsTotals | functions.py:55-68 | exactly min(5, genres of the year) rows, with distinct genres; each genre occurs in the year and carries the sum of the year's hours for it |
| Playtime.TopGenreRowsDominate | functions.py:62-68 | a genre of the year that is left out has no more hours than any kept genre |
| Playtime.TopGenreRowsRanked | functions.py:64-68 | rows in non-increasing hours; a genre of the year that is left out has no more hours than any kept genre |
| Playtime.TopGenreRows | functions.py:62-68 | at most five groups, each carrying the year's summed hours for its genre |
| Playtime.TopGenresByPlaytime | functions.py:28-70 | a table comes only for a numeric year and holds one to five rows (TopGenresErrors and TopGenresAnswer state the rest) |
| Playtime.GenreReleases | functions.py:51 | the `Release` column holds each row's year, in row order |
| Playtime.GamesOfYear | functions.py:99 | the year's game rows are exactly the rows of that year, with multiplicity |
| Playtime.GameYearPresent | functions.py:95-103 | the year is in the `Release` column iff the filtered games are non-empty |
| Playtime.TopGamesErrors | functions.py:87-103 | the same error conditions as the genre query, for the games table |
| Playtime.TopGamesAnswer | functions.py:98-109 | when some row has the year, the answer is the projection of its top five rows by playtime |
| Playtime.TopByPlaytime | functions.py:106 | the first n rows by descending playtime are ordered and dominate every row left out |
| Playtime.TopGameRowsSpec | functions.py:105-106 | min(5, year's rows) rows, all from the year, non-increasing playtime, none left out above a kept row |
| Playtime.TopGameRows | functions.py:99-106 | at most five rows, each a row of the table from that year |
| Playtime.TopGamesByPlaytime | functions.py:76-109 | a table comes only for a numeric year and holds one to five rows (TopGamesErrors and TopGamesAnswer state the rest) |
| Playtime.Project | functions.py:109 | each answer row keeps only `Item_name` and `Playtime` of the matching ranked row |
| Playtime.PositiveGamesOfYear | functions.py:137 | exactly the rows of the year with playtime above 0, with multiplicity |
| Playtime.BottomGamesErrors | functions.py:125-141 | "Invalid input" iff not numeric; "no data" iff no row has the year; the positive-playtime message iff rows of the year exist but none has playtime above 0; a table iff a positive row exists |
| Playtime.BottomGamesAnswer | functions.py:136-147 | when a positive row of the year exists, the answer is the projection of its bottom three |
| Playtime.BottomByPlaytime | functions.py:144 | the first n rows by ascending playtime are ordered and none left out is below a kept row |
| Playtime.BottomGameRowsSpec | functions.py:136-144 | min(3, positive rows) rows, all of the year with playtime above 0, non-decreasing, none left out lower than a kept row |
| Playtime.BottomGameRows | functions.py:137-144 | at most three rows, each a row of the year with playtime above 0 |
| Playtime.BottomGamesByPlaytime | functions.py:114-147 | a table comes only for a numeric year and holds one to three rows, each with playtime above 0 (BottomGamesErrors and BottomGamesAnswer state the rest) |
| Store.Named | functions.py:181 | `isin`: a record is kept iff its name is among the names |
| Store.DisplayRows | functions.py:183 | each row keeps exactly `Item_name`, `Genres`, `Rating` and `Ranking` |
| Store.JoinDisplaySound | functions.py:181-183 | every row of the join displays a record of the table whose name was asked for |
| Store.JoinDisplayComplete | functions.py:181-183 | every record with an asked-for name appears in the join, and no row appears twice |
| Store.JoinDisplayOrder | functions.py:183 | the join keeps the records' table order, by first occurrence |
| Store.JoinDisplay | functions.py:181-183 | the join has no more rows than the record table (JoinDisplaySound, JoinDisplayComplete and JoinDisplayOrder state the rest) |
| Store.NamesIn | functions.py:217 | `.index.tolist()`: each listed name is the name of a kept entry |
| Store.ScoreDescOrder | functions.py:214 | descending score is a total preorder |
| Store.TopByScore | functions.py:214-217 | the first n by descending score are non-increasing and none left out scores higher |
| Store.TopNamesDominate | functions.py:217 | with distinct names, every entry whose name is not kept scores no higher than any kept entry |
| ItemRecs.Scores | functions.py:214 | one score per game of the matrix, the dot product of its row with the chosen game's row |
| ItemRecs.Dot | functions.py:214 | a row of zeros has dot product zero with any row |
| ItemRecs.DotCommutes | functions.py:214 | the dot product does not depend on the order of its operands |
| ItemRecs.Score | functions.py:214 | the score of a game against the chosen game equals the score of the chosen game against it |
| ItemRecs.DropName | functions.py:215 | `drop(selected)` removes exactly the entries named like the chosen game and keeps every other entry |
| ItemRecs.DropNameIn | functions.py:215 | every entry left by the drop is an input entry under another name |
| ItemRecs.ScoresDistinct | functions.py:212-214 | the score series has no repeated entry, and each entry is the one at its name's position |
| ItemRecs.CandidateCount | functions.py:214-215 | sorting and then dropping the chosen game leaves every other score exactly once |
| ItemRecs.SelectedEntry | functions.py:214-215 | the only score entry under the chosen name is the chosen game's own, and it occurs once |
| ItemRecs.OtherIsCandidate | functions.py:214-215 | every game other than the chosen one is still a candidate after the drop |
| ItemRecs.MostSimilarEntries | functions.py:214-217 | min(5, games-1) distinct entries, none of them the chosen game, each with its own score |
| ItemRecs.MostSimilarScored | functions.py:214-217 | at most five entries, each an entry of the score series and none of them the chosen game's |
| ItemRecs.MostSimilar | functions.py:214-217 | at most five names, all of the matrix, never the chosen game (MostSimilarShape and MostSimilarOrdered state the rest) |
| ItemRecs.MostSimilarShape | functions.py:215-217 | min(5, games-1) distinct names from the matrix, excluding the chosen game |
| ItemRecs.MostSimilarOrderFacts | functions.py:214-217 | the kept entries are non-increasing in score, and none left out scores higher |
| ItemRecs.MostSimilarOrdered | functions.py:214-217 | the recommended names are in non-increasing order of their projected similarity |
| ItemRecs.MostSimilarDominates | functions.py:217 | no other game outside the five has a higher projected similarity than a recommended one |
| ItemRecs.NotRecommendedNotTop | functions.py:217 | a game whose name is not recommended is not among the five kept entries |
| ItemRecs.Selected | functions.py:204-207 | no selection iff no record's lower-cased name equals the lower-cased query; otherwise the selection is the name of the first record, in table order, whose lower-cased name is the query (`.iloc[0]`) |
| ItemRecs.RecommendIgnoresCase | functions.py:202-207 | two names with the same lower-case form get the same answer |
| ItemRecs.RecommendOfLowered | functions.py:202 | asking with the lower-cased name gives the same answer |
| ItemRecs.RecommendByNameSpec | functions.py:202-220 | the "no recommendations" message iff the name is unknown to the record table or to the matrix; otherwise a table of distinct displays, each of a recommended name and none of the chosen game, covering every record of the top five names |
| ItemRecs.RecommendByName | functions.py:190-220 | the only failure is the message naming the lower-cased query, and a table comes only when some record's name matches the query case-insensitively |
| UserRecs.Similarities | functions.py:165 | the user's column of the similarity table, one entry per user, in table order |
| UserRecs.NeighbourTop | functions.py:165 | the first min(11, users) users by descending similarity, at least one |
| UserRecs.Neighbours | functions.py:165 | `index[1:11]`: every neighbour is a user of the similarity table |
| UserRecs.NeighbourTopEntries | functions.py:165 | the eleven are distinct users, each carrying their similarity to the user |
| UserRecs.NeighbourTopEntry | functions.py:165 | each of the eleven is a user of the table carrying their similarity to the user |
| UserRecs.NeighboursTail | functions.py:165 | the neighbours are the names of the first eleven after the first, in order |
| UserRecs.NeighboursNoDup | functions.py:165 | no neighbour appears twice |
| UserRecs.NeighboursOrdered | functions.py:165 | the neighbours come by non-increasing similarity to the user |
| UserRecs.NeighboursShape | functions.py:165 | min(users-1, 10) distinct neighbours in non-increasing similarity |
| UserRecs.NeighboursDominate | functions.py:165 | no user outside the top eleven is more similar than any neighbour |
| UserRecs.NeighboursExcludeSelf | functions.py:165 | when the user is strictly most similar to themselves, the offset skips exactly the user |
| UserRecs.SelfFirst | functions.py:165 | when the user is strictly most similar to themselves, they come first in the sorted column |
| UserRecs.Column | functions.py:171 | `umatrix_norm.loc[:, i]`: the neighbour's ratings, item by item |
| UserRecs.MaxOf | functions.py:171 | `max()` skips missing ratings: none iff every rating is missing; otherwise an attained upper bound |
| UserRecs.Matching | functions.py:172 | the items whose rating equals the maximum, and only those |
| UserRecs.BestItems | functions.py:171-172 | every collected item is an item of the rating table, and a neighbour with no rating contributes none |
| UserRecs.BestItemsAttainMax | functions.py:171-172 | an item is among a neighbour's best iff its rating is present and no rating of that neighbour exceeds it |
| UserRecs.BestItemIsMax | functions.py:171-172 | each collected item has a present rating that no other rating of the neighbour exceeds |
| UserRecs.MaxIsBestItem | functions.py:171-172 | an item whose present rating no other rating of the neighbour exceeds is collected |
| UserRecs.BestOfSpec | functions.py:170-172 | an item is in `best` iff it is a best item of some neighbour |
| UserRecs.BestLists | functions.py:170-172 | one list per neighbour, in neighbour order, holding that neighbour's best items |
| UserRecs.BestOf | functions.py:170-172 | every item in `best` is an item of the rating table (BestOfSpec states the rest) |
| Basics.ConcatMembers | functions.py:170-172 | an item is in the list built by repeated `extend` iff it is in one of the extending lists |
| UserRecs.CollectBest | functions.py:170-172 | the loop over neighbours builds exactly the specified `best` list |
| UserRecs.TallyItems | functions.py:174-175 | the counting loop's dict holds exactly the items of `best`, each with its number of occurrences, in first-insertion order |
| UserRecs.TallyStep | functions.py:175 | `get(j, 0) + 1` keeps the dict equal to the counts of the items seen so far, one more item included |
| UserRecs.Tallies | functions.py:174-177 | `most_common.items()`: the distinct items in first-occurrence order, each with its count |
| UserRecs.Items | functions.py:179 | `item[0]` of each tally, in order |
| UserRecs.TalliesSpec | functions.py:174-177 | the tallied items are distinct, exactly the items of `best`, counted at least once each, in first-occurrence order |
| UserRecs.TopByCount | functions.py:177-179 | the first n tallies by descending count are ordered and none left out has a higher count |
| UserRecs.RankingOrder | functions.py:177-179 | min(5, distinct items) tallies, non-increasing counts, none left out counted more |
| UserRecs.Ranking | functions.py:177-179 | at most five tallies, each an item of `best` with its number of occurrences |
| UserRecs.RankingTies | functions.py:177 | `sorted` is stable: tallies with equal counts keep their first-occurrence order |
| UserRecs.SimilarUserRecs | functions.py:151-186 | the method's two loops compute the specified answer |
| UserRecs.RankItems | functions.py:174-181 | tallying `best`, sorting the tally by count and cutting it to five yields the items of the specified ranking |
| UserRecs.UserRecommendationsSpec | functions.py:162-183 | "No data available on user" iff the user has no ratings column; otherwise distinct displays of at most five ranked items, covering every record of those items |
| UserRecs.UserRecommendations | functions.py:151-186 | the message iff the user has no ratings column, and the message names the user |
| Sorting.SortBySorted | functions.py:65 | sorting under a total preorder yields a sorted permutation |
| Sorting.SortByStable | functions.py:177 | elements tied under the order keep their relative order |
| Sorting.TopDominates | functions.py:65-68 | the first n after sorting are sorted, and every element left out is ordered after each kept one |
| Sorting.TopRest | functions.py:65-68 | what the first n leave out is exactly the rest of the sorted sequence |
| Sorting.SortBy | functions.py:65 | the sorted sequence is a permutation of the input |
| Sorting.Top | functions.py:68 | `head(n)` after the sort: min(n, length) elements, drawn from the input with no more copies than it has |
| Sorting.TopIn | functions.py:68 | every element of the first n is an element of the input |
| Basics.Count | functions.py:175 | the count of an item is its multiplicity |
| Basics.KeepFirstKeysDistinct | Notebooks/utils.py:374 | after keeping the first of each key, no two kept elements share a key |
| Basics.KeepFirstCovers | Notebooks/utils.py:374 | every key that was scanned, and not already seen, is kept |
| Basics.KeepFirstEarliest | Notebooks/utils.py:374 | each kept element is the earliest with its key |
| Basics.KeepFirstOrder | functions.py:174-175 | a dict filled in a loop lists its keys in order of first occurrence |
| Basics.KeepFirst | Notebooks/utils.py:374 | no more elements than the input, each an input element whose key was not seen before |
| Basics.Lower | functions.py:202 | the same length, each character lower-cased |
| Basics.LowerIdempotent | functions.py:202 | lower-casing twice is lower-casing once |
| Table.Nulls | Notebooks/utils.py:316 | `isnull().sum()` is at most the number of cells |
| Table.NullsPlusNonNulls | Notebooks/utils.py:314-316 | `count()` plus `isnull().sum()` is the column's length |
| Table.NullsZero | Notebooks/utils.py:368 | the null count is zero iff every cell is present |
| Table.ByKeyOrder | Notebooks/utils.py:353 | `sort_values(by=column)` orders rows by a total preorder |
| Cleaning.DataSumm | Notebooks/utils.py:311-316 | one entry per column in column order, with its non-missing and missing counts, which add up to the row count |
| Cleaning.Repeated | Notebooks/utils.py:348 | `duplicated(keep=False)`: every copy of each row whose key occurs at least twice, and nothing else |
| Cleaning.DuplicatesNone | Notebooks/utils.py:348-350 | `TypeError` iff a present key is a list; otherwise "There are no duplicates" iff the key column has no repeated value |
| Cleaning.DuplicatesRows | Notebooks/utils.py:348-354 | otherwise the rows are sorted by key and hold exactly the rows of repeated keys, with multiplicity |
| Cleaning.Duplicates | Notebooks/utils.py:331-354 | an answer of duplicate rows holds at least two rows (DuplicatesNone and DuplicatesRows state the rest) |
| Cleaning.RepeatedNone | Notebooks/utils.py:348-350 | no row is repeated iff no two keys are equal |
| Cleaning.RepeatedTwice | Notebooks/utils.py:348 | a repeated key brings at least two rows |
| Cleaning.RepeatedPair | Notebooks/utils.py:348 | two rows sharing a key make at least two repeated rows |
| Cleaning.RepeatedKey | Notebooks/utils.py:348 | the key of a repeated row occurs at least twice |
| Cleaning.FirstValue | Notebooks/utils.py:395-396 | no first value iff every cell of the column is missing |
| Cleaning.FirstValueIsFirst | Notebooks/utils.py:395-396 | the first value is the cell of the earliest present row |
| Cleaning.IsNumeric | Notebooks/utils.py:401 | true iff every present value is a number, which `mean()` needs |
| Cleaning.NumCount | Notebooks/utils.py:401 | a column holding a number has a positive count of numbers, so the mean is defined |
| Cleaning.FillColumn | Notebooks/utils.py:400 | `fillna(v)` on one column fills that column's missing cells with `v` and changes no other cell |
| Cleaning.FilledUpTo | Notebooks/utils.py:393-407 | the table keeps its shape after the first c columns have been filled |
| Cleaning.StopFrom | Notebooks/utils.py:393-398 | the column the loop raises at lies between c and the column count |
| Cleaning.ReplaceAllNulls | Notebooks/utils.py:393-409 | the frame is filled column by column up to the first failing column; no error iff no column fails, and the error names that column and its cause |
| Cleaning.FillColumns | Notebooks/utils.py:393-407 | the column loop stops at the first failing column, having filled each earlier column by its plan |
| Cleaning.FilledCells | Notebooks/utils.py:393-407 | after the first c columns, each of their cells is the input cell filled by its column's plan, and every later cell is unchanged |
| Cleaning.ColumnNotReached | Notebooks/utils.py:393-396 | filling the first c columns leaves column c as it was, so its plan is decided on the input values |
| Cleaning.StopFromSpec | Notebooks/utils.py:393-401 | every column before the stop passes, and the stop column, when there is one, fails |
| Cleaning.PlanForFails | Notebooks/utils.py:396-401 | a column fails at `dtype[0]` iff it has no value, and at `mean()` iff its first value is a float and a value that is not a number is present |
| Cleaning.PlanFor | Notebooks/utils.py:396-407 | `mean()` fails only on a column holding a value that is not a number, and the fill value is a string or a float |
| Cleaning.FillCell | Notebooks/utils.py:400-407 | `fillna` never changes a present cell, and leaves a missing cell missing only when the column is not filled |
| Cleaning.MeanWithinValues | Notebooks/utils.py:401-403 | a float column's fill value lies between the smallest and the largest number present |
| Cleaning.MeanBetween | Notebooks/utils.py:401-403 | a value that times the count of numbers gives their sum has a number at or below it and one at or above it |
| Cleaning.SumAbove | Notebooks/utils.py:401 | numbers all above t put the sum above t times their count |
| Cleaning.SumBelow | Notebooks/utils.py:401 | numbers all below t put the sum below t times their count |
| Cleaning.ExcessSum | Notebooks/utils.py:401 | the summed distance of the numbers above t is the sum less t times the count |
| Cleaning.FilledColumns | Notebooks/utils.py:393-407 | a filled column has no missing cell left; a kept column and the columns not reached are unchanged; present cells never change |
| Cleaning.Tag | Notebooks/utils.py:365-368 | each row is paired with its position and its number of missing cells |
| Cleaning.NullsAppendPresent | Notebooks/utils.py:365-368 | the `temp_index` cell, never missing, does not change the row's null count |
| Cleaning.ByKeyThenNullsOrder | Notebooks/utils.py:371 | ordering by the key and then by the null count is a total preorder |
| Cleaning.Untag | Notebooks/utils.py:380 | dropping the helper cells leaves each row's original cells |
| Cleaning.Kept | Notebooks/utils.py:371-374 | the dedup keeps no more rows than the input has |
| Cleaning.Restored | Notebooks/utils.py:377 | sorting back by position keeps no more rows than the input has |
| Cleaning.DropResult | Notebooks/utils.py:371-383 | the result has no more rows than the input (the lemmas below state the rest) |
| Cleaning.DropDuplicates | Notebooks/utils.py:357-385 | the caller's frame gains `temp_index` (the row's position) and `num_null` (its null count) in every case; then `KeyError` iff the column is not in the frame, `TypeError` iff a present key is a list, and otherwise the original columns with the deduplicated rows |
| Cleaning.RestoredFromInput | Notebooks/utils.py:371-377 | every kept row is an input row, with its own position and null count |
| Cleaning.DropKeysDistinct | Notebooks/utils.py:371-374 | no key value occurs twice in the result |
| Cleaning.KeptCovers | Notebooks/utils.py:371-374 | each key of the input has a row after the dedup |
| Cleaning.DropCovers | Notebooks/utils.py:371-380 | every key value of the input occurs in the result |
| Cleaning.KeptFewestNulls | Notebooks/utils.py:371-374 | the row kept for a key has the fewest missing cells among that key's rows |
| Cleaning.DropFewestNulls | Notebooks/utils.py:371-380 | each result row has no more missing cells than any input row with the same key |
| Cleaning.DropKeepsOrder | Notebooks/utils.py:377-383 | the result rows are input rows at strictly increasing positions, so the original relative order is kept |

## Left out

- Loading the parquet files, the Streamlit app and the word cloud of
  `get_recommendations_by_name` are I/O. The tables are parameters of each
  query.
- `app.py` is not part of this model.
- `pd.to_numeric(..., errors='coerce')` on `Release`: the model's `Release`
  column is already an integer, so no value is ever coerced to NaN.
- Floating point is modelled as exact `real` arithmetic. That covers the
  playtime sums, the dot products and the mean. NaN comparisons are not
  modelled.
- Lower-casing is ASCII only. Python's `str.lower` also folds letters outside
  ASCII.
- Equality of values is structural. In pandas `1` equals `1.0` as a key, but
  `Int(1)` and `Float(1.0)` are different keys here. Sorting does treat them
  as equal numbers.
- Sorting a column that mixes numbers and strings raises `TypeError` in
  pandas. The model orders such a column by kind instead (numbers, then
  strings). A list key never reaches the sort: `duplicates` and
  `drop_duplicates` raise `TypeError` on it first, and the model returns that
  error.
- Playtime.GroupByGenreSpec: pandas `groupby` lists genres in sorted order; the model lists them in order of first occurrence. This only affects ties, and no contract claims an order among ties, because the `sort_values` that follows is not stable.
- Playtime.TopGenreRowsRanked, Playtime.TopGameRowsSpec, Playtime.BottomGameRowsSpec, ItemRecs.MostSimilarOrdered: claim no order among equal values. The model sorts stably, but pandas' default sort is not stable.
- Playtime.TopGenresErrors: the "No data available for year" message (functions.py:58-59 and 102-103) is modelled as `EmptyYear` and proved never to occur.
- Cleaning.DropDuplicates: requires that the frame has no `temp_index` or `num_null` column, and that the key is not named `temp_index` or `num_null`. With an existing helper column, the source would overwrite that column and then drop it. With a key named after a helper column, the source would deduplicate on that helper column instead of raising `KeyError`.
- Cleaning.Duplicates: takes the key column's position, not its name. A name that is not in the frame makes pandas raise `KeyError` in `duplicated`; that case is not modelled.
- UserRecs.SimilarUserRecs, UserRecs.UserRecommendations: require the rating and similarity tables to know the same users (`Consistent` in user_recs.dfy). The source needs less: the user must be a column of `user_sim_df` (else `KeyError` at functions.py:165), and each of the ten neighbours must be a column of `umatrix_norm` (else `KeyError` at functions.py:171). A similarity table with extra users who never reach the top eleven works in the source but is outside the model.
- UserRecs.NeighboursExcludeSelf, UserRecs.SelfFirst: hold only when the user is strictly most similar to themselves. If another user ties with that self-similarity, the offset `[1:11]` can drop that user and keep the user themselves.
- ItemRecs.RecommendByName: requires a square similarity matrix with distinct names, as `game_sim_df` is built.
- Cleaning.DataSumm: computes only `Column`, `No_miss_Qty` and `Missing_Qty`. `Data_type` is the set of Python types, `%Missing` is a rounded float percentage, and the `title` printing is I/O; none of these is modelled.
- Cleaning.ReplaceAllNulls: a value type other than string, float or list is represented by `Int`, and such a column is left unchanged.
- The answer to `get_recommendations_by_name` and `similar_user_recs` follows the order of the record table, as the code does with `isin`. It is not ranked by similarity or by count. A ranked answer would be the more natural reading of the function docstrings, but the model follows the code.
