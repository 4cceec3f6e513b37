# restaurant-eda core, modelled in Dafny

This project models four pieces of logic from the restaurant analytics service
and its helper script, and proves properties about them.

- **Analytics service** (`backend/src/services/analytics.py`).
  - The restaurant-type breakdown groups the table by type. Each record holds a count, a share of the table, a mean rating and a rounded mean cost. Records are sorted by count, then by type name.
  - The top-N ranking sorts the table by votes or by rating, cuts it to `limit` rows, numbers the ranks from 1 and parses each row's cuisines.
  - The table is a `seq` of `Models.Restaurant` rows. Dataframe steps (group, mean, merge, sort, head) are functions on sequences. The two loops that build the result lists are methods proved equal to those functions.
- **Loader field normalisation** (`backend/src/services/data_loader.py`).
  - The rating parser, the cost parser and the column clean-up that turns a raw CSV row into a table row.
- **`.env` loader** (`_load_dotenv` in `backend/src/app.py`).
  - The environment is a class whose `map` the loader updates in place, one line at a time, without overriding a variable that is already set.
- **Keras import fixer** (`fix_keras_imports.py`).
  - An ordered table of substring replacements is applied to the code cells of a notebook.
  - The cells are copied into an array and rewritten in place. The notebook object is written back only when a cell changed.

Modules:

| module | file |
|---|---|
| `Wrappers` | `wrappers.dfy` |
| `Text` | `text.dfy` |
| `Numeric` | `numeric.dfy` |
| `Models` | `models.dfy` |
| `Sorting` | `sorting.dfy` |
| `DataLoader` | `data_loader.dfy` |
| `Analytics` | `analytics.dfy` |
| `DotEnv` | `dotenv.dfy` |
| `KerasImports` | `keras_imports.dfy` |

- `Text` holds Python's string operations: `strip`, `in`, `split`, `replace`, `splitlines`, and `<` on strings.
- `Numeric` holds `float(s)`, `int(x)`, `round(x)` and the mean.
- `Sorting` holds a stable sort by a total preorder. It stands for pandas' multi-column `sort_values`.

## Model

| member | source | states |
|---|---|---|
| Analytics.TypeSummaries | backend/src/services/analytics.py:28-29 | The breakdown is empty exactly when the table is empty. |
| Analytics.ComputeRestaurantTypeSummary | backend/src/services/analytics.py:25-72 | The method returns the breakdown `TypeSummaries` defines: no records for an empty table, else one record per row of the sorted frame. |
| Analytics.SummariseRows | backend/src/services/analytics.py:49-69 | The loop appends one record per row of the sorted frame, in order. A missing mean cost stays `None` and a present one is rounded half to even. |
| Analytics.GroupByTypePartitions | backend/src/services/analytics.py:33-34 | `groupby("restaurant_type")` in one lemma. Each group holds exactly the rows of its type and is non-empty. No two groups share a type. The keys are the table's types, and the group sizes add up to the row count. |
| Analytics.GroupByTypeKeys | backend/src/services/analytics.py:33 | There is one group for each type in the table and for no other. |
| Analytics.GroupByTypeMembers | backend/src/services/analytics.py:33-34 | Every group holds all the rows of its type, and at least one. |
| Analytics.GroupByTypeDistinct | backend/src/services/analytics.py:33 | No two groups share a type. |
| Analytics.GroupByTypeSum | backend/src/services/analytics.py:34 | The group sizes add up to the number of rows. |
| Analytics.OfTypeNonEmpty | backend/src/services/analytics.py:33-34 | A type has rows exactly when it occurs in the table. |
| Analytics.RatingsEmpty | backend/src/services/analytics.py:36 | A group has no rating to average exactly when every one of its rows lacks a rating. |
| Analytics.CostsEmpty | backend/src/services/analytics.py:37-39 | A group has no cost to average exactly when every one of its rows lacks a cost. |
| Analytics.MergedEach | backend/src/services/analytics.py:41-45 | Each row of the merged frame is for a type of the table and holds that type's count, mean rating, mean cost and percentage. |
| Analytics.MergedCovers | backend/src/services/analytics.py:41-43 | Every type of the table has its row in the merged frame. |
| Analytics.MergedDistinct | backend/src/services/analytics.py:41-43 | The merged frame repeats no row. |
| Analytics.MergedCount | backend/src/services/analytics.py:34 | The counts of the merged frame add up to the number of rows. |
| Analytics.ListedBeforeTotalPreorder | backend/src/services/analytics.py:47 | "Larger count first, then type name ascending" is a total preorder. |
| Analytics.SortedEach | backend/src/services/analytics.py:47 | Sorting keeps each row the statistics of a type of the table. |
| Analytics.SortedCovers | backend/src/services/analytics.py:47 | Sorting keeps the row of every type. |
| Analytics.SortedDistinctTypes | backend/src/services/analytics.py:47 | No type has two rows in the sorted frame. |
| Analytics.SortedOrdered | backend/src/services/analytics.py:47 | Any earlier row has a larger count, or the same count and a type that is smaller in code-point order. |
| Analytics.SortedCount | backend/src/services/analytics.py:47 | Sorting does not change the total count. |
| Analytics.TypeSummariesCounts | backend/src/services/analytics.py:31-45 | There is one record per type of the table and no type appears twice. Each record's count is the positive number of rows of its type, and the counts add up to the row count. |
| Analytics.CountAt | backend/src/services/analytics.py:34 | Any one record is for a type of the table, and its count is that type's positive row count. |
| Analytics.CoveredAt | backend/src/services/analytics.py:33-34 | Every type of the table has a record. |
| Analytics.TypeSummariesOrdered | backend/src/services/analytics.py:47 | Records come by count, largest first. Equal counts come in ascending code-point order of the type name. |
| Analytics.SummaryOfType | backend/src/services/analytics.py:49-69 | Each record is the converted statistics row of its own type. |
| Analytics.AveragesAt | backend/src/services/analytics.py:54-59 | For one record, the parts of `Averages` listed in the next row hold. |
| Analytics.TypeSummariesAverages | backend/src/services/analytics.py:36-59 | For every record: the average rating is the mean of its type's non-null ratings, `None` exactly when none of its rows is rated, and between the lowest and highest rating. The average cost is `None` exactly when no row has a cost, and otherwise is the mean cost rounded half to even. |
| Analytics.PercentageSum | backend/src/services/analytics.py:45 | Shares `count / total * 100` add up to the summed count's share. |
| Analytics.ShareBounds | backend/src/services/analytics.py:45 | A share of `0 < count <= total` rows lies in (0, 100]. |
| Analytics.ShareAt | backend/src/services/analytics.py:45 | For one record, the percentage is its count's share of the table and lies in (0, 100]. |
| Analytics.TypeSummariesPercentages | backend/src/services/analytics.py:45 | Every percentage is `count / total * 100` and lies in (0, 100]. For a non-empty table the percentages add up to exactly 100. |
| Analytics.PercentagesTotal | backend/src/services/analytics.py:45 | The percentages of a non-empty table add up to 100. |
| Analytics.SummariesCountTotal | backend/src/services/analytics.py:31-34 | The counts of the records add up to the number of rows. |
| Analytics.ToSummariesCount | backend/src/services/analytics.py:61-69 | Converting the frame into records keeps every count. |
| Analytics.SampleQuickBites | backend/tests/conftest.py:25-40 | The "Quick Bites" group of the test table has count 2, mean rating 3.5 and mean cost 350. |
| Analytics.SampleGroups | backend/tests/conftest.py:23-50 | The test table groups into "Quick Bites" with rows A and B, then "Cafe" with row C. |
| Analytics.TypeSummariesExample | backend/tests/unit/test_analytics.py:10-17 | The test table's breakdown: "Quick Bites" first, with 2 rows, two thirds of the table, rating 3.5 and cost 350. "Cafe" follows with no rating and no cost. |
| Analytics.ParseCuisines | backend/src/services/analytics.py:75-83 | Every cuisine returned is non-blank and has no surrounding whitespace. Cuisines read from text hold no comma. |
| Analytics.CuisineNameStripped | backend/src/services/analytics.py:79 | A cuisine name is exactly a non-blank text that is its own strip. |
| Analytics.NonBlankFrom | backend/src/services/analytics.py:83 | The filter keeps only items of its input, and none that is blank. |
| Analytics.NonBlankKeeps | backend/src/services/analytics.py:83 | Items none of which is blank all stay, in order. |
| Analytics.NonBlankStrippedNames | backend/src/services/analytics.py:79-83 | Each part the comprehension returns is stripped and non-blank. |
| Analytics.StripNoComma | backend/src/services/analytics.py:83 | Stripping a comma-free part leaves it comma-free. |
| Analytics.NonBlankStrippedNoComma | backend/src/services/analytics.py:83 | Parts of a split at ',' stay comma-free after the comprehension. |
| Analytics.NonBlankStrippedKeeps | backend/src/services/analytics.py:79-83 | Parts that are already stripped and non-blank come through unchanged. |
| Analytics.CuisinesRoundTrip | backend/src/services/analytics.py:80-83 | Stripped, non-blank, comma-free names joined with ',' parse back to the same names, in the same order. |
| Analytics.EmptyCuisinesText | backend/src/services/analytics.py:104-105 | The "" that fills a missing `cuisines` column parses to no cuisines, as a missing cell does. |
| Analytics.CuisineListKept | backend/src/services/analytics.py:78-79 | A list of stripped, non-blank names is returned as it is. |
| Analytics.RankingTotalPreorder | backend/src/services/analytics.py:110-113 | Both sort orders are total preorders. |
| Analytics.Head | backend/src/services/analytics.py:115 | `head(n)` returns a prefix: the first `n` rows, all rows when fewer, and for a negative `n` all but the last `-n`. |
| Analytics.HeadSubMultiset | backend/src/services/analytics.py:115 | A head takes no row more often than the table holds it. |
| Analytics.TopRanked | backend/src/services/analytics.py:115-138 | There is one record per row kept by `head`. |
| Analytics.RankRows | backend/src/services/analytics.py:117-138 | The loop gives the k-th kept row rank k, with its cuisines parsed. |
| Analytics.ComputeTopRestaurants | backend/src/services/analytics.py:86-145 | `total_restaurants` is the row count whatever `limit` is. The list is the ranked head of the sorted table, and empty for an empty table. |
| Analytics.TopRankedSize | backend/src/services/analytics.py:115-136 | For `limit >= 0` there are min(limit, n) records; a negative limit drops that many rows from the end. Ranks run 1..k. No row is ranked more often than the table holds it. |
| Analytics.TopRankedOrdered | backend/src/services/analytics.py:108-113 | With "rating", records are ordered by rating (a missing one counts as -1), then by votes. Otherwise they are ordered by votes, then by rating. Both keys are descending. |
| Analytics.TopRankedBest | backend/src/services/analytics.py:110-115 | No row left out ranks above a kept row. |
| Analytics.TopRankedStable | backend/src/services/analytics.py:110-115 | Rows tied on both keys keep their table order; the kept ones are the first of them. |
| Analytics.TopRankedUnratedLast | backend/src/services/analytics.py:108-113 | With non-negative ratings, an unrated row never comes before a rated one when sorting by rating. When sorting by votes, the same holds among rows with equal votes. |
| Analytics.TopRankedVotesExample | backend/tests/unit/test_analytics_top_restaurants.py:32-35 | In the votes test, A (10 votes) ranks 1 and B ranks 2. |
| Analytics.TopRankedRatingExample | backend/tests/unit/test_analytics_top_restaurants.py:63-64 | In the rating test, B (4.8) ranks 1 despite fewer votes. |
| Sorting.SortBy | backend/src/services/analytics.py:47 | Sorting returns a permutation of its input. |
| Sorting.SortBySorted | backend/src/services/analytics.py:110-113 | The result is ordered by the given total preorder. |
| Sorting.SortByStable | backend/src/services/analytics.py:110-113 | The sort is stable: elements ranked level with any `e` keep their input order. |
| Sorting.TiedPrefix | backend/src/services/analytics.py:115 | The ties within a prefix are a prefix of the ties. |
| Sorting.SortedPrefixFirst | backend/src/services/analytics.py:115 | In a sorted sequence every element of a prefix may come before every element after it. |
| Sorting.SortByDistinct | backend/src/services/analytics.py:47 | Sorting a sequence without repeats repeats nothing. |
| Sorting.SortBySum | backend/src/services/analytics.py:47 | Sorting keeps a sum over the elements. |
| Sorting.InsertSorted | backend/src/services/analytics.py:47 | Inserting into a sorted sequence keeps it sorted. |
| Sorting.InsertStable | backend/src/services/analytics.py:110-113 | Insertion puts an element before every element it ties with, so an earlier element stays ahead of its ties. |
| DataLoader.ParseRating | backend/src/services/data_loader.py:15-35 | A rating returned lies in [0, 5] and comes from text whose strip is not blank, not "new" in any case, and not "-". |
| DataLoader.ParseRatingRejects | backend/src/services/data_loader.py:16-23 | Non-text cells, blank text, "new" in any case and "-" give no rating. |
| DataLoader.ParseRatingBeforeSlash | backend/src/services/data_loader.py:25-35 | For `num/rest`, only `num` is read. It is the rating when in [0, 5], and there is no rating otherwise. |
| DataLoader.ParseRatingOfStripped | backend/src/services/data_loader.py:21-35 | For stripped text that is not a marker, the rating is the number before any '/' when it parses and lies in [0, 5], and `None` otherwise. |
| DataLoader.ParseRatingExample | backend/tests/unit/test_data_loader.py:46 | "4.1/5" reads as 4.1. |
| DataLoader.ParseCost | backend/src/services/data_loader.py:38-57 | Missing cells and objects that are neither numbers nor text give `None`. An int is kept, a float truncated, and a bool becomes 1 or 0. Text that gives a cost is not empty once stripped of whitespace and commas. |
| DataLoader.ParseCostFormatInt | backend/src/services/data_loader.py:50-55 | The text of an int reads back as that int. |
| DataLoader.ParseCostIgnoresComma | backend/src/services/data_loader.py:50 | A thousands comma is ignored: "1,200" reads like "1200". |
| DataLoader.ParseCostTruncates | backend/src/services/data_loader.py:54-55 | Decimal text is truncated toward zero. |
| DataLoader.RemoveCommas | backend/src/services/data_loader.py:50 | No comma is left, and every other character of the text is kept. |
| DataLoader.RemoveCommasKeeps | backend/src/services/data_loader.py:50 | Text without commas is unchanged. |
| DataLoader.RemoveCommasAppend | backend/src/services/data_loader.py:50 | Removing commas distributes over concatenation. |
| DataLoader.CoerceVotes | backend/src/services/data_loader.py:91 | An int is kept and a bool becomes 1 or 0. A missing cell, or an object that is neither a number nor text, becomes 0. |
| DataLoader.CoerceVotesFormatInt | backend/src/services/data_loader.py:91 | Numeric text such as "10" coerces to its int. |
| DataLoader.CoerceVotesUnparseable | backend/src/services/data_loader.py:91 | Text that is not a number coerces to 0. |
| DataLoader.LoadRowsFields | backend/src/services/data_loader.py:84-93 | Every row is kept, in order. A missing name or location becomes "nan". A missing type becomes "Unknown" and a present one is kept. Ratings lie in [0, 5]. Votes are the coerced ints and costs the parsed costs. |
| Numeric.ParseUnsigned | backend/src/services/data_loader.py:29 | A parsed unsigned decimal is non-negative and made only of digits and '.'. |
| Numeric.ParseDecimal | backend/src/services/data_loader.py:29 | Text that parses has no surrounding whitespace. |
| Numeric.ParseFloatFormatInt | backend/src/services/data_loader.py:55 | `float(str(i)) == i`. |
| Numeric.ParseDecimalFormatInt | backend/src/services/data_loader.py:55 | The decimal text of an int, with its sign, reads back as that int. |
| Numeric.ParsedIsStripped | backend/src/services/data_loader.py:21 | Text that parses as a decimal is its own strip. |
| Numeric.FormatNat | backend/src/services/data_loader.py:55 | `str(n)` is non-empty digits, with no leading zero, whose value is `n`. |
| Numeric.Trunc | backend/src/services/data_loader.py:45 | `int(x)` truncates toward zero: it is within 1 of `x`, on the side of zero. |
| Numeric.RoundHalfEven | backend/src/services/analytics.py:59 | `round(x)` is within 0.5 of `x`, and even on a tie. |
| Numeric.RoundHalfEvenNearest | backend/src/services/analytics.py:59 | No integer is strictly closer to `x` than `round(x)`. |
| Numeric.Mean | backend/src/services/analytics.py:36 | The mean is missing (NaN) exactly when there are no values. |
| Numeric.MeanBounds | backend/src/services/analytics.py:36 | A mean of values in [lo, hi] lies in [lo, hi]. |
| Numeric.MeanBetweenMinMax | backend/src/services/analytics.py:36 | A mean lies between the least and greatest value. |
| Numeric.SumBounds | backend/src/services/analytics.py:36 | A sum of n values in [lo, hi] lies in [n*lo, n*hi]. |
| Text.TrimStart | backend/src/app.py:33 | `lstrip` removes a prefix made only of stripped characters, and what remains starts with a kept character. |
| Text.TrimEnd | backend/src/app.py:33 | `rstrip` removes a suffix made only of stripped characters, and what remains ends with a kept character. |
| Text.StripChars | backend/src/app.py:33 | `strip(chars)` gives text that neither starts nor ends with a stripped character. |
| Text.StripCharsInfix | backend/src/services/analytics.py:83 | The strip is an infix of the text whose surroundings are all stripped characters. |
| Text.StripCharsKeeps | backend/src/services/data_loader.py:21 | Text that neither starts nor ends with a stripped character is its own strip. |
| Text.StripCharsIdempotent | backend/src/app.py:32 | Stripping twice is stripping once. |
| Text.FirstIndexIn | backend/src/app.py:31 | The index found is the first occurrence of a character of the set, or the length when there is none. |
| Text.FirstIndexAfter | backend/src/app.py:31 | The first '=' of `k + "=" + v` is right after `k` when `k` holds none. |
| Text.Split | backend/src/services/analytics.py:83 | `split(sep)` gives at least one part, and no part holds `sep`. |
| Text.JoinSplit | backend/src/services/analytics.py:83 | Joining the parts of a split gives back the text. |
| Text.SplitJoin | backend/src/services/analytics.py:83 | Splitting a join of separator-free parts gives back the parts. |
| Text.ReplaceAllAbsent | fix_keras_imports.py:38-39 | `replace` leaves text without the pattern unchanged. |
| Text.ReplaceAllGrows | fix_keras_imports.py:39-41 | With a longer replacement, `replace` never shortens the text, and lengthens it when the pattern occurs. |
| Text.LexLessAsymmetric | backend/src/services/analytics.py:47 | `<` on strings is asymmetric. |
| Text.LexLessTotal | backend/src/services/analytics.py:47 | Two different strings are ordered one way or the other. |
| Text.LexLessTransitive | backend/src/services/analytics.py:47 | `<` on strings is transitive. |
| Text.SplitLines | backend/src/app.py:25 | No line of `splitlines()` holds a line boundary. |
| Text.SplitLinesCons | backend/src/app.py:25 | A line followed by "\n" is split off as it is. |
| DotEnv.Unquote | backend/src/app.py:33 | The stored value neither starts nor ends with "'", and is no longer than the raw value. |
| DotEnv.ParseLine | backend/src/app.py:26-33 | A key read from a line is its own strip. |
| DotEnv.ParseLines | backend/src/app.py:25 | There is one parse result per line, in order. |
| DotEnv.ParseLineNone | backend/src/app.py:26-30 | A line gives no entry exactly when it is blank, is a comment, or holds no '='. |
| DotEnv.LoadedSkips | backend/src/app.py:26-30 | Blank lines, comments and lines without '=' leave the environment alone. |
| DotEnv.ParseLineSplit | backend/src/app.py:31-33 | `k=v` splits at the first '='. The key is `k` stripped and the value is `v` unquoted, whatever '=' `v` holds. |
| DotEnv.ParseLineAt | backend/src/app.py:26-33 | A stripped, non-comment line whose first '=' is at `i` splits there. |
| DotEnv.StripCharsWrapped | backend/src/app.py:33 | Surrounding copies of a stripped quote come off, and nothing else does. |
| DotEnv.UnquoteQuoted | backend/src/app.py:33 | A value in double quotes or in single quotes is stored without them. |
| DotEnv.UnquoteDoubleQuoted | backend/src/app.py:33 | A value in double quotes is stored without them. |
| DotEnv.UnquoteSingleQuoted | backend/src/app.py:33 | A value in single quotes is stored without them. |
| DotEnv.Environment.LoadDotenv | backend/src/app.py:21-37 | A missing file changes nothing. Otherwise the environment becomes `Loaded` of the file's parsed lines: skip empty or already-set keys, set the rest in order, and stop at the first entry the environment refuses. |
| DotEnv.LoadedKeepsExisting | backend/src/app.py:34-35 | A variable that was set is never changed or removed. |
| DotEnv.LoadedNewKeys | backend/src/app.py:34-35 | Every variable added is a non-empty key of some line. |
| DotEnv.LoadedFirstWins | backend/src/app.py:34-35 | The first line that sets a new key decides its value; later lines with that key do not override it. |
| KerasImports.ReplacementsGrow | fix_keras_imports.py:18-25 | Every pattern is non-empty and shorter than its replacement. |
| KerasImports.Step | fix_keras_imports.py:38-39 | One replacement changes the text exactly when the pattern occurs, and then lengthens it. |
| KerasImports.RewriteWithGrows | fix_keras_imports.py:37-41 | Applying the table in order changes a text exactly when it holds some pattern, and never shortens it. |
| KerasImports.RewriteChanges | fix_keras_imports.py:37-41 | With the script's table, a line changes exactly when it holds a deprecated import pattern. |
| KerasImports.RewriteText | fix_keras_imports.py:46-51 | The replacement loop gives the text after every rule in order, and reports a change exactly when the result differs. |
| KerasImports.RewriteLines | fix_keras_imports.py:34-44 | The number of lines is kept, and each line is rewritten by the table. |
| KerasImports.RewriteSourceLines | fix_keras_imports.py:33-44 | The loop over a list source gives the rewritten lines, and `changed` exactly when some line changed. |
| KerasImports.RewriteLinesStep | fix_keras_imports.py:34-43 | One more rewritten line extends the rewritten prefix, which differs exactly when the prefix or that line does. |
| KerasImports.FixCell | fix_keras_imports.py:31 | A cell keeps its type, and a cell that is not code is left as it is. |
| KerasImports.FixCellChanges | fix_keras_imports.py:30-52 | A cell changes exactly when it is a code cell whose string source, or one of whose lines, holds a pattern. |
| KerasImports.FixCells | fix_keras_imports.py:30-52 | There is one fixed cell per cell, in order. |
| KerasImports.FixCellsChanges | fix_keras_imports.py:27-52 | The cells change exactly when some code cell holds a pattern. |
| KerasImports.FixOneCell | fix_keras_imports.py:31-52 | The loop body gives the fixed cell, and whether it changed. |
| KerasImports.FixCellsInPlace | fix_keras_imports.py:27-52 | Each cell of the array is replaced in place by its fixed form. `modified` holds exactly when some cell changed. |
| KerasImports.NotebookFile.FixKerasImports | fix_keras_imports.py:54-63 | `modified` holds exactly when some cell changes. The notebook is written back with the fixed cells only then; otherwise it is left as it was. |

## Left out

- Reading the CSV (`read_csv`, `usecols`) and the missing-file check in `load_zomato_csv` are I/O. The model starts from the rows pandas has read.
- `load_zomato_csv` reassigns whole dataframe columns. The model states the result as a function on rows (`LoadRows`), not column by column in place.
- No row is dropped for a missing name or location: both columns are stringified before `dropna` (data_loader.py:84-85, 93), so a missing name or location becomes "nan" and the row stays.
- The loader does not read the `cuisines` column, although `backend/tests/unit/test_data_loader.py:45` expects one. The model follows the loader: loaded rows carry no cuisines.
- Rows sharing a name and location are not merged by the top-N ranking; the code has no such step, and neither does the model.
- `processing_time_ms` and the `perf_counter` timing are left out. The result records carry no timing.
- Ratings, means and percentages are exact reals, not IEEE doubles.
  - So the percentages add up to exactly 100, where floats would only approximate it.
  - `float(s)` is restricted to a plain decimal with an optional sign: no exponent, "inf", "nan" or '_'.
  - A float cell is never NaN or infinite. NaN is the `Missing` cell.
- `Analytics.ComputeTopRestaurants`: the re-coercion of votes (analytics.py:107) and the default columns (lines 100-105) are not modelled. On rows the loader produced, votes are already ints and `rating` and `votes` are present, so those steps change nothing. The loader does not produce a `cuisines` column, so line 105 sets every cell to ""; the model gives those rows `NoCuisines` instead, and both parse to no cuisines (lines 76-77 and 80-81; `Analytics.EmptyCuisinesText`), so the records are the same.
- Cuisine cells are text or a list of strings. `str(x)` of other objects in a list, or of a non-string cell, is not modelled.
- pandas orders groups by key, and the model's grouping puts them in first-seen order. The breakdown then sorts on count and type name, which is unique per group, so the final order is the same.
- DataLoader.ParseCost: text such as "inf" or "1e999" makes `int(float(s))` raise `OverflowError` (data_loader.py:54-57), which the `except ValueError` does not catch, so the load fails. The model's decimal grammar rejects such text and gives `None`, so this failure is not modelled.
- DataLoader.CoerceVotes: votes text such as "inf" becomes an infinite float in `pd.to_numeric`, and `astype(int)` then raises (data_loader.py:91), so the load fails. The model rejects such text and gives 0, so this failure is not modelled.
- In `fix_keras_imports.py`:
  - JSON reading and writing, `print`, `sys.argv` and the default path are left out.
  - A cell without a `cell_type` key, which raises `KeyError`, is not modelled.
  - A list source whose items are not strings is not modelled.
- The fixer's functions and methods take the replacement table as a parameter with the property `Growing`. The script's own table is `Replacements`, which `NotebookFile.FixKerasImports` passes.
- In `_load_dotenv`:
  - The file read is left out. The file is given as its text, or `None` when it does not exist.
  - A read or decode error, which the handler swallows before anything is set, is not modelled.
  - Of the errors `os.environ` can raise, only the NUL character in a name or value is modelled. It ends the load and keeps what was set.
