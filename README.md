# Stage Shift dashboard: a verified model of its comparison engine

The Stage Shift dashboard compares two spreadsheets of registrants: a previous
sheet and a current sheet, keyed by `Email_ID`. Once both sheets are loaded,
it does three things:

- It puts every row into one of five stages. The stage is the most advanced of
  Payment, Upload, Academic and Personal whose status cell reads exactly
  `"Completed"`. A row with no such cell is Registered.
- It counts the distinct previous ids. It also counts the distinct ids of the
  current rows whose id the previous sheet lacks (the new users).
- It inner-merges the two sheets' (Email_ID, Stage) columns and drops the
  merged rows whose stage did not change. It then counts the remaining rows per
  (Stage_prev, Stage_curr) pair.

This project models that engine in Dafny and proves what it computes.

- `stage_classifier.dfy` (module `StageClassifier`): stages, rows, and
  `determine_stage`. The classifier is specified against an independent
  definition: the result is the reached stage of highest rank.
- `stage_column.dfy` (module `StageColumn`): the in-place assignment of the
  Stage column. `AssignStage` is a loop over an `array<Row>`, specified by the
  pure `WithStage`.
- `user_diff.dfy` (module `UserDiff`): the `Email_ID` column, `nunique`, the
  `isin` filter for new users, and the two-row summary table.
- `transitions.dfy` (module `Transitions`): the (Email_ID, Stage) projection,
  the many-to-many inner merge, the filter on changed stage, and the group-by
  count table.
- `dashboard.dfy` (module `Dashboard`): the main block as one method over the
  two sheet arrays. It also holds the split of current ids into new and
  retained ids, and a worked comparison of two small sheets.

Modelling choices:

- A status cell is `Option<string>`. `None` stands for a missing column or an
  empty cell, which is what `row.get` or NaN gives. A cell of any other type is
  never `"Completed"`, so it behaves like any text other than `"Completed"`.
- Ids are plain strings. The model assumes every row has an `Email_ID`.
- The merge is the sequence of all (previous row, current row) pairs with equal
  ids, as pandas' inner merge produces them, including repeated ids: an id
  with two previous rows and three current rows gives six merge rows. The
  model lists them in previous-sheet order, and within that in current-sheet
  order. No lemma depends on this order.
- The group-by result is a table of `ShiftRow(stagePrev, stageCurr, count)`
  rows, one per distinct pair.

Three behaviours of website.py are worth stating plainly:

- The transition counts are the group sizes of the observed pairs only. No
  zero-filled 5×5 matrix of all stage pairs is built.
- No-change pairs (Stage_prev equal to Stage_curr) are removed at line 66
  before counting, so they never appear in the counts.
- Repeated ids are not rejected. They go through the many-to-many merge, and
  every resulting pair is counted.

The worked comparison in `Dashboard.ExampleShiftCounts` shows the second
point. With id1 at Payment in both sheets and id2 moving from Academic to
Upload, only `(Academic, Upload): 1` is reported. `Dashboard.ExampleRepeatedId`
shows the third: two previous rows of one id at Personal against one current
row at Upload give `(Personal, Upload): 2`.

## Model

| member | source | states |
|---|---|---|
| StageClassifier.DetermineStage | website.py:23-33 | the stage given is one the row has reached, and no reached stage ranks above it (most advanced completed stage) |
| StageClassifier.MostAdvancedIsUnique | website.py:24-33 | any reached stage that dominates all reached stages is the classifier's answer, so the classification is a function of the cells |
| StageClassifier.StageCases | website.py:24-33 | for each of the five labels, an if-and-only-if over the four cells: a cell decides only if every more advanced cell is not "Completed" |
| StageClassifier.PaymentHasPriority | website.py:24-25 | Payment_Status == "Completed" gives Payment whatever the other cells hold |
| StageClassifier.NothingCompletedIsRegistered | website.py:24-33 | a row with no cell exactly "Completed" (absent, other text) is Registered |
| StageClassifier.OnlyStatusCellsMatter | website.py:23-33 | the stage ignores the Email_ID: two rows that agree on the four status cells get the same stage |
| StageClassifier.LabelInjective | website.py:25-33 | the five stage labels are different texts, so comparing and grouping labels is comparing and grouping stages |
| StageColumn.WithStage | website.py:44-45 | the column assignment keeps the row count and every row's cells, and sets each Stage cell to that row's classification |
| StageColumn.WithStageClassifies | website.py:44-45 | after the assignment every row has a Stage cell |
| StageColumn.WithStageIdempotent | website.py:44-45 | assigning the Stage column twice is the same as once |
| StageColumn.WithStageKeepsCorrectRows | website.py:44-45 | a sheet whose Stage cells are already right is unchanged |
| StageColumn.AssignStage | website.py:44-45 | the in-place loop leaves the array equal to WithStage of its old contents |
| UserDiff.NUnique | website.py:48 | nunique is the size of the set of distinct ids, and at most the row count |
| UserDiff.RowsNotIn | website.py:49 | the negated isin filter keeps each row with an id outside the given ids as often as it occurs, and drops the rest |
| UserDiff.NewUsers | website.py:49 | new_users_df holds each current row whose id is absent from the previous sheet, with its multiplicity, and nothing else |
| UserDiff.NewUsersIsFilter | website.py:49 | a row is a new-user row iff it is a current row whose id the previous sheet lacks |
| UserDiff.NewUserIds | website.py:49-50 | the new users' distinct ids are the current ids minus the previous ids |
| UserDiff.TotalNewIsDifference | website.py:49-50 | total_new is the size of (current ids minus previous ids) and at most the current sheet's distinct ids |
| UserDiff.Summary | website.py:48-56 | the two-row table: "Total in Previous Sheet" with the distinct previous ids, "New Users in Current Sheet" with the size of current ids minus previous ids |
| UserDiff.SummaryOfIdSets | website.py:48-56 | the summary table depends only on the previous and current sets of distinct ids |
| Transitions.Project | website.py:62-63 | the (Email_ID, Stage) projection keeps the rows in order |
| Transitions.ProjectIds | website.py:62-63 | the projection has the same distinct ids as the sheet |
| Transitions.Merge | website.py:62-64 | the inner merge has at most as many rows as the product of the two sheets' lengths; its membership, multiplicity and per-move counts are the lemmas MergeMember, MergeMultiplicity, MergeSize, MergePairCount, MergedIds and MergeUnique |
| Transitions.Matches | website.py:62-64 | the merge rows from one previous row carry its id and stage, at most one per current row |
| Transitions.MatchesMember | website.py:62-64 | a merge row from one previous row is exactly its pairing with a current row of the same id |
| Transitions.MergeMember | website.py:62-64 | a merged row is exactly the pairing of a previous row and a current row with equal Email_ID |
| Transitions.MatchesMultiplicity | website.py:62-64 | a previous row Keyed(x, a) yields Joined(x, a, b) once per current row Keyed(x, b), and any other previous row yields it never |
| Transitions.MergeMultiplicity | website.py:62-64 | many-to-many: the merge holds Joined(x, a, b) exactly (previous rows Keyed(x, a)) × (current rows Keyed(x, b)) times |
| Transitions.MatchesSize | website.py:62-64 | one previous row yields as many merge rows as there are current rows with its id |
| Transitions.MergeSize | website.py:62-64 | the merge has exactly one row per index pair (i, k) of a previous and a current row with equal Email_ID, repeated ids included |
| Transitions.MatchesPairCount | website.py:62-64 | per stage pair, one previous row yields as many merge rows as there are current rows with its id making that move |
| Transitions.MergePairCount | website.py:62-64 | per stage pair, the merge rows making that move are exactly as many as the index pairs (i, k) with equal Email_ID whose stages make it |
| Transitions.MergedIds | website.py:62-64 | the ids in the merge are the ids present in both sheets, so an id in only one sheet never appears |
| Transitions.MatchesUnique | website.py:62-64 | with unique current ids a previous row yields one merge row if its id is current, none otherwise |
| Transitions.MergeUnique | website.py:62-64 | with unique ids in both sheets the merge has one row per shared id |
| Transitions.UniqueTail | website.py:62-64 | a projection without repeated ids stays so without its first row, which lacks the first id |
| Transitions.Shifted | website.py:66 | stage_shift_df is no longer than the merge; which rows it keeps and how often is ShiftedIsFilter, ShiftedPairCount and ShiftedKeepsAll |
| Transitions.ShiftedIsFilter | website.py:66 | stage_shift_df keeps each merged row whose stages differ, with its multiplicity, and drops every row whose stage is unchanged |
| Transitions.ShiftedPairCount | website.py:66 | per stage pair, filtering keeps the count of an off-diagonal pair and zeroes a diagonal one |
| Transitions.ShiftedKeepsAll | website.py:66 | the filter drops nothing iff every merged row changed stage |
| Transitions.Bump | website.py:67 | one more observation raises its pair's count by one and keeps pairs distinct and counts positive |
| Transitions.GroupSize | website.py:67 | groupby().size(): pairs distinct, counts positive, pair set = pairs present in the input, each count = occurrences in the input, counts sum to the input length |
| Transitions.DistinctKeysPairwise | website.py:67 | in a group-by table, two different rows have different stage pairs |
| Transitions.ShiftCounts | website.py:66-67 | shift_counts has each stage pair at most once and its counts sum to the number of changed merged rows; its rows and counts are ShiftCountsRows, ShiftCountsCounts, ShiftCountsTotal and ShiftCountsOfSheets |
| Transitions.ShiftCountsRows | website.py:66-67 | shift_counts holds no pair with Stage_prev == Stage_curr, each pair once, and its pairs are exactly those of the changed merged rows |
| Transitions.ShiftCountsCounts | website.py:66-67 | every count is at least 1 and equals the number of merged rows with that pair |
| Transitions.ShiftCountsTotal | website.py:66-67 | the counts sum to the number of merged rows whose stages differ, and to the merge size iff every merged row changed |
| Transitions.ShiftCountsOfSheets | website.py:62-67 | each count equals the number of index pairs (i, k) of a previous and a current row with equal Email_ID whose stages make that move, so repeated ids count once per pair |
| Transitions.ShiftTotalBound | website.py:62-67 | with unique ids the counts sum to at most the number of shared ids |
| Dashboard.WithStageKeepsIds | website.py:44-48 | adding the Stage column leaves the Email_ID column as it was |
| Dashboard.NewAndRetainedPartition | website.py:49-64 | the new users' ids and the merged ids partition the current ids, and the merged ids are the previous ids intersected with the current ids |
| Dashboard.Analyze | website.py:44-67 | both sheets get their Stage column in place (even if the two arrays are one), the summary counts the distinct previous ids and the new ids of the sheets as uploaded, and the counts are the group-by of the changed merged rows |
| Dashboard.ExampleSummary | website.py:48-56 | on the worked sheets the summary reads 2 previous, 1 new |
| Dashboard.ExampleNewUsers | website.py:49-50 | on the worked sheets the new users' ids are {id3} |
| Dashboard.NewIdsOfIdSets | website.py:49-50 | the new users' distinct ids depend only on the two sheets' sets of distinct ids: the current set minus the previous set |
| Dashboard.ExampleRetained | website.py:62-64 | on the worked sheets the merged ids are {id1, id2} |
| Dashboard.ExampleProjections | website.py:44-45 | on the worked sheets the (Email_ID, Stage) projections hold Payment, Academic before and Payment, Upload, Personal now |
| Dashboard.ExampleMerge | website.py:62-64 | on the worked sheets the merge pairs id1 with id1 and id2 with id2, and id3 has no row |
| Dashboard.ExampleShiftCounts | website.py:62-67 | on the worked sheets shift_counts is the one row (Academic, Upload, 1); the unchanged Payment row is dropped |
| Dashboard.ExampleRepeatedId | website.py:62-67 | two previous rows of one id against one current row give two merge rows and the count (Personal, Upload, 2) |

## Left out

- Streamlit page setup, title, text, the file uploaders and the display calls
  (website.py:4-11, 58-59, 69-70, 75-76) are presentation only.
- `safe_read_excel` (website.py:14-20) is left out. It covers seeking, decoding
  through openpyxl, error display and `st.stop()`, which are I/O and foreign
  library calls. The model starts from sheets already decoded into rows.
- The `Email_ID` column check (website.py:40-41) is left out. The model
  assumes every row has an `Email_ID`, as a string.
- CSV serialisation, UTF-8 encoding and the download button (website.py:73-74)
  are output formatting and I/O.
- Sheet columns other than the id and the four status cells are not
  represented. `Row.rec` stands for every represented cell, and the Stage
  assignment is proved to leave it unchanged.
- pandas index labels and dtypes are not represented.
- NaN ids are not represented. pandas would drop them from `nunique` but match
  them to each other in the merge.
- Transitions.GroupSize: does not state pandas' order of the group-by output
  rows (sorted by label text). The code does not rely on that order, and the
  model emits its rows in an order of its own.
- Transitions.Merge: does not state pandas' row order of the merge result.
  Every property here is about membership, multiplicity or counts.
