# DSFP dashboard: the engagement-overlap engine

The dashboard loads four tables of an engagement funnel: downloaded the brochure,
signed up for a preview, attended the preview and gave feedback. Each table has an
`Email` column that identifies a person and a `Name` column for display. The operator
ticks checkboxes to pick stages. The script then shows four things:

- the emails common to every ticked stage (the intersection);
- one statistics row per stage;
- the merged table of the common rows;
- for every stage, the rows whose email is not common.

This project models that engine in Dafny and proves what it computes.

- `tables.dfy`, module `Tables`: the table operations the script performs through
  pandas. A `Row` has an email, a name and a map of other columns; a `Table` is a
  sequence of rows. It defines the set of distinct emails, the
  email-membership filter and its complement (`InsideRows`, `OutsideRows`) and the inner merge on
  (Email, Name) (`Matches`, `Join`). It proves that the two filters keep the row order,
  that together they partition the table, and that a key survives the merge exactly
  when it occurs on both sides.
- `dashboard.dfy`, module `Dashboard`: the script itself, written as methods with
  loops, each proved against a specification function.
  - `BuildSelection` is the checkbox loop.
  - `Intersection` is the fold that starts from the first table's emails.
  - `Statistics` is the statistics loop.
  - `MergedTable` is the merge loop.
  - `UniqueTables` is the loop over the unique entries.
  - `Render` is one run of the page.

The statistics keep the source's asymmetry. `total` counts distinct emails, while
`inside` counts rows. So `outside = total - inside` is the number of distinct emails
outside the intersection minus the number of extra copies of intersection emails
(`OutsideCount`). It can be negative: that happens exactly when the extra copies
outnumber the distinct outside emails. `DuplicateEmailMakesOutsideNegative` exhibits such
a case. `StatWithoutDuplicates` proves that without repeated emails the counts agree
with the rows.

The merge does not model pandas' column suffixing. Two merged rows combine their other
columns into one map that keeps one value per column name, the left row's where both
rows have the column (`Combine`).

## Model

| member | source | states |
|---|---|---|
| Dashboard.Chosen | dashboard.py:34-41 | the j-th selected stage is the j-th ticked label paired with its own table, and the selection has one entry per ticked box |
| Dashboard.Ticked | dashboard.py:38-39 | the ticked positions are exactly the positions whose checkbox is ticked, in strictly increasing order |
| Dashboard.SelectionEmpty | dashboard.py:38-41 | the selection is empty exactly when no checkbox is ticked |
| Dashboard.BuildSelection | dashboard.py:34-41 | the loop appends the ticked stages in the fixed label order, giving the specified selection |
| Dashboard.CommonEmails | dashboard.py:50-52 | an email is in the intersection exactly when it occurs in the table of every selected stage |
| Dashboard.Intersection | dashboard.py:50-52 | the fold seeded from the first table's emails and intersected with each later table yields that intersection |
| Dashboard.IntersectionOrderFree | dashboard.py:50-52 | the intersection depends only on which stages are selected, not on their order or repetition |
| Dashboard.Percentage | dashboard.py:44-45 | 0 when the whole is not positive, otherwise the value p with p * whole = 100 * part |
| Dashboard.PercentageBounds | dashboard.py:44-45 | a part between 0 and a positive whole gives a percentage between 0 and 100 |
| Dashboard.PercentageSplit | dashboard.py:44-45 | for a positive whole, the percentages of a part and of the rest add up to 100 |
| Dashboard.StatOf | dashboard.py:56-66 | the statistics row carries the stage label, neither count exceeds the number of rows, and inside + outside = total |
| Dashboard.Statistics | dashboard.py:55-67 | one statistics row per selected stage, in selection order, each the row of that stage |
| Dashboard.StatCounts | dashboard.py:57-61 | category is the stage label, total is the number of distinct emails, inside is the number of row positions whose email is in the intersection, and inside + outside = total |
| Dashboard.OutsideCount | dashboard.py:57-59 | outside is the number of distinct emails outside the intersection minus the number of extra inside copies of intersection emails, which is never negative; so outside is at most the number of distinct outside emails |
| Dashboard.StatWithoutDuplicates | dashboard.py:57-66 | without repeated emails, total is the row count, outside is the number of unique rows and is non-negative, and both percentages lie in [0, 100] |
| Dashboard.PercentagesComplement | dashboard.py:57-66 | total is 0 exactly for an empty table; then both percentages are 0, otherwise they add up to exactly 100 |
| Dashboard.DuplicateEmailMakesOutsideNegative | dashboard.py:57-59 | a table with one email on two rows, all inside, has total 1, inside 2, outside -1 and percentages 200 and -100 |
| Dashboard.JoinAll | dashboard.py:101-102 | after the successive merges a key survives exactly when it is a key of the start table and of every merged table |
| Dashboard.JoinAllOfEmpty | dashboard.py:101-102 | merging from an empty table gives an empty table |
| Dashboard.Merged | dashboard.py:100-102 | every row of the merged table has its email in the intersection and its (Email, Name) pair in the first stage's table |
| Dashboard.MergedTable | dashboard.py:100-102 | the merge loop filters the first table to the intersection and merges it with each later table, giving the specified merged table |
| Dashboard.MergedRows | dashboard.py:100-102 | every merged row has its email in the intersection and its (Email, Name) pair in every selected table; every such pair appears; an empty intersection gives an empty merged table |
| Dashboard.UniqueTables | dashboard.py:108-111 | one table per selected stage, in selection order, holding that stage's rows whose email is not in the intersection |
| Dashboard.SingleSelection | dashboard.py:50-58 | with one stage the intersection is its email set, every row is inside, inside equals the row count, nothing is unique and the merged table is the whole table |
| Dashboard.DisjointSelection | dashboard.py:50-111 | two stages with disjoint emails give an empty intersection; at that intersection the merged table is empty and each unique table is the stage's whole table |
| Dashboard.ThreeStageIntersection | dashboard.py:50-52 | for emails {e1,e2,e3}, {e2,e3,e4} and {e3,e4,e5} the intersection is {e3} |
| Dashboard.ThreeStageCounts | dashboard.py:57-58 | the first of those stages has three distinct emails and one row whose email is e3 |
| Dashboard.ThreeStageStatistics | dashboard.py:55-67 | for the first of those stages total is 3, inside 1, outside 2 and the percentages are 100/3 and 200/3 |
| Dashboard.Render | dashboard.py:48-118 | the prompt is shown exactly when nothing is ticked; otherwise the view holds the selection, its intersection, the statistics, the merged table and the unique tables as specified |
| Tables.Emails | dashboard.py:57 | every row's email is among the distinct emails, and their number never exceeds the number of rows |
| Tables.EmailColumnBound | dashboard.py:57 | the Email column has at most as many distinct values as the table has rows |
| Tables.InsideRows | dashboard.py:100 | a row is kept exactly when it is a row of the table whose email is in the given set |
| Tables.OutsideRows | dashboard.py:111 | a row is kept exactly when it is a row of the table whose email is not in the given set |
| Tables.FiltersKeepOrder | dashboard.py:100-111 | both filters distribute over concatenation, so each keeps the rows it selects in their original order |
| Tables.FiltersPartition | dashboard.py:100-111 | the inside rows and the outside rows together are the table's rows, as a multiset and in number |
| Tables.AllInside | dashboard.py:111 | when every email of a table is in the set, the inside filter keeps the table and the unique table is empty |
| Tables.NoneInside | dashboard.py:111 | when no email of a table is in the set, the unique table is the whole table and the inside filter keeps nothing |
| Tables.InsidePositionsSnoc | dashboard.py:58 | appending a row adds one inside position exactly when its email is in the set |
| Tables.InsideRowsSnoc | dashboard.py:58 | appending a row adds one inside row exactly when its email is in the set |
| Tables.InsideCountsPositions | dashboard.py:58 | the number of inside rows equals the number of table positions whose email is in the set |
| Tables.EmailsOfInside | dashboard.py:57-58 | the emails of the inside rows are the table's emails in the intersection, so there are at least as many inside rows as such emails |
| Tables.DistinctEmailsCount | dashboard.py:57 | a table without repeated emails has as many distinct emails as rows |
| Tables.Combine | dashboard.py:102 | the merged row has the left row's (Email, Name), every other column name of either row, and the left row's value where both rows have that column |
| Tables.Matches | dashboard.py:102 | the merge rows of one left row are exactly its combinations with the right rows of the same (Email, Name) |
| Tables.Join | dashboard.py:102 | the inner merge holds exactly the combinations of a left and a right row that agree on (Email, Name) |
| Tables.JoinKeys | dashboard.py:102 | a key is in the merge exactly when it is a key of both sides |
| Tables.JoinKeepsLeftOrder | dashboard.py:102 | the merge distributes over the left table's concatenation, so it keeps the left row order |

## Left out

- The page setup, the sidebar checkboxes, the tabs, the rendering of tables and messages, the bar chart and the conversion of the statistics to a data frame (dashboard.py:1-23, 69-98, 105, 109-115). These are calls into UI libraries. The four checkbox values and the four tables are parameters of `Render`.
- Loading the four CSV files (dashboard.py:9-12). This is file I/O. Missing (NaN) values are not modelled either: every email and name is a string. So the difference between `nunique`, which drops NaN, and `set`, which keeps it, does not arise.
- The rounding of percentages to two decimals (dashboard.py:45). `Percentage` is exact over reals.
- The `_x`/`_y` column suffixes of pandas' merge, the duplicate-column drop (dashboard.py:104) and `reset_index`. Tables.Combine keeps one value per column name, the left row's, where the source keeps both values under suffixed names (`<col>_x`, `<col>_y`). So line 104 has nothing to drop in the source, while the model has no second copy at all.
- The failure of the merge when a suffixed name collides with an existing column, which can happen when four stages share a non-key column. Recent pandas versions raise an error there, and older ones warn and then drop the later copies at line 104. The model always merges.
- Tables.JoinKeepsLeftOrder: the row order it fixes, the left rows in order and each one's right matches in order, is the inner-merge order of pandas 2.2 and later. Earlier versions grouped the left rows by key, so left keys [a, b, a] came out as [a, a, b]. The repository names no pandas version, and the model follows the newer behaviour.
- The script keeps the selection as two parallel lists, `selected_dfs` and `selected_labels`. The model uses one sequence of (label, table) pairs. The dictionary lookup by label is the lookup by position.
- Re-running the whole script on every interaction. `Render` is one run.
- Tables.Join: its contract states which rows occur in the merge, not how often. `JoinKeepsLeftOrder` and its recursive definition fix the order and the multiplicity.
- Tables.Matches: its contract states which rows occur, not how often. Like `Join`, its definition fixes the order and the multiplicity.
