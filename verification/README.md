# Welfare panel dashboard: cleaning, filtering and mean income

A Dafny model of the data pipeline behind a single-page survey dashboard
(`app.py`). The dashboard reads the 2015 wave of a welfare panel survey,
cleans it, filters it with two sidebar controls and charts mean monthly
income by sex and by age. The model covers the three pure stages:

1. **Cleaning** (`load_data`). The model renames seven source columns. It
   turns the "not reported" codes into missing values: sex 9, income 0 and
   9999, and birth year 9999. Sex codes 1 and 2 become male and female; any
   other code becomes missing. The model derives `age = 2015 - birth_year + 1`
   and puts the age into one of three groups, split at 30 and 60.
2. **Filtering**. A row is kept when its sex is one of the selected sexes
   and its age lies in the selected inclusive range. A missing sex or age
   never passes.
3. **Aggregation**. The model drops rows whose key or income is missing.
   It groups the rest by sex or by age and reports each group's mean income,
   in ascending key order.

A missing cell (NaN in the source) is `Option.None`. Incomes and ages are
integers, and a mean is the `real` quotient of a group's income sum by its
row count. A group is computed as a sorted list of (key, total, count)
entries.

Modules:

- `Wrappers` (wrappers.dfy): `Option` and `Result`.
- `Cleaning` (cleaning.dfy): row types and per-column cleaning. Also
  `CleanedFrom`, a column-by-column description of a clean row.
- `Schema` (schema.dfy): the column rename. Also the error raised when a
  column the cleaning reads is absent.
- `Filtering` (filtering.dfy): the sidebar filter.
- `Grouping` (grouping.dfy): a group-by over (key, income) pairs with
  integer keys.
- `Dashboard` (dashboard.dfy): `dropna` and the two mean-income tables.
  Also `Charts`, the whole pipeline for one sidebar setting.
- `DashboardExamples` (examples.dfy): the worked examples, each reduced
  stage by stage.

Three behaviours of the code worth stating plainly:

- **Missing columns.** A file without a pass-through column still loads.
  The rename skips names that are absent, and only `sex`, `income` and
  `birth_year` are ever read (app.py lines 34, 38 and 42). So a file without
  the marital-status, religion, job or region column loads, while a file
  without one of the three read columns fails on the first one read.
  `Schema.CheckHeader` models this, and `Schema.PassthroughColumnsOptional`
  shows it.
- **Order of the by-sex table.** `groupby` sorts its keys, so female comes
  before male. `Dashboard.SexKey` encodes that order.
- **Stray sex codes.** Codes other than 1, 2 and 9 become missing, because
  the dictionary lookup on line 35 yields NaN.

## Model

| member | source | states |
|---|---|---|
| Cleaning.Blank | app.py:34-42 | blanking a sentinel never leaves it behind, and keeps every other cell unchanged |
| Cleaning.CleanSex | app.py:34-35 | the cleaned sex is male exactly for code 1 and female exactly for code 2; it is missing for 9, for every other code and for an empty cell |
| Cleaning.CleanIncome | app.py:38-39 | a cleaned income is never 0 or 9999; any other present income is kept unchanged |
| Cleaning.CleanBirthYear | app.py:42 | a cleaned birth year is never 9999; any other present year is kept unchanged |
| Cleaning.AgeFromBirthYear | app.py:43 | the age and the birth year always add up to the survey year plus one, so the birth year counts as age one |
| Cleaning.AgeBirthYearRoundTrip | app.py:43 | age and birth year determine each other: the derived age converts back to the birth year, and the reverse |
| Cleaning.AgeAntitone | app.py:43 | an earlier birth year gives a strictly greater age |
| Cleaning.AgeGroupOf | app.py:45-49 | the group is old iff age >= 60, middle iff 30 <= age < 60, and young iff age < 30 |
| Cleaning.AgeGroupsPartition | app.py:45-49 | every age lies in exactly one of the three age intervals, and it is the group that get_age_group returns |
| Cleaning.AgeGroupMonotone | app.py:45-49 | an older person is never put in a younger group |
| Cleaning.CleanRow | app.py:33-51 | a cleaned row meets every column rule; age is present iff birth year is, and the two add up to 2016; age group is present iff age is, and contains the age; the four pass-through columns are unchanged |
| Cleaning.CleanedFromDeterminesRow | app.py:33-51 | the column rules admit exactly one cleaned row per raw row |
| Cleaning.Clean | app.py:20-53 | cleaning keeps the number and order of rows and cleans each row by the column rules |
| Cleaning.CleanDistributes | app.py:20-53 | cleaning a concatenation of tables gives the concatenation of the cleaned tables, so rows never affect each other |
| Cleaning.CleanExample | app.py:33-51 | sex code 9, birth year 1980 and income 9999 give no sex, age 36, the middle group and no income |
| Schema.RenameWithHit | app.py:23-31 | a rename entry maps its source column to its new name, provided no earlier entry renames that column |
| Schema.RenamesDistinct | app.py:23-31 | the seven source columns are distinct, and so are their seven new names |
| Schema.RenameSource | app.py:23-31 | each of the seven source columns is renamed to its semantic name |
| Schema.RenameHeader | app.py:23-31 | the rename keeps the number and order of columns and renames each column on its own |
| Schema.CheckHeader | app.py:34-42 | loading succeeds iff sex, income and birth_year are present after the rename; otherwise the error names one of them that is absent, and every column read before it is present |
| Schema.PassthroughColumnsOptional | app.py:23-42 | a file with only the sex, birth-year and income source columns loads |
| Schema.MissingSexColumn | app.py:23-35 | a file without the sex source column fails, naming sex |
| Schema.LoadData | app.py:17-53 | loading fails exactly when a column that is read is absent, naming the first absent one in read order; otherwise it returns one cleaned row per input row |
| Filtering.Keep | app.py:74-78 | a row with a missing sex or age never passes, nor does any row when lo > hi; a row with both present passes iff its sex is selected and its age lies in lo..hi |
| Filtering.FilterRows | app.py:74-78 | the filtered table is an order-preserving subsequence of its input, and every row in it passes all three tests |
| Filtering.FilterCounts | app.py:74-78 | a row that passes occurs in the result as often as in the input; a row that fails does not occur |
| Filtering.FilterMembers | app.py:74-78 | a row is in the result iff it is in the input, its sex is present and selected, and its age is present and within lo..hi |
| Filtering.FilterKeepsPassingTable | app.py:74-78 | a table whose every row passes is returned unchanged |
| Filtering.FilterIdempotent | app.py:74-78 | filtering twice with the same selection gives the same result as filtering once |
| Filtering.FilterCompose | app.py:74-78 | two filters in a row equal one filter that intersects the sex selections and the age ranges |
| Filtering.FilterEmptySelection | app.py:74-78 | an empty sex selection, or lo > hi, yields an empty table |
| Grouping.Insert | app.py:88 | adding a pair to a strictly ascending list of non-empty groups keeps it strictly ascending and non-empty |
| Grouping.InsertFind | app.py:88 | adding a pair adds its value to its key's group, or opens a group of one; every other key's group is unchanged |
| Grouping.GroupBy | app.py:88 | the groups come out in strictly ascending key order, so there is at most one group per key, and none is empty |
| Grouping.GroupByFind | app.py:88 | a key has a group iff some pair carries it; that group holds the key's value sum and pair count |
| Grouping.GroupByGroups | app.py:88 | there is exactly one group per distinct key among the pairs, with that key's sum and count, in ascending key order |
| Grouping.CountForPositive | app.py:88 | a key has a positive count iff some pair carries it |
| Grouping.GroupByCountsAddUp | app.py:88 | the group counts add up to the number of pairs |
| Grouping.SumForBounds | app.py:88 | bounds on a key's values bound its sum by the count times the bounds |
| Grouping.AverageBounds | app.py:88 | a sum divided by its count stays within the bounds of its items |
| Grouping.MeanWithinBounds | app.py:88 | a group's mean lies within any bounds on its values, so it lies between its smallest and largest value |
| Dashboard.SexKey | app.py:88 | female gets the smaller of the two keys, as the label "female" sorts before "male" |
| Dashboard.SexKeyRoundTrip | app.py:88 | the integer key of a sex converts back to that sex |
| Dashboard.DropMissing | app.py:88 | dropna keeps an order-preserving subsequence: exactly the rows whose key and income are both present |
| Dashboard.DropMissingCounts | app.py:88 | a complete row occurs in the result as often as in the input, duplicates included; an incomplete row does not occur |
| Dashboard.DropMissingLength | app.py:88 | the result has as many rows as the input has rows with both the key and the income present |
| Dashboard.ContributionsAgree | app.py:88 | the pairs a grouping sees give each key the same income sum and row count as summing over the table directly |
| Dashboard.ContributionsMembers | app.py:88 | a pair is contributed iff some row carries that key and that income |
| Dashboard.MeanIncomeBy | app.py:88-99 | the table is in strictly ascending key order; a key appears iff some row has that key and an income; each line's mean is that key's income sum divided by its row count |
| Dashboard.GroupsOfTotals | app.py:88-99 | every group holds its key's income sum and row count over the table |
| Dashboard.GroupsOfKeys | app.py:88-99 | a key has a group iff some row carries it together with an income |
| Dashboard.BySexFacts | app.py:88 | the by-sex table lists female before male, has a line for a sex iff a row of that sex has an income, and each line holds that sex's mean income |
| Dashboard.IncomeBySex | app.py:88 | mean income by sex: female before male, one line per sex with at least one income, and each mean is sum divided by count |
| Dashboard.IncomeByAge | app.py:99 | mean income by age: ages strictly ascending, one line per age with at least one income, and each mean is sum divided by count |
| Dashboard.KeyedRowExists | app.py:88-99 | a key with a positive income count is carried by some row that has an income |
| Dashboard.GroupCountsAddUp | app.py:88-99 | the group sizes add up to the number of rows with both the key and the income present |
| Dashboard.MeanIncomeWithinBounds | app.py:88-99 | every mean in an output table lies within any bounds on the incomes of its group |
| Dashboard.FilteredSexSelected | app.py:74-88 | every sex in the by-sex table of a filtered table was selected |
| Dashboard.FilteredAgeInRange | app.py:74-99 | every age in the by-age table of a filtered table lies within lo..hi |
| Dashboard.Charts | app.py:62-101 | for one sidebar setting, both charts show only selected sexes and ages in the selected range |
| DashboardExamples.SampleFilterWide | app.py:74-78 | with both sexes and ages 25 to 45, all three sample rows pass |
| DashboardExamples.SampleBySex | app.py:88 | the sample's mean incomes are 1000 for female and 2500 for male, with female first |
| DashboardExamples.SampleBySexNarrow | app.py:74-88 | with ages 35 to 45 only male 3000 remains; the female group is absent rather than zero |
| DashboardExamples.UnknownSexRowExcluded | app.py:33-99 | the row with sex 9, birth year 1980 and income 9999 is dropped from both groupings |

## Left out

- Dashboard rendering (app.py:9, 56-71, 81-98): page setup, title, sidebar widgets, tabs, columns and messages are presentation only. So is `st.stop` after a failed load.
- Plotting and font setup (app.py:4-5, 12-13, 89-91, 100-102): these are calls into the charting libraries.
- File reading (app.py:19) and the catch-all `except` around loading (app.py:61-66): the table arrives as a header and a sequence of `RawRow` values. A file that cannot be read is not modelled.
- Memoisation of `load_data` (app.py:16): caching has no effect on the values.
- Slider bounds from the data's minimum and maximum age (app.py:71): `lo` and `hi` are parameters. The default range (20, 70) and the default selection of both sexes are UI settings.
- Floating point and dtypes: every value is an integer, and a mean is an exact rational number. Float rounding in pandas' `mean` and non-integer cell values are not modelled. Neither is the column becoming float once NaN appears.
- Duplicate column names: a file with both a source column and its semantic name (for example `h10_g3` and `sex`) would have two `sex` columns after the rename. The header model does not cover this case.
- Other columns: `RawRow` holds only the seven renamed columns. The other columns of the file pass through `load_data` untouched and are not represented.
