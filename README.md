# asthma_sro analysis core, modelled in Dafny

This project models the table logic of the asthma_sro analysis scripts. That logic runs on
measure tables the OpenSAFELY framework has already extracted. Five pieces are modelled:

- **Small-number redaction** (`redact_small_numbers` in `analysis/utilities.py`), and the
  recoding helpers, row filters and practice count from the same file.
  - The numerator and denominator columns are suppressed one after the other. The rate is
    then blanked in every row where a count is missing.
  - `Utilities.SuppressColumn` is the `while` loop of `suppress_column`. It is proved equal to
    the function `Utilities.Suppress`.
  - `Utilities.MeasureTable` is a class holding the three columns. Its method
    `RedactSmallNumbers` reassigns them, as the source assigns each column of the data frame.
- **Measure-shape inference and file recognition** (`analysis/group_charts.py`):
  - the measure id read from the file name;
  - the denominator column and the group-by columns;
  - dropping rows with a zero denominator;
  - the choice between one line and one line per group;
  - the name of the chart file.
- **Panel-plot selection and labelling** (`analysis/panel_plots.py`):
  - subset selection;
  - `autoselect_labels`;
  - panel titles and the figure title;
  - the ten-panel guard and the row count of the grid;
  - the excluded group;
  - the date-line range check, with its loop (`PanelPlots.AddDateLines`).
- **ehrQL logic** (`analysis/ehrQL_code/ehrql_measures_test2.py`):
  - `calculate_num_intervals`, as month arithmetic over a model of `strptime("%Y-%m-%d")`;
  - the `case`/`when` classifiers for the asthma register, the age band, the IMD decile and
    ethnicity.
  - `case`/`when` is modelled with ehrQL's three-valued logic. A null condition does not
    select its branch, and `&` is Kleene conjunction.
- **The standalone dataset definition** (`analysis/study_definition_ast_reg_EHRQL.py`). It
  uses the same classifiers, shared with the previous item. `StudyDefinition.DatasetRow`
  builds one patient's row from them.

Modules: `Tables` holds missing cells, results, boolean-mask row selection and
`Series.unique`. `Text` holds ASCII `\w`, `str.split`/`join`/`replace`/`title` and substring
search. `Utilities`, `GroupCharts`, `PanelPlots`, `Ehrql`, `MeasuresTest2` and
`StudyDefinition` each follow one source file. `Ehrql` holds what the two ehrQL files share.

Where the code and the behaviour a reader might expect (or its own comments) disagree, the
model follows the code:

- **Group-by columns.** They are every column before the last four (`columns[:-4]`), not every
  column before the denominator.
- **Suppression loop, values it blanks.** It blanks the smallest *remaining* value, which may
  exceed the threshold.
- **Suppression loop, failure.** It fails, rather than stopping, when no visible value is left
  while the running total is still at most the threshold.
- **Hard-coded replacement.** The values 0 to 5 are replaced whatever the threshold is. Hence
  idempotence and the suppression floor are proved for thresholds up to 5, and
  `Utilities.ThresholdAboveFive` shows both failing at 10.
- **Date lines.** `add_date_lines` converts each date outside its `try`, so a date that cannot
  be parsed raises. It is not skipped.

## Model

| member | source | states |
|---|---|---|
| Utilities.SuppressColumn | analysis/utilities.py:28-42 | the loop computes exactly `Suppress`: candidate sum first, the 0–5 replacement, then blanking the first minimum and adding it to the total while the total is at most n |
| Utilities.CandidateSum | analysis/utilities.py:29 | for non-negative counts the sum is non-negative, and 0 exactly when every visible value at most n is 0 |
| Utilities.ReplaceSmall | analysis/utilities.py:36 | only blanks cells; a cell is missing afterwards exactly when it was missing or held 0 to 5; no cell 0 to 5 is left |
| Utilities.Suppress | analysis/utilities.py:29-36 | no candidates (sum 0) leaves the column as it was, zeros included; success only blanks cells; with candidates no cell 0–5 stays visible |
| Utilities.BlankLoop | analysis/utilities.py:39-41 | on success the column has only lost cells and the running total plus what was hidden exceeds n |
| Utilities.BlankPasses | analysis/utilities.py:39-41 | the `while` loop computes exactly `BlankLoop` |
| Utilities.FirstMin | analysis/utilities.py:41 | `idxmin` finds no position exactly when every cell is missing, otherwise a visible position |
| Utilities.FirstMinIsIdxmin | analysis/utilities.py:40-41 | the position found holds the smallest visible value and is its first occurrence, so `min()` and `idxmin()` name the same cell |
| Utilities.BlankLoopStep | analysis/utilities.py:39-41 | one pass blanks the minimum, adds its value to the total and leaves one visible cell fewer |
| Utilities.BlankLoopEnds | analysis/utilities.py:39-41 | the loop ends with the column unchanged when the total exceeds n, and fails when no visible cell is left |
| Utilities.BlankLoopFails | analysis/utilities.py:39-41 | with non-negative counts the loop fails exactly when the total plus every visible value is at most n |
| Utilities.SuppressFails | analysis/utilities.py:28-42 | `suppress_column` fails exactly when there are candidates and hiding everything left cannot lift the total above n; at n = 5, when the visible values sum to at most 5 |
| Utilities.SuppressionFloor | analysis/utilities.py:29-41 | for n at most 5, when redaction changes a column the original values it hid sum to more than n |
| Utilities.RedactionIdempotent | analysis/utilities.py:29-41 | for n at most 5, redacting a redacted column changes nothing |
| Utilities.CandidatesAreHidden | analysis/utilities.py:29-36 | for n at most 5 every candidate is among the replaced values, so the candidates' sum is at most what the replacement hides |
| Utilities.NoCandidates | analysis/utilities.py:29-33 | a column whose visible values all exceed n has candidate sum 0 |
| Utilities.RedactionExampleSmall | analysis/utilities.py:28-42 | at n = 5, [0, 1, 2, 3, 8] becomes [missing ×4, 8] |
| Utilities.RedactionExampleNone | analysis/utilities.py:28-42 | at n = 5, [6, 7, 9] has no candidate and is returned as it was |
| Utilities.RedactionExampleLarger | analysis/utilities.py:28-42 | at n = 5, [1, 7, 9] loses the 1 and then the 7, keeping 9 |
| Utilities.RedactionExampleExhausted | analysis/utilities.py:28-42 | at n = 5, [1, 2] runs out of visible values and fails |
| Utilities.ThresholdAboveFive | analysis/utilities.py:36 | at n = 10 a hidden total of 5 survives one redaction and a second redaction hides more |
| Utilities.MeasureTable.RedactSmallNumbers | analysis/utilities.py:45-48 | numerator then denominator are each replaced by their suppression; the rate is masked where a count is missing; a failure leaves later columns untouched |
| Utilities.MaskRates | analysis/utilities.py:48 | same length; a rate is missing exactly when a count of its row or the rate itself is missing; with both counts present the rate is kept |
| Utilities.RateFollowsCounts | analysis/utilities.py:48 | after redaction a rate is missing exactly when a count of its row is missing or it already was; other rates are unchanged |
| Utilities.EthnicityLabel | analysis/utilities.py:61-62 | codes 1–5 become White, Mixed, Asian, Black, Other; 0 and missing become "unknown"; every other cell stays |
| Utilities.ConvertEthnicity | analysis/utilities.py:61-62 | every cell is relabelled and no missing cell or code 0–5 remains |
| Utilities.ConvertEthnicityIdempotent | analysis/utilities.py:61-62 | converting a converted column changes nothing |
| Utilities.BinaryLabel | analysis/utilities.py:78 | 0 becomes the negative label, 1 the positive one, anything else stays |
| Utilities.ConvertBinary | analysis/utilities.py:78-79 | the column is rewritten in place, each cell by its binary label |
| Utilities.BinaryLabelInjective | analysis/utilities.py:78 | with two different labels, 0 and 1 can be read back from their labels |
| Utilities.DropMissingDemographics | analysis/utilities.py:92 | exactly the rows with a known demographic, in order |
| Utilities.DropIrrelevantPractices | analysis/utilities.py:121-122 | exactly the rows whose practice has a row with a truthy value, in order |
| Utilities.GetNumberPractices | analysis/utilities.py:175 | the number of different practice values (missing counts once); zero only for an empty table |
| Tables.Filter | analysis/utilities.py:92 | boolean-mask selection keeps exactly the rows satisfying the mask, in order |
| Tables.Unique | analysis/utilities.py:175 | every value appears, nothing else does, no value twice, never longer than the input |
| Tables.UniqueCardinality | analysis/utilities.py:175 | `len(unique())` is the size of the set of values |
| GroupCharts.MeasureId | analysis/group_charts.py:12 | an id is a non-empty word and the name is prefix + id + ".csv" + anything; a name without the prefix has no id |
| GroupCharts.MeasureIdRoundTrip | analysis/group_charts.py:12 | any word id placed between the prefix and ".csv", followed by any text, is read back |
| GroupCharts.MeasureIds | analysis/group_charts.py:26-34 | non-matching names are skipped; the ids are those of the matching names, in order |
| GroupCharts.Denominator | analysis/group_charts.py:15-16 | defined exactly when there are at least 3 columns, and it is the third from last |
| GroupCharts.GroupBy | analysis/group_charts.py:21-22 | empty for at most four columns; otherwise followed by the last four it gives back the columns |
| GroupCharts.ColumnRoles | analysis/group_charts.py:15-22 | the columns are the group-by, then one column, the denominator and two more; with distinct names the denominator is not a group-by column |
| GroupCharts.MeasureAttributes | analysis/group_charts.py:27-38 | no measure for a non-matching name; an error only for a matching file with fewer than 3 columns; otherwise id, denominator and group-by as above |
| GroupCharts.DropZeroDenominatorRows | analysis/group_charts.py:43-45 | exactly the rows whose denominator is present and positive, in order, renumbered |
| GroupCharts.SingleLine | analysis/group_charts.py:77-80 | one line exactly when there is no group-by or the id contains "total" |
| GroupCharts.SingleLineExamples | analysis/group_charts.py:77-80 | a total measure with a group-by, a grouped measure, and a measure without group-by |
| GroupCharts.ChartFilename | analysis/group_charts.py:158-159 | "group_chart_", then the id, then ".png" |
| GroupCharts.ChartFilenameInjective | analysis/group_charts.py:158-159 | different ids give different file names |
| PanelPlots.SubsetTable | analysis/panel_plots.py:20-32 | with a pattern: fails exactly when no name matches, else keeps exactly the matching rows; without one: an absent or empty list keeps the table, else exactly the listed rows |
| PanelPlots.MatchedNames | analysis/panel_plots.py:26 | exactly the row names that match the pattern, in row order |
| PanelPlots.MatchedNamesMeaning | analysis/panel_plots.py:26-28 | a row's name is among the matched names exactly when it matches the pattern |
| PanelPlots.AutoselectLabels | analysis/panel_plots.py:61-67 | fails exactly for no names (nothing to concatenate); otherwise a word is returned exactly when its count over the words of the distinct names equals the number of distinct names |
| PanelPlots.CommonWords | analysis/panel_plots.py:61-67 | for names that repeat no word, a word is returned exactly when every name has it |
| PanelPlots.TokenCount | analysis/panel_plots.py:63-65 | for names that repeat no word, a word's count is the number of names containing it |
| PanelPlots.FilenameToTitle | analysis/panel_plots.py:85-86 | length kept, no "_" left, underscores become spaces, letters keep their identity, and a letter is upper-case exactly when it starts a run of letters |
| PanelPlots.FilenameToTitleIdempotent | analysis/panel_plots.py:85-86 | titling a title changes nothing |
| PanelPlots.KeptWords | analysis/panel_plots.py:79 | exactly the words of the name, split at "_", that are not repeated, in order; none holds "_" |
| PanelPlots.TranslateGroup | analysis/panel_plots.py:70-82 | without autolabel the title of the group; no "_" in any title; with autolabel never longer than the measure name |
| PanelPlots.TranslateGroupWords | analysis/panel_plots.py:77-80 | the autolabel, split at its spaces, is the kept words in order up to case; no kept word gives the empty title |
| PanelPlots.TranslateGroupCasing | analysis/panel_plots.py:78-80 | each letter of the autolabel is upper-case exactly when it starts a run of letters |
| PanelPlots.TranslateKeepsAllWords | analysis/panel_plots.py:77-80 | when no word of the name is repeated, the autolabel is the title of the name |
| PanelPlots.JoinSublistShorter | analysis/panel_plots.py:78-79 | joining a selection of the words with single spaces is no longer than joining all of them with one-character underscores |
| PanelPlots.KeptWordsShorter | analysis/panel_plots.py:78-79 | the kept words joined with spaces are no longer than the measure name |
| PanelPlots.PanelLayout | analysis/panel_plots.py:112-126 | the failures in the order the code meets them; success exactly for positive columns, some names and at most 10 panels, with the smallest row count that holds every panel |
| PanelPlots.CeilingRows | analysis/panel_plots.py:124-126 | floor division plus one on a remainder is the least row count whose grid holds the panels |
| PanelPlots.ExcludeGroup | analysis/panel_plots.py:138 | exactly the rows not in the excluded group, in order; every row when nothing is excluded |
| PanelPlots.DateLines | analysis/panel_plots.py:185-192 | no dates give no lines |
| PanelPlots.DateLinesMeaning | analysis/panel_plots.py:185-192 | fails exactly when some date does not parse, naming the first; otherwise a line at t exactly when some date parses to t within the inclusive range |
| PanelPlots.AddDateLines | analysis/panel_plots.py:185-192 | the loop computes exactly `DateLines` |
| Text.WordRun | analysis/group_charts.py:12 | the greedy `\w` run: a word prefix followed by a non-word character or the end |
| Text.WordRunOfWord | analysis/group_charts.py:12 | after a word and a non-word character the run is exactly the word |
| Text.Split | analysis/panel_plots.py:64 | at least one piece, and no piece holds the separator |
| Text.Join | analysis/panel_plots.py:78-79 | no parts give the empty string; one part is returned as it is |
| Text.JoinSplit | analysis/panel_plots.py:64 | joining a split with its separator gives back the string |
| Text.SplitJoin | analysis/panel_plots.py:64 | splitting a join of separator-free parts gives back the parts |
| Text.Replace | analysis/panel_plots.py:86 | same length; each occurrence of the character is replaced and every other character kept |
| Text.JoinSplitReplace | analysis/panel_plots.py:78-86 | splitting on "_" and joining with " " is replacing "_" by " " |
| Text.Title | analysis/panel_plots.py:86 | title case keeps the length (the casing rule is `Text.TitleCasing`) |
| Text.TitleCasing | analysis/panel_plots.py:86 | title case keeps each letter's identity and upper-cases exactly the first letter of each run of letters |
| Text.TitleIdempotent | analysis/panel_plots.py:86 | title-casing twice is title-casing once |
| Text.Contains | analysis/group_charts.py:79 | the substring test holds exactly when the pattern occurs at some position |
| Text.LowerAll | analysis/panel_plots.py:80 | same length, each character lower-cased |
| Text.SplitLower | analysis/panel_plots.py:80 | splitting at a non-letter commutes with lower-casing |
| Ehrql.And | analysis/ehrQL_code/ehrql_measures_test2.py:75-76 | true exactly when both are true, false exactly when either is false, null otherwise |
| Ehrql.Case | analysis/ehrQL_code/ehrql_measures_test2.py:74-78 | the result of the first branch whose condition is true, or the default |
| Ehrql.FirstTrue | analysis/ehrQL_code/ehrql_measures_test2.py:86-103 | the first true branch: no earlier branch is true |
| Ehrql.AsthmaRegister | analysis/ehrQL_code/ehrql_measures_test2.py:74-78 | 1 exactly when diagnosis and treatment exist and no resolution does, 0 otherwise |
| Ehrql.AgeBand | analysis/ehrQL_code/ehrql_measures_test2.py:86-103 | the band of the age by an independent decade definition, "NULL" when missing |
| Ehrql.NoBandBelowSix | analysis/ehrQL_code/ehrql_measures_test2.py:86-102 | an age has no band exactly when it is under 6 |
| Ehrql.AgeBandsPartition | analysis/ehrQL_code/ehrql_measures_test2.py:86-101 | no two band conditions hold together, and one holds exactly for known ages of 6 and over |
| Ehrql.AgeBandChosen | analysis/ehrQL_code/ehrql_measures_test2.py:86-103 | an age of 6 or over gets its decade band |
| Ehrql.ImdCut | analysis/ehrQL_code/ehrql_measures_test2.py:115-124 | the k-th cut is `32844 * k / 10` rounded down: ten times it is at most 32844 k and less than 32844 k + 10 |
| Ehrql.ImdCutValues | analysis/ehrQL_code/ehrql_measures_test2.py:115-124 | the cuts are 3284, 6568, 9853, 13137, 16422, 19706, 22990, 26275, 29559 |
| Ehrql.DecileExists | analysis/ehrQL_code/ehrql_measures_test2.py:115-124 | every non-negative value lies in some decile |
| Ehrql.DecileUnique | analysis/ehrQL_code/ehrql_measures_test2.py:115-124 | and in only one |
| Ehrql.DecileMonotone | analysis/ehrQL_code/ehrql_measures_test2.py:115-124 | the decile never decreases as the value rises |
| Ehrql.ImdBranch | analysis/ehrQL_code/ehrql_measures_test2.py:114-126 | a value in decile d takes branch d, first-match included |
| Ehrql.Imd10 | analysis/ehrQL_code/ehrql_measures_test2.py:113-126 | "unknown" when missing, "2" for a negative value, otherwise the label of its decile |
| Ehrql.Ethnicity | analysis/ehrQL_code/ehrql_measures_test2.py:131-139 | codes "1" to "6" give their groups, any other or no code "Unknown" |
| MeasuresTest2.MatchMonth | analysis/ehrQL_code/ehrql_measures_test2.py:28 | a matched `%m` field consumes at least one character within the string and is a month 1 to 12 |
| MeasuresTest2.MatchDay | analysis/ehrQL_code/ehrql_measures_test2.py:28 | a matched `%d` field consumes at least one character within the string and is a day 1 to 31 |
| MeasuresTest2.ParseDate | analysis/ehrQL_code/ehrql_measures_test2.py:28 | an accepted string is a real calendar date with a year of at most four digits; strings under 8 characters are refused |
| MeasuresTest2.ParseFormat | analysis/ehrQL_code/ehrql_measures_test2.py:28 | a valid date written as YYYY-MM-DD parses back to itself |
| MeasuresTest2.ParseDateSound | analysis/ehrQL_code/ehrql_measures_test2.py:28 | an accepted text is four year digits, a dash, a month of one or two digits, a dash and a day of one or two digits or a space and a digit, spelling the date returned |
| MeasuresTest2.ParseDateComplete | analysis/ehrQL_code/ehrql_measures_test2.py:28 | every text that spells a calendar date in those forms is accepted, giving that date |
| MeasuresTest2.ParseDateExactly | analysis/ehrQL_code/ehrql_measures_test2.py:28 | `strptime` gives a date exactly when the text spells that date and it is a calendar date |
| MeasuresTest2.ParseDateAccepts | analysis/ehrQL_code/ehrql_measures_test2.py:28-32 | the study start, single-digit fields and a leap day parse |
| MeasuresTest2.ParseDateRefuses | analysis/ehrQL_code/ehrql_measures_test2.py:28 | a missing leap day, month 13, trailing text, year 0 and a two-digit year are refused, each with its error |
| MeasuresTest2.AddMonths | analysis/ehrQL_code/ehrql_measures_test2.py:34 | adding k months moves the month index by exactly k |
| MeasuresTest2.CalculateNumIntervals | analysis/ehrQL_code/ehrql_measures_test2.py:17-30 | fails exactly when the start does not parse; otherwise the months from the start month to the current month |
| MeasuresTest2.IntervalsReachNow | analysis/ehrQL_code/ehrql_measures_test2.py:25-30 | the start month plus the result is the current month; 0 exactly in the same month; negative exactly for a later start |
| MeasuresTest2.DayIgnored | analysis/ehrQL_code/ehrql_measures_test2.py:26-28 | two starts in the same month give the same count |
| MeasuresTest2.MonthIndexInjective | analysis/ehrQL_code/ehrql_measures_test2.py:28 | different months of the calendar have different indices |
| MeasuresTest2.MonthIndexOrder | analysis/ehrQL_code/ehrql_measures_test2.py:28 | month indices follow calendar order |
| MeasuresTest2.IntervalsExample | analysis/ehrQL_code/ehrql_measures_test2.py:32-33 | from 2019-03-31 to April 2023 is 49; a start in the current month is 0; "31/03/2019" fails |
| StudyDefinition.OldEnough | analysis/study_definition_ast_reg_EHRQL.py:35 | the population condition holds exactly when the age a year after index is known and at least 6 |
| StudyDefinition.DatasetRow | analysis/study_definition_ast_reg_EHRQL.py:46-137 | band, decile, ethnicity group and register as the classifiers state; sex, region, practice, learning disability and care home passed through |
| StudyDefinition.UnbandedMembers | analysis/study_definition_ast_reg_EHRQL.py:35-56 | for a member whose age rises by one over the year, the band is "NULL" exactly when the age at index is 5 |
| StudyDefinition.BandedWhenAgeSteady | analysis/study_definition_ast_reg_EHRQL.py:35-56 | a member whose age does not change over the year always has a band |

## Left out

- Reading CSV files, globbing input paths, argument parsing, drawing and saving figures, and
  the `date` column. These are I/O or plotting. Tables are passed in as sequences of rows or
  columns.
- `calculate_rate`, the confidence intervals of `plot_cis`, the ×100 and ×1000 tick
  formatters, and `get_percentage_practices`. They are floating-point arithmetic;
  `get_percentage_practices` also lists a directory. The rate column is an opaque `R`.
- The cohortextractor study definitions, the codelist files and `config.py`. They are query
  text or constants for external engines. The threshold, dates and demographics are
  parameters.
- Utilities.SuppressColumn: the loop lives in `Utilities.BlankPasses`, whose working column is
  a local sequence reassigned on every pass.
  It is not a Series updated in place, so aliasing of the caller's column is not modelled.
  `idxmin` is read as a position, which holds for the 0..k-1 index of a CSV-loaded table.
- Integer counts only. A column read with missing cells is a float column in pandas; the
  model keeps the integer values and models the missing cells as `None`.
- The ehrQL population predicates other than the age condition: sex, date of death and
  registration. They are queries on tables of the external engine. The query behind each input
  is also left out: age, IMD, ethnicity code and the three `exists_for_patient` flags are
  fields of the input.
- `datetime.now()`. The current date is a parameter of `MeasuresTest2.CalculateNumIntervals`.
- `fnmatch.filter` and glob matching. Both are abstract predicates passed in.
- `MEASURE_FNAME_REGEX`, `str.title` and `%Y`/`%m`/`%d` digits over Unicode. `\w`, title case
  and digits are modelled over ASCII only.
- PanelPlots.TranslateGroup: the group variable `get_group_chart` passes, `category[0]`. On
  the date-indexed panel an integer key is not a row label: pandas 1.x and 2.x fall back to
  the first position (with a deprecation warning), and pandas 3 raises `KeyError`. The
  argument is evaluated before the call even though autolabel then ignores it. It is not
  modelled, because that call always sets autolabel.
- The iteration order of `groupby("name")`. It sorts the names; only their number and the
  labels are modelled.
- The `measures_list` call made by `main`. `--measures-list` is declared without `nargs`
  (analysis/panel_plots.py:208-211), so `main` passes a single string, and `Series.isin` at
  analysis/panel_plots.py:32 raises `TypeError` on a string. `PanelPlots.SubsetTable` models
  only a call with a list.
- PanelPlots.AutoselectLabels: it returns the set of the repeated words, not the list in
  `Counter` order. Membership is all the callers use.
- Utilities.SuppressionFloor: proved only for thresholds up to 5. Above 5 the hard-coded
  replacement breaks it, as `Utilities.ThresholdAboveFive` shows.
- Utilities.RedactionIdempotent: proved only for thresholds up to 5, for the same reason.
- A smallest possible set of suppressed cells. The code blanks all cells 0 to 5 at once, so no
  minimality holds of it and none is stated.

