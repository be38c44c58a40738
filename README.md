# Dependent filter chain of the steps and sleep dashboards

The two Streamlit dashboards of this repository (`dashboard_steps.py` for
activity records and `dashboard_sleep.py` for sleep records) share one piece
of logic under their charts: a **dependent categorical filter chain**. A fixed,
ordered list of sidebar stages each reads one column. Each stage offers
`"All"` followed by the sorted, distinct, non-missing values of its column in
the table as narrowed by the earlier stages. A selection other than `"All"`
keeps only the rows whose column equals it. Around the chain sit a few small
derivations:

- the participant name column;
- the sleep dashboard's text age group;
- the steps dashboard's two-hour time slot;
- the photo shown for a selected physician or participant;
- the anomaly-type counts and the top-ten participants;
- the organization groups of the per-organization sleep charts.

This project models that logic in Dafny and proves what it guarantees.

| file | module | what it holds |
|---|---|---|
| `wrappers.dfy` | `Wrappers` | `Option` (a missing cell) and `Result` (an operation that can raise) |
| `lexicographic.dfy` | `Lexicographic` | Python's `<` on strings, and `sorted(set(xs))` |
| `text.dfy` | `Text` | the name join and `str.strip` for one character |
| `filters.dfy` | `Filters` | the generic filter chain: stages, options, narrowing, the chain as a function and as a loop |
| `photos.dfy` | `Photos` | the first-row photo pick |
| `counts.dfy` | `Counts` | `value_counts()` and `.head(n)` |
| `steps.dfy` | `StepsDashboard` | activity rows, the nine stages, time slots, anomaly and participant counts |
| `sleep.dfy` | `SleepDashboard` | sleep rows, the eight stages, the text age group, the organization groups |

Modelling choices:

- **Tables and cells.** A table is a `seq` of row datatypes. A categorical cell is an
  `Option<string>`, where `None` is a missing value. A stage is a column accessor
  paired with the viewer's selection.
- **"All" is a string.** The `"All"` sentinel is compared as a plain string, as the
  code does. A category literally named `"All"` therefore acts as no selection
  (`Filters.ApplyAllIsIdentity`).
- **The steps chain is a loop.** It rebinds `filtered_df` stage by stage, so it is
  modelled by the loop method `Filters.RunChain`.
- **The sleep chain is a function.** It is a sequence of conditional expressions, so
  it is modelled by the function `Filters.Pipeline`. Both are proved equal to the same
  reference definition `Filters.Select`.
- **Derived columns are methods.** The columns the scripts assign into the data frame
  in place are methods on a frame class that rewrite its `rows` field one row at a
  time.

Time slots follow `pd.cut` with its default right-closed bins
`(0,2], (2,4], …, (22,24]`: hour 8 falls in `"06-08"`, hour 9 in `"08-10"`,
and hour 0 gets no slot.

## Model

| member | source | states |
|---|---|---|
| Lexicographic.SortedDistinct | dashboard_steps.py:34 | `sorted(set(xs))`: strictly ascending in Python's string order, holding exactly the members of `xs`, no longer than `xs` |
| Lexicographic.AscendingUnique | dashboard_steps.py:34 | two strictly ascending lists with the same members are equal, so the option list is determined by the set of values |
| Text.JoinName | dashboard_steps.py:25 | the name is present exactly when both parts are, and is then the last name, one space, the first name |
| Text.Strip | dashboard_steps.py:135 | `strip("'")`: the result has no quote at either end, and the input is the result with a run of quotes before and after it |
| Text.StripUnquotes | dashboard_steps.py:135 | a quote-free-ended string wrapped in any number of quotes strips back to itself |
| Text.StripIdempotent | dashboard_steps.py:135 | stripping twice gives the same as stripping once |
| Text.StripEmpty | dashboard_steps.py:135-136 | stripping yields the empty (falsy) string exactly when the input is made only of quotes |
| Filters.Narrow | dashboard_steps.py:39 | the narrowed table is a subsequence of its input |
| Filters.NarrowRows | dashboard_steps.py:39 | narrowing keeps every row whose column equals the value, as often as the input holds it, and no other row |
| Filters.Values | dashboard_steps.py:34 | `dropna()`: one value per row whose cell is present |
| Filters.ValuesMembers | dashboard_steps.py:34 | a value is listed exactly when some row holds it |
| Filters.Categories | dashboard_steps.py:34 | the categories are strictly ascending, so free of duplicates |
| Filters.Options | dashboard_steps.py:34 | the option list is never empty and starts with "All" |
| Filters.OptionsContents | dashboard_steps.py:34 | after "All" the options are strictly ascending and are exactly the present values of the column; an empty table offers only "All" |
| Filters.ApplyAllIsIdentity | dashboard_steps.py:38-39 | a stage whose selection is "All" returns its input unchanged |
| Filters.ApplyStageKeepsPassing | dashboard_steps.py:38-39 | a stage returns a subsequence of its input holding exactly the rows that pass it, with their multiplicities |
| Filters.Select | dashboard_steps.py:37-80 | reference definition of the conjunction of all selections: a subsequence of the input with exactly the rows passing every stage |
| Filters.NarrowedIsConjunction | dashboard_steps.py:37-80 | after any number of stages the table is the reference selection by those stages |
| Filters.NarrowedShrinks | dashboard_steps.py:37-80 | each stage works on the table the previous one left, so a later stage's table is a subsequence of any earlier one's |
| Filters.PipelineIsConjunction | dashboard_steps.py:37-83 | the final table is the reference selection by all the stages |
| Filters.PipelineRows | dashboard_steps.py:37-83 | the final table is a subsequence of the input, and a row is in it exactly when it is in the input and satisfies every non-"All" selection |
| Filters.PipelineOrderIrrelevant | dashboard_steps.py:37-80 | running the stages in another order (two blocks swapped) gives the same final table |
| Filters.AllStagesKeep | dashboard_sleep.py:42-70 | stages that all select "All" return the input table itself |
| Filters.OfferedStageKeepsRows | dashboard_steps.py:34-39 | a stage whose selection was offered by a non-empty table keeps at least one row |
| Filters.OfferedKeepsRows | dashboard_steps.py:34-80 | with offered selections, a non-empty table stays non-empty after every stage |
| Filters.OfferedValueNeedsRows | dashboard_steps.py:34-80 | an offered selection other than "All" can only come from a non-empty input |
| Filters.OfferedNonEmpty | dashboard_steps.py:34-80 | with offered selections, the final table is non-empty when the input is non-empty or some selection is not "All" |
| Filters.RunChain | dashboard_steps.py:34-80 | the stage-by-stage loop returns the chain's final table and each stage's option list; when every selection is in its list, a non-empty input or a non-"All" selection leaves a row |
| Filters.OptionsListAt | dashboard_steps.py:34-78 | the option list recorded for stage `i` is the one computed on the table the earlier stages left |
| Filters.RecordedOptionsKeepRows | dashboard_steps.py:34-80 | selections drawn from the recorded option lists leave a non-empty final table under the same conditions |
| Filters.ValuesCountRows | dashboard_steps.py:250 | a value occurs among the present values once per row that holds it |
| Photos.PickPhoto | dashboard_steps.py:134-141 | an error exactly when the selection is not "All" and the table is empty; nothing for "All"; a shown photo is non-empty, quote-free at its ends, and is the first row's field with the quotes removed |
| Photos.PickPhotoHidden | dashboard_steps.py:135-136 | with a first row and a non-"All" selection, nothing is shown exactly when the field is missing or is only quotes |
| Photos.PickPhotoUnquotes | dashboard_steps.py:135 | a URL stored between single quotes is shown as the URL itself |
| Photos.OfferedPhotoIsSafe | dashboard_steps.py:134-141 | with offered selections, the first-row lookup after any stage's non-"All" selection never raises |
| Counts.BumpSpec | dashboard_steps.py:250 | counting one more occurrence raises that value's count and the total by one, leaves other counts alone, and adds the key if it is new |
| Counts.TallySpec | dashboard_steps.py:250 | the tally has one entry per distinct value, each with its number of occurrences and positive, and the counts add up to the number of values |
| Counts.TallyAccurate | dashboard_steps.py:250 | each tally entry's count is its key's number of occurrences |
| Counts.SortByCount | dashboard_steps.py:250 | the sorted counts are non-increasing, a permutation of the input entries, and have the same total |
| Counts.SortKeys | dashboard_steps.py:250 | sorting keeps the keys distinct and keeps the same keys |
| Counts.ValueCountsSpec | dashboard_steps.py:250 | `value_counts()`: non-increasing, each value once with its number of occurrences, keys exactly the values present, total equal to the number of values |
| Counts.Head | dashboard_steps.py:287 | `.head(n)`: a prefix of the list of length `n`, or the whole list when it is shorter |
| Counts.HeadIsTop | dashboard_steps.py:287 | the head of a sorted list is sorted and no entry after it counts more than an entry in it |
| Counts.HeadOfValueCounts | dashboard_steps.py:287 | the first `n` value counts are sorted, accurate, at most `n`, and every value left out occurs no more often than any listed one; a value is left out only when `n` are listed |
| StepsDashboard.ActivityFrame.AddParticipantNames | dashboard_steps.py:25 | every row gets its joined participant name; nothing else changes |
| StepsDashboard.NamedParticipantsOnly | dashboard_steps.py:77 | every participant option spells the last and first name of a row where both are present |
| StepsDashboard.TimeSlot | dashboard_steps.py:204-206 | an hour gets a slot exactly when it is present and in (0, 24] |
| StepsDashboard.TimeSlotBrackets | dashboard_steps.py:204-206 | the slot's label starts at an hour below `h` and at most two below it, that is the right-closed bin holding `h` |
| StepsDashboard.TimeSlotEdges | dashboard_steps.py:204-206 | 8 falls in "06-08", 9 in "08-10", 23 in "22-00"; hour 0 and a missing hour get no slot |
| StepsDashboard.ActivityFrame.AddTimeSlots | dashboard_steps.py:204 | every row gets the slot of its hour; nothing else changes |
| StepsDashboard.PassesActivityStages | dashboard_steps.py:37-80 | passing the nine stages is matching the nine selections column by column |
| StepsDashboard.StepsFilteredRows | dashboard_steps.py:34-83 | the filtered activity table is a subsequence of the input holding exactly the rows that match every non-"All" selection |
| StepsDashboard.StepsPhotosAreSafe | dashboard_steps.py:134-141 | with offered selections, neither the physician nor the participant photo lookup raises |
| StepsDashboard.AnomalyCountsSpec | dashboard_steps.py:250 | one entry per anomaly type present, counting that type's rows, most frequent first; the counts add up to the rows whose type is present |
| StepsDashboard.TopParticipantsSpec | dashboard_steps.py:287 | at most ten participants, most rows first, each with its row count; a participant left out has no more rows than any listed one, and one is left out only when ten are listed |
| SleepDashboard.SleepFrame.AddParticipantNames | dashboard_sleep.py:30 | every row gets its joined participant name; nothing else changes |
| SleepDashboard.SleepFrame.StringifyAgeGroups | dashboard_sleep.py:33 | every row's age group becomes text, "nan" where it was missing; nothing else changes |
| SleepDashboard.NoneMissing | dashboard_sleep.py:33 | a column with no missing cell has every row present |
| SleepDashboard.AgeGroupOptions | dashboard_sleep.py:33 | after the conversion no age group is dropped as missing, and "nan" is offered exactly when some raw age group was missing or was "nan" |
| SleepDashboard.PassesSleepStages | dashboard_sleep.py:41-70 | passing the eight stages is matching the eight selections column by column |
| SleepDashboard.SleepFilteredRows | dashboard_sleep.py:41-70 | the filtered sleep table is a subsequence of the input holding exactly the rows that match every non-"All" selection |
| SleepDashboard.SleepAllSelectsEverything | dashboard_sleep.py:42-70 | selecting "All" at all eight stages returns the table itself |
| SleepDashboard.SleepPhotosAreSafe | dashboard_sleep.py:74-84 | with offered selections, neither the physician nor the participant photo lookup raises |
| SleepDashboard.OrganizationGroupsSpec | dashboard_sleep.py:91 | one group per distinct present organization, ascending, each with at least one row, no more groups than rows with an organization |

## Left out

- **Streamlit and charts.** Streamlit widgets and layout, and all chart construction (plotly, seaborn, matplotlib), are user interface.
- **Selections.** The viewer's selections are parameters of the model. Streamlit's guarantee that a selection is one of the offered options is the `Offered` precondition of the non-emptiness lemmas.
- **I/O.** Loading the CSV and Excel files from the network, and the cache with its expiry, are I/O.
- **Parsing.** Lenient parsing with `pd.to_numeric` and `pd.to_datetime` is not modelled. It only produces the numeric and date columns, which the model does not use.
- **Float arithmetic.** This covers the sleep efficiency ratio and its rounding, and the means and sums drawn per organization, per date, per day of week and per (time slot, organization) cell.
  - Only the group keys of the per-organization views are modelled (`OrganizationGroups`).
  - The time-slot and day-of-week groupings of the heatmap and weekly charts are not.
- **Calendar calls.** `dt.hour` and `dt.day_name()` are calendar library calls. The hour reaches `TimeSlot` as an input, and the day of week is not modelled.
- **Anomalies per date.** The anomaly count per record date (dashboard_steps.py:274) needs dates, which are not modelled.
- **Commented-out code and navigation.** The commented-out alternative filter chain is not modelled, and neither is the page navigation in `app.py`.
- **Counts.ValueCounts tie order.** Among equal counts, the model orders entries by first appearance. pandas does not document this order, so no property depends on it.
- **Non-text cells.** Cells are modelled as text or missing. `strip` on a non-text photo cell would raise, and `astype(str)` on a numeric age group would produce its printed form (such as `"25.0"`); neither is modelled.
- **Aliasing.** The sleep chain returns the very same data frame object when "All" is selected. The model compares tables by value, so object identity is not captured.
