# TalentPitch metrics pipeline — a Dafny model

This project models the data core of the TalentPitch metrics pipeline. The pipeline has four parts:

- **Loader.** Reads one CSV file per entity in schema order: flows, users, resumes, resumes_exhibited, votes, shares, views, profiles. Each table is staged raw in the record set and cleaned by the validation pipeline before it is stored.
- **Validation pipeline.** Four stages run in order: unique emails, required fields, identity keys, foreign keys.
- **Metrics engine.** Computes twelve per-flow, per-band, per-skill and per-period tables from the record set.
- **Reporting layer.** Builds the KPI table of the report, the analysed-period paragraph and the sectioned CSV report.

How the source's constructs are represented:

- **Tables.** A table is a set of columns and a sequence of rows. A row maps column names to cell values, and a missing cell reads as null. A cell value is null, an integer, a string or a parsed date.
- **Errors.** An exception the source lets propagate becomes an `Err` of a `Result`: `KeyError` on a missing column or table, and `ValueError` from `astype(int)`.
- **Imperative code.** It keeps its imperative form:
  - the loader loop and the foreign-key loop are `while` loops proved against their specification functions;
  - `get_all_metrics_as_dict` updates a `DataStore` class in place;
  - `create_csv_report` appends to a `TextFile` class.
- **Outside inputs become parameters.** Three things are not computed by the model and are passed in instead:
  - the current year;
  - the date parser standing for `pd.to_datetime(..., errors="coerce")`;
  - the renderer standing for `DataFrame.to_csv`.

Modules, one per file:

| module | file | role |
|---|---|---|
| `Common` | `common.dfy` | shared wrappers |
| `Tables` | `tables.dfy` | cell values, their order, row selection |
| `Calendar` | `calendar.dfy` | civil dates, `%U` weeks, "YYYY-MM" keys |
| `Sequences` | `sequences.dfy` | deduplication and stable sorting by a key |
| `Grouping` | `grouping.dfy` | `groupby(...).count/sum/nunique()` |
| `Schemas` | `schemas.dfy` | the schema dictionaries |
| `Validators` | `validators.dfy` | the four validation stages |
| `Loader` | `loader.dfy` | reading and loading |
| `Skills` | `skills.dfy` | the skills decoder of `top_skills` |
| `Metrics` | `metrics.dfy` | the metrics engine |
| `Reports` | `reports.dfy` | KPI table and period line |
| `CsvReports` | `csvreport.dfy` | the CSV report |

Behaviour of the code worth knowing; the model follows the code in each case:

- **`sort_values` is not stable.** The id stage sorts by `created_at` "to preserve most recent duplicates" (src/utils/validators.py:61). It uses pandas' default quicksort, which does not keep ties in their input order. The model sorts stably. What it proves about ordering and "latest row wins" holds for every way of breaking ties: the output is sorted and each survivor has a maximal `created_at`.
- **Months with an unreadable date.** An exhibition whose date does not parse is not dropped from the monthly metric. `to_period("M").astype(str)` labels it with the string "NaT", which forms a group of its own that sorts last. The period paragraph then ends at "NaT" (`Metrics.MonthNaT`, `Reports.PeriodOfMonths`). Unreadable dates are dropped only from the weekly metric, whose `strftime` label is null.
- **Unreadable files abort the load.** The docstring of `read_file` (src/ingestion/loader.py:12-13) promises an empty DataFrame instead of an exception. That frame has no columns, so the required-fields stage raises `KeyError` on it and the whole load aborts (`Loader.ReadFailureAborts`).
- **Ids are not always unique after the id stage.** Ids are deduplicated before they are cast to integers, so the text ids "1" and "01" both survive and become two rows with id 1 (`Validators.IdStageTextIdsCollide`). Uniqueness and idempotence are proved for inputs whose ids are already integers.
- **`group_by_age` writes into the caller's table.** It rewrites the caller's users table (`birth_date` coerced, `age` added), and that write stays even if a later metric fails (`Metrics.GetAllMetricsAsDict`).
- **The CSV filename argument is ignored.** `create_csv_report` always writes "metrics_report.csv", whatever `filename` says (`CsvReports.CreateCsvReport`).

## Model

| member | source | states |
|---|---|---|
| Schemas.Position | src/utils/schemas.py:3-50 | every entity has a position in the declaration order of the file schema, and that position holds it |
| Schemas.NameInjective | src/utils/schemas.py:3-50 | two entities have the same table name exactly when they are the same entity |
| Schemas.EntitiesDistinct | src/utils/schemas.py:3-50 | the schema lists each of the eight entities exactly once |
| Schemas.ForeignKeysAreRequired | src/utils/schemas.py:52-71 | every foreign-key column of an entity is also one of its required columns |
| Schemas.ForeignKeysPointBackwards | src/utils/schemas.py:52-71 | every referenced entity comes before the referencing entity in loading order |
| Schemas.UsersAndFlowsHaveNoForeignKeys | src/utils/schemas.py:52-71 | users and flows have no foreign-key entry |
| Schemas.IdAndCreatedAtColumns | src/utils/schemas.py:3-50 | every entity but profiles requires `id` and `created_at`; profiles requires neither |
| Schemas.PersistedEntities | src/utils/schemas.py:73-81 | the persisted tables are the declared ones in the same order, minus shares |
| Tables.ColumnValues | src/utils/validators.py:134-136 | the set of values of a column holds exactly the cells of that column |
| Tables.LessIsStrictOrder | src/utils/validators.py:88 | the value order used for sorting and group keys is irreflexive and transitive |
| Tables.LessTotal | src/utils/validators.py:88 | any two distinct values are ordered one way or the other |
| Tables.IntToStringRoundTrip | src/reporting/resports.py:64 | reading back the decimal text of an integer flow id gives the integer |
| Tables.FilterRowsSubseq | src/utils/validators.py:136 | a boolean-mask selection keeps rows in order, and keeps exactly the rows satisfying the mask |
| Tables.FilterRowsAll | src/utils/validators.py:136 | a mask every row satisfies keeps the table unchanged |
| Sequences.KeepFirstKeys | src/utils/validators.py:27 | `drop_duplicates` (keep first) keeps exactly the keys of the input that were not already seen |
| Sequences.KeepFirstDistinctKeys | src/utils/validators.py:27 | after keep-first deduplication no two elements share a key |
| Sequences.KeepFirstKeepsFirst | src/utils/validators.py:27 | the first occurrence of every key survives keep-first deduplication |
| Sequences.KeepFirstAll | src/utils/validators.py:27 | a sequence with distinct keys is not changed by keep-first deduplication |
| Sequences.KeepLastKeys | src/utils/validators.py:90 | `drop_duplicates(keep="last")` keeps exactly the keys of the input |
| Sequences.KeepLastDistinctKeys | src/utils/validators.py:90 | after keep-last deduplication no two elements share a key |
| Sequences.KeepLastKeepsLast | src/utils/validators.py:90 | the last occurrence of every key survives keep-last deduplication |
| Sequences.KeepLastAll | src/utils/validators.py:90 | a sequence with distinct keys is not changed by keep-last deduplication |
| Sequences.SortBy | src/utils/validators.py:88 | sorting yields a permutation of its input |
| Sequences.SortBySorted | src/utils/validators.py:88 | for a strict order, the sorted output is ordered by the key |
| Sequences.SortByIdentity | src/utils/validators.py:88 | an already sorted sequence is unchanged by sorting |
| Sequences.KeepLastLatest | src/utils/validators.py:88-90 | on a sorted sequence, each element kept by keep-last deduplication has a key no smaller than any element sharing its dedup key |
| Grouping.Partition | src/processing/metrics.py:40 | per-key totals over distinct keys add up to the total over those keys |
| Grouping.GroupKeysSpec | src/processing/metrics.py:40 | the group keys are strictly ascending and are exactly the non-null keys of the rows |
| Grouping.GroupBy | src/processing/metrics.py:40 | grouping fails exactly when the key column or the aggregated column is missing, naming the key column first |
| Grouping.GroupAggSpec | src/processing/metrics.py:40 | one group per distinct non-null key, in ascending order, each with the aggregate (count, sum or nunique) of its own rows |
| Grouping.GroupTotal | src/processing/metrics.py:40 | count groups add up to the non-null values of the column in rows with a non-null key; sum groups add up to their total |
| Grouping.DistinctAtMostCount | src/processing/metrics.py:92 | when another column is never null, a group has no more distinct values than rows: `nunique` never exceeds `count` |
| Validators.EmailStage | src/utils/validators.py:23-28 | the email stage keeps the columns |
| Validators.EmailStageSpec | src/utils/validators.py:23-28 | without `email` the table is unchanged. With it, rows keep their order, emails become distinct, every email is still present and its first row survives |
| Validators.EmailStageUnique | src/utils/validators.py:23-27 | a table with distinct emails passes unchanged |
| Validators.FirstMissing | src/utils/validators.py:46 | the first missing required column is found exactly when some required column is absent, and it is absent |
| Validators.RequiredStageSpec | src/utils/validators.py:46-51 | the stage fails exactly when a required column is absent. Otherwise it keeps, in order, exactly the rows without a null required field |
| Validators.RequiredStageComplete | src/utils/validators.py:46-51 | a table with every required column and no null required field passes unchanged |
| Validators.CastIds | src/utils/validators.py:91 | `astype(int)` succeeds exactly when every id converts. On success it casts each row's id, position by position; on failure it names an id that does not convert |
| Validators.SurvivorsSpec | src/utils/validators.py:81-90 | the survivors are valid-id input rows, one per id, in `created_at` order, covering every valid id, each a latest row of its id |
| Validators.SurvivorsFrom | src/utils/validators.py:81-90 | survivors are input rows with a valid id, each taken at most as often as it occurs |
| Validators.SurvivorsDistinctSorted | src/utils/validators.py:88-90 | survivors have distinct ids and are sorted by `created_at` |
| Validators.SurvivorsCover | src/utils/validators.py:81-90 | every valid id of the input has a survivor |
| Validators.SurvivorsLatest | src/utils/validators.py:88-90 | no valid input row with a survivor's id has a later `created_at` than the survivor |
| Validators.IdStageOutcome | src/utils/validators.py:74-91 | the outcome has three cases: <br>• without `id`, the table passes unchanged; <br>• with `id` but no `created_at`, the stage raises; <br>• otherwise it fails exactly when a valid id does not convert to an integer |
| Validators.IdStageRows | src/utils/validators.py:88-91 | on success the output is the survivors with ids cast, position by position, and the columns are kept |
| Validators.IdStageKeepsLatest | src/utils/validators.py:81-91 | every output row is an input row with a valid id, with the id cast, and it has the latest `created_at` among the rows sharing its raw id |
| Validators.IdStageSorted | src/utils/validators.py:88-91 | on success the output is sorted by `created_at` and every id is an integer |
| Validators.CastKeepsOtherCells | src/utils/validators.py:91 | casting the id leaves every other cell alone |
| Validators.IdStageCoversIds | src/utils/validators.py:81-91 | on success every valid input id converts, and its integer is an output id |
| Validators.CastIdsIdentity | src/utils/validators.py:91 | rows whose ids are already integers are unchanged by the cast |
| Validators.IdStageIntIds | src/utils/validators.py:81-91 | when the valid input ids are integers, the stage only removes rows, and the ids it keeps are distinct |
| Validators.IdStageStable | src/utils/validators.py:74-100 | a table whose ids are distinct integers, already in `created_at` order, passes unchanged |
| Validators.TextIdsFiltered | src/utils/validators.py:81 | the ids "1" and "01" both pass the null/empty filter |
| Validators.TextIdsSorted | src/utils/validators.py:88 | the two rows are already in `created_at` order |
| Validators.TextIdsKept | src/utils/validators.py:90 | deduplication by raw id keeps both rows |
| Validators.TextIdsParsed | src/utils/validators.py:91 | both ids cast to the integer 1 |
| Validators.IdStageTextIdsCollide | src/utils/validators.py:88-91 | the stage succeeds on these two rows, keeps both, and their ids are not distinct |
| Validators.ForeignKeyFoldSpec | src/utils/validators.py:125-144 | the loop fails exactly when a present foreign-key column refers to a missing table or key column. Otherwise it keeps, in order, exactly the rows whose present keys all resolve |
| Validators.ReferencesTail | src/utils/validators.py:125-136 | resolving a list of keys is resolving the first key and then the rest |
| Validators.ForeignKeyFoldKeepsAll | src/utils/validators.py:125-144 | when every key resolves and every row's references exist, the table is unchanged |
| Validators.ValidateForeignKeys | src/utils/validators.py:122-144 | the loop that narrows the table key by key returns what the stage's specification function does |
| Validators.CompleteValidations | src/utils/validators.py:171-175 | the four stages in order return what the pipeline's specification function does, stopping at the first error |
| Validators.IdStageKeepsComplete | src/utils/validators.py:81-91 | the id stage keeps rows complete in their required fields |
| Validators.IdStageKeepsEmailsDistinct | src/utils/validators.py:88-91 | the id stage never makes two rows share an email |
| Validators.ValidatedSteps | src/utils/validators.py:171-175 | a successful run passes through a successful required-fields stage, then a successful id stage, then the foreign-key stage |
| Validators.ForeignKeyStageSpec | src/utils/validators.py:122-144 | the foreign-key stage keeps columns and row order. With declared keys, every key was checkable, and a row stays exactly when its present keys resolve |
| Validators.ValidatedComplete | src/utils/validators.py:171-175 | after a successful run, the columns are kept, every required field exists, and no required field is null |
| Validators.ValidatedEmails | src/utils/validators.py:171-175 | after a successful run on a table with `email`, emails are distinct |
| Validators.ValidatedIds | src/utils/validators.py:171-175 | after a successful run on a table with `id`, rows are in `created_at` order with integer ids |
| Validators.ValidatedReferences | src/utils/validators.py:171-175 | after a successful run, every present foreign key of every row resolves in the record set |
| Validators.ValidatedSpec | src/utils/validators.py:171-175 | everything a successful run guarantees, stated together |
| Validators.ValidatedIntIds | src/utils/validators.py:171-175 | with integer input ids, a successful run only removes rows and keeps ids distinct |
| Validators.ValidatedIdempotent | src/utils/validators.py:171-175 | with integer input ids, validating the output again changes nothing |
| Loader.LoadData | src/ingestion/loader.py:42-60 | the loop over the schema returns what the load's specification function does. Each existing file is staged raw, then validated, then stored |
| Loader.LoadFromAppend | src/ingestion/loader.py:44-58 | loading two runs of entities is loading the first, then the second from its result |
| Loader.LoadFromKeys | src/ingestion/loader.py:44-58 | a successful load adds exactly the names of the entities whose file exists |
| Loader.LoadFromKeeps | src/ingestion/loader.py:44-58 | tables whose names later entities do not use keep their value |
| Loader.LoadSplitAt | src/ingestion/loader.py:44-58 | the full load splits at any entity into the part before it and the rest |
| Loader.LoadedKeys | src/ingestion/loader.py:42-60 | a successful load holds exactly one table per existing file |
| Loader.BeforeKeys | src/ingestion/loader.py:44-58 | when the load succeeds, the part before any entity succeeds too and holds the existing files before it |
| Loader.LoadFromStep | src/ingestion/loader.py:47-56 | one step: the raw table is staged under its name and validated against that record set; an error stops the load |
| Loader.LoadedTableValidated | src/ingestion/loader.py:49-56 | the stored table is the raw file validated against the tables loaded before it, plus itself staged raw |
| Loader.ValidatedNeedsReferencedTables | src/utils/validators.py:132 | validation succeeds only when every table named by a declared foreign key is in the record set |
| Loader.MissingReferenceAborts | src/ingestion/loader.py:44-56 | when a table's file exists but the file of a table it references does not, the load fails |
| Loader.ResumesNeedUsers | src/ingestion/loader.py:44-56 | resumes without users cannot be loaded |
| Loader.ReadFailureAborts | src/ingestion/loader.py:21-25 | a file that exists but cannot be parsed makes the load fail |
| Calendar.Jan1WeekdayAdvances | src/processing/metrics.py:244 | the weekday of 1 January advances by the length of the year, mod 7 |
| Calendar.Jan1WeekdayAnchors | src/processing/metrics.py:244 | 1 January 2023 was a Sunday and 1 January 2025 a Wednesday |
| Calendar.WeekNumberBySundays | src/processing/metrics.py:244 | `%U` is 0 before the year's first Sunday, and otherwise counts the Sundays up to the date |
| Calendar.WeekNumberRange | src/processing/metrics.py:244 | `%U` lies in 0..53 |
| Calendar.WeekZeroBeforeFirstSunday | src/processing/metrics.py:244 | week 00 holds exactly the days before the first Sunday |
| Calendar.Pad2Read | src/processing/metrics.py:222 | a two-digit zero-padded number reads back as itself |
| Calendar.Pad4Read | src/processing/metrics.py:222 | a four-digit zero-padded number reads back as itself |
| Calendar.MonthKey | src/processing/metrics.py:222 | a month key is seven characters with a dash after the year |
| Calendar.WeekKey | src/processing/metrics.py:244 | a week key is eight characters "YYYY-Www" |
| Calendar.MonthKeyRoundTrip | src/processing/metrics.py:222 | the month key reads back as the date's year and month |
| Calendar.WeekKeyRoundTrip | src/processing/metrics.py:244 | the week key reads back as the date's year and `%U` week |
| Calendar.MonthKeyInjective | src/processing/metrics.py:222 | two dates share a month group exactly when they share year and month |
| Calendar.WeekKeyInjective | src/processing/metrics.py:244 | two dates share a week group exactly when they share year and week |
| Skills.Remove | src/processing/metrics.py:194-196 | `replace(c, "")` removes every `c` and keeps every other character with its count |
| Skills.Clean | src/processing/metrics.py:192-197 | the cleaned text has no brackets or quotes and keeps every comma |
| Skills.Split | src/processing/metrics.py:198 | splitting on commas gives one more piece than there are commas, and no piece contains one |
| Skills.SplitJoin | src/processing/metrics.py:198 | joining the pieces with the separator gives the string back |
| Skills.JoinSplit | src/processing/metrics.py:198 | splitting joined separator-free pieces gives the pieces back |
| Skills.StripLeft | src/processing/metrics.py:200 | `lstrip` removes exactly the leading whitespace and keeps a suffix |
| Skills.StripRight | src/processing/metrics.py:200 | `rstrip` removes exactly the trailing whitespace and keeps a prefix |
| Skills.Strip | src/processing/metrics.py:200 | `strip` leaves no whitespace at either end and only characters of the input |
| Skills.StripSlice | src/processing/metrics.py:200 | `strip` keeps a contiguous middle part, and what it cuts off is whitespace |
| Skills.Lower | src/processing/metrics.py:200 | `lower` keeps the length, maps each ASCII capital to its small letter and keeps every other character |
| Skills.Tokens | src/processing/metrics.py:200 | one token per piece |
| Skills.Column | src/processing/metrics.py:193 | the column's cells, one per row, in order |
| Skills.TokenWellFormed | src/processing/metrics.py:192-200 | a trimmed, lower-cased piece has no bracket, quote or comma, no edge whitespace and no capital |
| Skills.ExplodeWellFormed | src/processing/metrics.py:192-200 | every exploded token of the column is well formed |
| Skills.ExplodeLength | src/processing/metrics.py:198-199 | the exploded column has one token per piece: one more than the commas of each text cell |
| Skills.TopSkills | src/processing/metrics.py:180-204 | `top_skills` fails exactly when `skills` is missing |
| Skills.TallyAt | src/processing/metrics.py:202 | the tally has one entry per distinct token, with that token's count |
| Skills.SumCountsSort | src/processing/metrics.py:202 | sorting the tally keeps the total of the counts |
| Skills.ValueCountsOrder | src/processing/metrics.py:202 | `value_counts` lists the most frequent tokens first |
| Skills.ValueCountsRows | src/processing/metrics.py:202 | one row per distinct token, with its positive count, covering every token |
| Skills.ValueCountsDistinct | src/processing/metrics.py:202 | no token is listed twice |
| Skills.ValueCountsCounts | src/processing/metrics.py:202 | each row is a token of the input with its positive count |
| Skills.ValueCountsCover | src/processing/metrics.py:202 | every token of the input has a row |
| Skills.ValueCountsTotal | src/processing/metrics.py:202 | the counts add up to the number of tokens |
| Skills.TopSkillsSpec | src/processing/metrics.py:180-204 | `top_skills` gives distinct well-formed skills, most frequent first, each with its count. The counts add up to the pieces of the text cells |
| Metrics.ApplicationTotal | src/processing/metrics.py:39-45 | `application_total` succeeds exactly when `model_id` and `id` exist |
| Metrics.TotalVotes | src/processing/metrics.py:58-62 | `total_votes` succeeds exactly when `model_id` and `value` exist |
| Metrics.TotalShared | src/processing/metrics.py:75-79 | `total_shared` succeeds exactly when `model_id` and `id` exist |
| Metrics.UniqueViews | src/processing/metrics.py:92-96 | `unique_views` succeeds exactly when `model_id` and `user_id` exist |
| Metrics.TotalViews | src/processing/metrics.py:109-113 | `total_views` succeeds exactly when `model_id` and `id` exist |
| Metrics.GroupByGender | src/processing/metrics.py:126-128 | `group_by_gender` succeeds exactly when `gender` and `id` exist |
| Metrics.TotalVotesSum | src/processing/metrics.py:58 | the votes of all flows add up to the votes of every row that names a flow |
| Metrics.UniqueViewsBounded | src/processing/metrics.py:92-113 | unique and total views list the same flows in the same order. When every view has an `id`, distinct viewers never exceed views |
| Metrics.UniqueParticipants | src/processing/metrics.py:14-26 | `unique_participants` succeeds only when both tables are in the record set |
| Metrics.LeftJoinValues | src/processing/metrics.py:17-21 | after the left join, a flow's users are the users of the resumes its exhibitions point to |
| Metrics.LeftJoinKeys | src/processing/metrics.py:17-19 | a left join has exactly the keys of its left rows |
| Metrics.ParticipantsSpec | src/processing/metrics.py:14-26 | one row per flow named by an exhibition, ascending, counting the distinct users of the resumes that flow's exhibitions point to |
| Metrics.WithAge | src/processing/metrics.py:144-145 | the age is the current year minus the birth year, and is null exactly when the birth date does not parse |
| Metrics.AgedRowsSpec | src/processing/metrics.py:144-145 | the rewrite coerces `birth_date`, keeps the other columns and the user order |
| Metrics.GroupByAge | src/processing/metrics.py:143-157 | `group_by_age` fails exactly when `birth_date` is missing. It gives four non-negative counts under the labels "<18", "18-25", "26-55", "56+" |
| Metrics.BornInBand | src/processing/metrics.py:147-150 | a band never counts more users than there are |
| Metrics.CountAgedBorn | src/processing/metrics.py:147-150 | counting ages on the rewritten rows equals counting birth years on the input rows |
| Metrics.AgeBands | src/processing/metrics.py:147-150 | each band counts the users whose parsed birth year gives an age in it |
| Metrics.BandsPartition | src/processing/metrics.py:147-150 | the four bands neither overlap nor leave gaps above 0 |
| Metrics.AgeTotal | src/processing/metrics.py:147-150 | the bands together count every user with a readable birth date that is not in a later year, so never more than all users |
| Metrics.BornAllOrNone | src/processing/metrics.py:147-150 | a band that holds every user counts them all; one that holds none counts zero |
| Metrics.StampDate | src/processing/metrics.py:144 | a timestamp cell parses to its own date |
| Metrics.AllMiddleAged | src/processing/metrics.py:147-157 | when every user's age is in 26..55, all are in that band and the others are empty |
| Metrics.BornOn | tests/test_metrics.py:215-221 | a user row built from a birth date has that birth year |
| Metrics.AgeExample | tests/test_metrics.py:212-228 | five users born 1990-1993 give the bands 0, 0, 5, 0 in every year from 2019 to 2045 |
| Metrics.Rate | src/processing/metrics.py:174-176 | the rate is defined exactly when applications are not zero, and rate × applications = participants × 100 |
| Metrics.MatchApps | src/processing/metrics.py:173 | every merged row of a participants row carries its flow |
| Metrics.MatchAppsMembers | src/processing/metrics.py:173 | a participants row's merge is exactly its pairings with same-flow application rows |
| Metrics.ConversionMembers | src/processing/metrics.py:173-176 | the inner merge holds exactly one row per same-flow pair, with both counts and the rate |
| Metrics.MatchAppsAtMostOne | src/processing/metrics.py:173 | with distinct application flows, a participants row matches at most once |
| Metrics.ConversionAscending | src/processing/metrics.py:173 | on two group-by outputs, the merge has one row per shared flow, ascending |
| Metrics.ConversionAbove | src/processing/metrics.py:173 | every flow of the merge is a participants flow |
| Metrics.ResumeUsersAtMostOne | src/processing/metrics.py:17-19 | with unique resume ids an exhibition points to at most one user |
| Metrics.CountedPositive | src/processing/metrics.py:40 | when every exhibition has an `id`, a flow named by an exhibition has at least one application |
| Metrics.ParticipantsAtMostApplications | src/processing/metrics.py:14-45 | with unique resume ids and exhibition ids present, a flow never has more distinct participants than applications |
| Metrics.RateBounds | src/processing/metrics.py:174-176 | participants ≤ applications > 0 gives a rate between 0 and 100 |
| Metrics.ConversionBounded | src/processing/metrics.py:160-177 | on validated-like input, every merged flow has applications, participants ≤ applications, and a rate in 0..100 |
| Metrics.Coerced | src/processing/metrics.py:218-220 | a coerced date is null exactly when it does not parse |
| Metrics.MonthLabel | src/processing/metrics.py:221-223 | the month label is always a string, never null |
| Metrics.WeekLabel | src/processing/metrics.py:244 | the week label is null exactly when the date does not parse |
| Metrics.Labelled | src/processing/metrics.py:217-223 | the copy has one row per row, the label from `created_at`, and every other cell unchanged |
| Metrics.MetricsPerMonth | src/processing/metrics.py:217-227 | succeeds exactly when `created_at` and `id` exist, and otherwise names the missing one |
| Metrics.MetricsPerWeek | src/processing/metrics.py:240-248 | succeeds exactly when `created_at` and `id` exist, and otherwise names the missing one |
| Metrics.LabelledKeys | src/processing/metrics.py:221-224 | the labels of the copy are exactly the labels of the original rows |
| Metrics.MonthBeforeNaT | src/processing/metrics.py:221-224 | every month label sorts before "NaT" |
| Metrics.MonthLabelNaT | src/processing/metrics.py:218-223 | the label is "NaT" exactly when the date does not parse |
| Metrics.MonthGroupsSpec | src/processing/metrics.py:224 | month groups are ascending, one per label some exhibition has |
| Metrics.MonthNaT | src/processing/metrics.py:218-224 | "NaT" is a month exactly when some date does not parse, and is then last |
| Metrics.MonthKeys | src/processing/metrics.py:217-227 | the months of the metric: ascending, one per label, "NaT" present exactly when a date does not parse, and then last |
| Metrics.MonthRowsTotal | src/processing/metrics.py:224 | relabelled month rows count every row with an `id` |
| Metrics.WeekRowsTotal | src/processing/metrics.py:245 | relabelled week rows count only rows with an `id` and a readable date |
| Metrics.PeriodTotals | src/processing/metrics.py:217-248 | monthly counts add up to all exhibitions with an `id`; weekly counts only to those with a readable date |
| Metrics.WeekGroupsSpec | src/processing/metrics.py:245 | week groups are ascending, one per non-null label |
| Metrics.WeekKeys | src/processing/metrics.py:240-248 | the weeks of the metric: ascending, one per week of a date that parses |
| Metrics.TableNamed | src/processing/metrics.py:277 | `data[name]` succeeds exactly when the table is present, and otherwise raises naming it |
| Metrics.AllMetrics | src/processing/metrics.py:274-294 | the conversion rate of a run is computed from that run's participants and applications |
| Metrics.AsDict | src/processing/metrics.py:274-294 | the dictionary has twelve entries, in the order they are filled |
| Metrics.AllMetricsOk | src/processing/metrics.py:251-294 | every table and column the metrics read being present makes the run succeed |
| Metrics.AllMetricsNeeds | src/processing/metrics.py:251-294 | a successful run means every table and column it reads is present |
| Metrics.AllMetricsEntries | src/processing/metrics.py:276-292 | each entry of a successful run is the metric of the table it names |
| Metrics.TitleInjective | src/processing/metrics.py:276-292 | no two metrics share a dictionary key |
| Metrics.MetricOrderDistinct | src/processing/metrics.py:276-292 | each metric is filled exactly once |
| Metrics.DataStore.constructor | src/processing/metrics.py:251 | the store starts with the caller's tables |
| Metrics.GetAllMetricsAsDict | src/processing/metrics.py:251-294 | the method returns the run's dictionary, or its first error. The users table is rewritten exactly when the run reaches the age distribution, and nothing else changes |
| Reports.Matches | src/reporting/resports.py:55 | a left row matches at most as many rows as the metric has |
| Reports.Start | src/reporting/resports.py:57 | the chain starts with one row per participants row, carrying its count |
| Reports.ToKpis | src/reporting/resports.py:63-74 | one KPI row per merged row, in order |
| Reports.LookupSpec | src/reporting/resports.py:55 | a flow's lookup succeeds exactly when it has a row, and returns that row's count |
| Reports.MatchesUnique | src/reporting/resports.py:55 | with unique flows, a flow matches exactly its looked-up row or none |
| Reports.MergeRowUnique | src/reporting/resports.py:55 | with unique flows, a left row merges into exactly one row extended by its lookup |
| Reports.MergeLeftLength | src/reporting/resports.py:55 | with unique flows on the right, a left merge keeps the rows one for one |
| Reports.MergeLeftAt | src/reporting/resports.py:55 | row `i` of a left merge is left row `i` extended by its lookup |
| Reports.Lookups | src/reporting/resports.py:58-62 | one looked-up count per merged metric, in merge order |
| Reports.ChainLength | src/reporting/resports.py:57-62 | the merge chain keeps the participants rows one for one |
| Reports.ChainAt | src/reporting/resports.py:57-62 | row `i` of the chain is participants row `i` with one looked-up column per metric |
| Reports.KpiTable | src/reporting/resports.py:53-76 | with unique flows in every metric, the KPI table has exactly the participants' flows, in order. Each figure is the flow's count, or 0 where the metric has no row |
| Reports.GroupByUnique | src/processing/metrics.py:40 | a per-flow group-by has one row per flow |
| Reports.KpiOfRun | src/reporting/resports.py:53-76 | on a successful metrics run, the KPI table has one row per participating flow with its six figures, 0 where a metric lacks the flow |
| Reports.KeyBounds | src/reporting/resports.py:89-90 | `min()` and `max()` are keys, and no key lies below the one or above the other |
| Reports.PeriodOfSorted | src/reporting/resports.py:89-90 | on ascending keys the minimum is the first key and the maximum the last |
| Reports.MonthsEmpty | src/reporting/resports.py:88 | the monthly table is empty exactly when there are no exhibitions |
| Reports.MonthsOrder | src/processing/metrics.py:221-224 | the months are ascending, and "NaT" is last once a date does not parse |
| Reports.PeriodLineSorted | src/reporting/resports.py:87-93 | on ascending keys the period line names the first and the last key |
| Reports.PeriodOfMonths | src/reporting/resports.py:87-93 | the period is unavailable exactly when there are no exhibitions. Otherwise it runs from the first to the last month, and ends at "NaT" once a date does not parse |
| Reports.PeriodOfRun | src/reporting/resports.py:87-93 | the same statement for the months of a successful metrics run |
| CsvReports.TextFile.Open | src/reporting/resports.py:174 | opening for writing starts an empty file at the path |
| CsvReports.TextFile.Write | src/reporting/resports.py:176-178 | a write appends to the file's text and keeps the path |
| CsvReports.Sections | src/reporting/resports.py:175-178 | one section per entry: the " -- title --" line, the frame's CSV text, then two newline characters (two blank lines after `to_csv`'s final newline) |
| CsvReports.CreateCsvReport | src/reporting/resports.py:163-178 | the method writes a fresh "metrics_report.csv", whatever the filename, whose text is every section in dictionary order |
| CsvReports.CsvReportStep | src/reporting/resports.py:175-178 | one more entry appends its section to the report |
| CsvReports.CsvReportAppend | src/reporting/resports.py:175-178 | the report of two runs of entries is the two reports one after the other |
| CsvReports.CsvReportSingle | src/reporting/resports.py:176-178 | the report of one entry is its section |
| CsvReports.SectionSplit | src/reporting/resports.py:175-178 | the report splits around any entry into the sections before it, its own section and the sections after it |
| CsvReports.SectionAt | src/reporting/resports.py:176 | the header line of entry `i` starts right after the sections before it |

## Left out

- Logging: every `logging.info/warning/error` call is left out. It has no effect on the data.
- The file system: whether a file exists and what `pd.read_csv` parses are given as a `Files` map. A file is absent, unparseable (`None`) or a parsed table. CSV parsing itself is not modelled.
- The clock: `pd.Timestamp.now().year` is the `year` parameter.
- Date parsing: `pd.to_datetime(..., errors="coerce")` is the `parse` parameter. Dates are civil dates with four-digit years.
- CSV rendering: `DataFrame.to_csv(index=False)` is the `render` parameter of the CSV report.
- PDF report: `generate_report_pdf` is modelled only for its period paragraph (lines 87-93) and its KPI table (via `transform_metrics`). The FPDF layout, the generation timestamp, the other tables, the matplotlib figures and the fixed conclusions are left out as rendering.
- `save_metrics_csv_pdf`: it only calls the metrics, the CSV report and the PDF report in sequence. Each of those is modelled on its own.
- Database, e-mail and entry point: saving to the database, sending e-mail and `main` are not part of this model (src/db, src/utils/sengrid.py, src/main.py).
- Floating point: Metrics.Rate is an exact rational, not an IEEE double. The infinity or NaN of a zero denominator is `None`.
- Reports.ToKpis: after `fillna(0)` pandas turns the merged count columns into floats, which would print as "3.0". The model keeps integers.
- Floats in general: float cells (for example an integer id column with a missing value, read as 5.0) are not modelled. Validators.CastId accepts integers and decimal text only.
- Tables.Less: the model orders mixed cell types as integers < strings < dates < null. Pandas raises `TypeError` when it compares mixed types while sorting or grouping; that error is not modelled.
- Validators.SurvivorsSpec: the id stage sorts stably where pandas' default quicksort need not. Properties that depend on how ties are broken state only what holds for every order: sorted, and each survivor has a maximal `created_at`. Validators.IdStageRows, however, states positions for the stable order.
- Skills.TopSkills: the model has no column dtypes. A `skills` column holding no text at all (every cell empty or numeric) makes pandas' `.str` accessor raise `AttributeError`; the model instead skips non-text cells and returns the tally of the text cells, which is empty there. Ties among equal counts are listed in order of first appearance (a stable sort); pandas' `value_counts` does not guarantee that order.
- Skills.Strip and Skills.Lower: they cover ASCII only. Unicode whitespace and case mapping are not modelled.
- Metrics.UniqueParticipants: when the exhibitions already have a `user_id`, the merge would rename both columns with `_x`/`_y` suffixes. The model reports the `KeyError` the following group-by raises, not the renamed frame.
- Reports.KpiTable: it is stated for metrics with unique flows, which is what group-by outputs are (Reports.KpiOfRun). Merges against tables with repeated flows are defined but not characterised.
- Reports.TransformMetrics: it takes the twelve frames of a run, so the `KeyError` of a missing dictionary entry cannot arise.
- Row indexes: `reset_index` and pandas row labels are not modelled. Tables are plain sequences of rows.
