# pyam_analysis query and classification core, in Dafny

This project models the query-and-classification engine of `IamDataFrame` in
`pyam_analysis/core.py`. The engine works on an in-memory table of IAMC observations. Each
observation has a model, scenario, region, variable, unit, year and value. The model covers:

- **Filter engine** (`selection.dfy`, `patterns.dfy`). `select` ANDs one row mask per filter
  entry. `keep_col_match` ORs one mask per pattern. On the model, scenario and region axes a
  pattern is a prefix test. On the variable axis it is a pseudo-regex: `*` is a wildcard and the
  match is anchored at the end. `keep_col_yr` accepts an int, a list or a half-open range of years.
  Projection with `cols` drops duplicate rows. `models`, `scenarios` and `variables` are built on it.
- **Criteria checker** (`criteria.dfy`). `check` tests each selected row against an inclusive
  `up` and an exclusive `lo` bound. It returns either the failing rows, or the passing
  (model, scenario) keys.
- **Validation report** (`criteria.dfy`). `validate` concatenates the failing rows of every
  criterion. With `exclude`, any failure is an error.
- **Category table** (`categories.dfy`). The class `IamDataFrame` holds the data, its key index
  and a mutable label map. The map starts with one empty (NaN) label per distinct
  (model, scenario). `Category` either lists the keys that carry a name, or intersects the index
  with every criterion's passing keys and overwrites the labels of the keys that remain.

Observations are taken as a constructor argument. Values are `real`, years are `int`, and text is
`string`. Python exceptions become the `Error` cases of a `Result`.

Points where the model follows the code rather than its documentation:

- Model, scenario and region strings are applied with `re.match` and no end anchor, so they are
  prefix tests: `"m1"` also selects `"m10"` (`Patterns.PrefixMatchQuirk`).
- Python's `$` also accepts a string that ends in one newline. So a `*`-free variable pattern
  matches the identical string, and that string followed by `"\n"` (`Patterns.VariableLiteralMatch`).
- When the check's `year` is not a single int, "every year" is decided by comparing a ROW count
  per key with the number of distinct years in the whole selection. This means "satisfied in
  every year" only when each key has one row per year (`Criteria.EveryYearWhenOneRowPerYear`).
  With several rows per key and year (several regions, say) the count can go wrong either way.
  It can exclude a key that satisfies the check in every year (`Criteria.TwoRegionsCountTwice`).
  It can also admit a key that fails a whole year, when extra satisfying rows in another year make
  up the count (`Criteria.TwoRegionsHideFailingYear`). For the same reason `year: 2010` and
  `year: [2010]` can judge the same rows differently (`Criteria.SingleYearAndYearListDisagree`).
- When a check has neither `up` nor `lo` and selects no row, `check(..., ret_true=False)` raises:
  the empty mask `np.array([])` is a float array and `~` is undefined on it. `validate` then raises
  too (`Criteria.CheckOutcome`, error `InvertFloatMask`).
- Each check is modelled on a fresh copy of the caller's filters. The source writes into the
  caller's dict instead; see "Findings".

## Model

| member | source | states |
|---|---|---|
| Observations.Dedup | pyam_analysis/core.py:330 | `drop_duplicates`: the result has no duplicates and holds exactly the elements of the input |
| Observations.DedupKeepsFirstOccurrenceOrder | pyam_analysis/core.py:330 | `drop_duplicates` keeps the survivors in the order of their first occurrences in the input |
| Observations.DedupOfDistinct | pyam_analysis/core.py:330 | dropping duplicates from a sequence without any changes nothing |
| Observations.Mask | pyam_analysis/core.py:324 | boolean-mask selection holds exactly the flagged elements; an all-true mask keeps everything |
| Observations.MaskKeepsOrder | pyam_analysis/core.py:324 | the i-th kept element is the element at the i-th flagged position, so order is preserved |
| Observations.EntityKeys | pyam_analysis/core.py:62-63 | the label index lists each (model, scenario) of the data once, and nothing else |
| Patterns.CompileLiteral | pyam_analysis/core.py:402-403 | a model, scenario or region string compiles to one literal token per character, with no end anchor |
| Patterns.CompileVariable | pyam_analysis/core.py:400-401 | a variable string compiles to `.*` exactly where it has `*` and to its own (escaped) character elsewhere |
| Patterns.MatchHere | pyam_analysis/core.py:400-404 | `re.match` of compiled tokens at position 0; a match with the `$` anchor is also a match without it |
| Patterns.Matches | pyam_analysis/core.py:400-404 | `re.compile(p).match(s)` on the pattern's axis; an empty filter string matches every model, scenario and region, but only the empty variable or a lone newline |
| Patterns.AxisMatchIsPrefix | pyam_analysis/core.py:402-404 | on the model, scenario and region axes a pattern matches exactly the strings it is a prefix of |
| Patterns.PrefixMatchQuirk | pyam_analysis/core.py:402-404 | `"m1"` matches both `"m1"` and `"m10"` |
| Patterns.VariableLiteralMatch | pyam_analysis/core.py:400-404 | a `*`-free variable pattern matches the identical string or that string plus a final newline, nothing else |
| Patterns.VariableLiteralIsEquality | pyam_analysis/core.py:400-404 | for newline-free variables a `*`-free pattern is an equality test |
| Patterns.TrailingWildcard | pyam_analysis/core.py:400-404 | `q*` matches exactly the newline-free variables that start with `q` |
| Patterns.EmissionsWildcards | pyam_analysis/core.py:294-295 | `Emissions*` matches `Emissions` and `Emissions\|CO2`; `Emissions\|*` does not match `Emissions` |
| Selection.PatternsOf | pyam_analysis/core.py:396-402 | a string is a one-pattern list, a list of strings is used as is, an int or a non-empty list or range of ints is a non-string-pattern error |
| Selection.KeepColMatch | pyam_analysis/core.py:389-406 | a row is kept iff at least one of the patterns matches its column value |
| Selection.KeepColYear | pyam_analysis/core.py:409-422 | an int keeps equal years, a list keeps listed years, a range keeps start <= year < stop, a string is an error |
| Selection.RangeIsListOfItsYears | pyam_analysis/core.py:417-418 | a range filter equals the list of its years, and its stop year is excluded |
| Selection.FirstError | pyam_analysis/core.py:308-321 | `select` fails iff some filter entry fails, and with the error of a failing entry |
| Selection.FirstErrorIsFirst | pyam_analysis/core.py:307-321 | the error `select` raises is that of the first failing entry in dict order: every earlier entry is supported |
| Selection.Selected | pyam_analysis/core.py:306-324 | an unknown filter column is an error; the error returned is the one of the first failing entry; otherwise a row is selected iff it satisfies every entry; no filter selects all rows |
| Selection.SelectKeepsOrder | pyam_analysis/core.py:324 | selected rows appear in table order, at increasing positions of rows that satisfy the filters |
| Selection.EntryMask | pyam_analysis/core.py:309-321 | the mask of one filter entry flags exactly the rows satisfying it, or is that entry's error |
| Selection.Select | pyam_analysis/core.py:306-324 | the loop that ANDs entry masks computes exactly `Selected` |
| Selection.EmptyFilterKeepsAll | pyam_analysis/core.py:307-324 | an empty filter dict returns the whole table |
| Selection.Put | pyam_analysis/core.py:256-258 | assigning a dict key sets that key's entry and keeps every other entry |
| Selection.PutSemantics | pyam_analysis/core.py:256-258 | a row satisfies the updated filters iff it satisfies the new entry and every entry on another column |
| Selection.MissingColumn | pyam_analysis/core.py:330 | finds a requested column the table does not have iff there is one |
| Selection.SelectColumns | pyam_analysis/core.py:324-336 | without `cols`, an `idx_cols` column the table lacks is an error (`set_index`), and otherwise the i-th row is the i-th selected row with all its columns; with `cols`, the rows are the projections of the selected rows onto `cols + idx_cols`, without duplicates; an unknown column is an error |
| Selection.ColumnValues | pyam_analysis/core.py:75 | a projected text column lists each value of the selected rows exactly once |
| Selection.Models | pyam_analysis/core.py:66-75 | `models` lists every model of the selected rows once |
| Selection.Scenarios | pyam_analysis/core.py:77-86 | `scenarios` lists every scenario of the selected rows once |
| Selection.Variables | pyam_analysis/core.py:88-97 | `variables` lists every variable of the selected rows once |
| Criteria.BoundAsymmetry | pyam_analysis/core.py:263-268 | value == up passes, value == lo fails, `up` and `lo` together mean lo < value <= up, no bound accepts all |
| Criteria.EffectiveFilters | pyam_analysis/core.py:254-258 | a check selects with its variable, its year if it has one, and every other caller entry |
| Criteria.VariableEntry | pyam_analysis/core.py:313-314 | a single-string variable filter keeps the rows whose variable the pattern matches |
| Criteria.RegionEntry | pyam_analysis/core.py:310-311 | a single-string region filter keeps the rows whose region starts with it |
| Criteria.CheckSelection | pyam_analysis/core.py:254-259 | a check examines exactly the rows of its variable, in its year, that satisfy the other caller filters |
| Criteria.SatisfyingRows | pyam_analysis/core.py:273 | `df.loc[is_true]` holds exactly the selected rows that satisfy every bound |
| Criteria.FailingRows | pyam_analysis/core.py:284 | `df[~is_true]` holds exactly the selected rows that violate some bound |
| Criteria.MaskSplits | pyam_analysis/core.py:284 | a mask and its negation together keep every element once |
| Criteria.FailingAndSatisfyingSplitSelection | pyam_analysis/core.py:261-284 | every selected row is either satisfying or failing, and the two counts add up to the selection |
| Criteria.PassingKeys | pyam_analysis/core.py:270-282 | passing keys come from satisfying rows; for a single int year they are all keys with a satisfying row |
| Criteria.CountKey | pyam_analysis/core.py:280-281 | the groupby count of a key is at most the number of rows, and zero iff the key has no row |
| Criteria.CountKeyCountsRows | pyam_analysis/core.py:280-281 | the groupby count of a key is the number of rows with that key, counted with multiplicity |
| Criteria.CheckOutcome | pyam_analysis/core.py:236-284 | a check fails iff its selection fails or, in failing mode, it has no bound and selects nothing (`~` on a float mask); it returns keys iff `ret_true` |
| Criteria.CheckReturnsFailingRows | pyam_analysis/core.py:283-284 | with `ret_true=False` the result is exactly the selected rows that violate the check |
| Criteria.CheckReturnsPassingKeys | pyam_analysis/core.py:270-282 | passing keys have a selected row; for one year they are exactly the keys with a selected satisfying row |
| Criteria.SatisfiedFlags | pyam_analysis/core.py:261-268 | the loop that ANDs one bound at a time into an all-true mask flags exactly the rows satisfying every bound |
| Criteria.CheckVariable | pyam_analysis/core.py:236-284 | `check` built on `Select` and `SatisfiedFlags` computes exactly `CheckOutcome`, including its `TypeError` on an empty bound-free failing check |
| Criteria.MaskKeepsOneRowPerKeyYear | pyam_analysis/core.py:280 | selecting rows keeps the one-row-per-key-and-year property |
| Criteria.CountIsDistinctYears | pyam_analysis/core.py:280-281 | with one row per key and year, the groupby row count is the number of distinct years |
| Criteria.EveryYearWhenOneRowPerYear | pyam_analysis/core.py:276-282 | with one row per key and year, a key passes iff it satisfies the check in every year of the selection |
| Criteria.ThreeOfFourYearsIsNotEnough | pyam_analysis/core.py:279-282 | a key satisfying the check in 3 of 4 years does not pass |
| Criteria.FourOfFourYearsPass | pyam_analysis/core.py:279-282 | a key satisfying the check in 4 of 4 years passes |
| Criteria.TwoRegionsCountTwice | pyam_analysis/core.py:279-282 | two satisfying rows in one year (two regions) exceed the year count, so the key does not pass |
| Criteria.TwoRegionsHideFailingYear | pyam_analysis/core.py:279-282 | two satisfying rows in 2010 make up for two failing rows in 2020, so a key that fails all of 2020 passes |
| Criteria.SingleYearAndYearListDisagree | pyam_analysis/core.py:270-282 | with two satisfying 2010 rows of one key, `year: 2010` passes the key and `year: [2010]` does not |
| Criteria.Collect | pyam_analysis/core.py:167-170 | repeated `append`: an error is one of the results' errors, and a collected report means no result failed |
| Criteria.CollectFirstError | pyam_analysis/core.py:167-170 | the error of repeated `append` is the first error in order: every earlier result is Ok |
| Criteria.Report | pyam_analysis/core.py:167-170 | the report's error is the error of some criterion's check; with no criteria the report is empty |
| Criteria.ReportFirstError | pyam_analysis/core.py:167-170 | `validate` raises the error of the first criterion whose check raises; every earlier check succeeds |
| Criteria.CollectConcatenates | pyam_analysis/core.py:167-170 | appending the results keeps every row of every result and nothing else; it is empty iff all are empty |
| Criteria.ReportCollectsViolations | pyam_analysis/core.py:167-170 | the report fails iff some check fails; a row is reported iff some criterion reports it; empty iff no violations |
| Criteria.Validate | pyam_analysis/core.py:152-175 | the appending loop returns the report; a non-empty report with `exclude` is an error |
| Criteria.SharedFilters | pyam_analysis/core.py:254-258 | as written, an empty dict stays empty, and a non-empty one holds the previous criterion's variable and year after its check |
| Criteria.LeakedFilters | pyam_analysis/core.py:254-258 | as written, the dict a check selects with equals the per-criterion one for an empty dict and for the first criterion |
| Criteria.YearLeaksIntoLaterCriterion | pyam_analysis/core.py:254-258 | as written, a later criterion without `year` still selects the year of an earlier one |
| Criteria.SharedFiltersDropRow | pyam_analysis/core.py:254-259 | as written, that later check drops a 2020 row of its own variable and region |
| Criteria.PerCriterionFiltersKeepRow | pyam_analysis/core.py:254-259 | with per-criterion filters the same row is examined |
| Categories.Labelled | pyam_analysis/core.py:206-207 | the keys listed under a name are exactly the index keys whose label equals it, each once |
| Categories.Relabel | pyam_analysis/core.py:223 | assignment labels the given keys with the name, keeps every other label, and adds or removes no key |
| Categories.RelabelIdempotent | pyam_analysis/core.py:223 | assigning the same keys the same name twice equals assigning once |
| Categories.RelabelOverwrites | pyam_analysis/core.py:223 | a later assignment to B replaces an earlier assignment to A |
| Categories.ListedAfterAssignment | pyam_analysis/core.py:206-223 | after an assignment a name lists the assigned keys (if it is the assigned name) and the unassigned keys that carried it |
| Categories.Unlabelled | pyam_analysis/core.py:62-64 | the initial table has one NaN label per index key |
| Categories.NothingListedWhenUnlabelled | pyam_analysis/core.py:206-207 | a NaN label equals no name |
| Categories.NothingListedInitially | pyam_analysis/core.py:62-64 | before any assignment no key is listed under any name |
| Categories.Narrow | pyam_analysis/core.py:214-217 | repeated `Index.intersection` only removes keys, and its error is one of the checks' errors |
| Categories.NarrowFirstError | pyam_analysis/core.py:214-217 | the error of the intersection loop is the first error in order: every earlier check succeeds |
| Categories.Qualification | pyam_analysis/core.py:213-217 | qualifying keys are index keys; an error is the error of some criterion's check |
| Categories.QualificationFirstError | pyam_analysis/core.py:213-217 | `category` raises the error of the first criterion whose check raises; every earlier check succeeds |
| Categories.Categorized | pyam_analysis/core.py:219-223 | the new table has the same keys; a label changes only to `name` and only with `assign`; a read or missing criteria changes nothing |
| Categories.NarrowIntersects | pyam_analysis/core.py:214-217 | repeated intersection keeps exactly the keys every result passes, or fails iff some check fails |
| Categories.QualifyingKeys | pyam_analysis/core.py:213-217 | a key qualifies iff it is in the index and passes every criterion; with no criteria all keys qualify |
| Categories.CategorizeIdempotent | pyam_analysis/core.py:213-223 | repeating a category call leaves the table as one call does |
| Categories.CategorizeChangesOnlyQualifying | pyam_analysis/core.py:219-223 | only qualifying keys change label, to the name; reads, errors, empty results and `assign=False` change nothing |
| Categories.IamDataFrame.constructor | pyam_analysis/core.py:62-64 | the label table has one NaN entry per distinct (model, scenario) of the data |
| Categories.IamDataFrame.Category | pyam_analysis/core.py:183-234 | reads list the labelled keys; missing criteria is an error; otherwise the narrowing loop yields the qualifying keys and the labels become `Categorized` |

## Left out

- Loading data (`read_data`) and the `mp` branch are not modelled. The observations are a constructor argument.
- Presentation is not modelled: `pivot_table`, `timeseries`, `pivot_has_elements`, the highlight helpers, the `display` argument of `category`, the styled frame `validate` returns, and every print. `Category` returns the frame index it computes. The source returns it only for `display='list'`, and nothing for the default `display=list`.
- Apart from raising on an `idx_cols` column the table lacks, `set_index` / `reset_index` in `select` and `validate` only choose which columns form the pandas index. Rows are modelled as cell sequences and `idx_cols` is appended to `cols`.
- The IPython autoscroll setting and warning suppression at import are not modelled.
- The `comment` argument of `category` is unused by the source and is not modelled.
- Patterns.Matches: covers only literal characters, `*` and `|` on the variable axis, and only literal characters on the other axes (`Supported`). Strings carrying other regular-expression syntax are excluded by precondition.
- Values are reals, not IEEE floats; NaN values and float rounding are not modelled.
- Year filters take an int, a list of ints or a step-1 `range`. A string is an error, as in the source. Other types (floats, bools, ranges with a step) are not modelled.
- A filter dict is a sequence of (column, value) entries and may repeat a column; every entry must then hold. A Python dict cannot repeat a key.
- Criteria.CheckReturnsPassingKeys: in multi-year mode it states only that passing keys have a selected row. The exact rule is `PassingKeys`, characterised by `Criteria.EveryYearWhenOneRowPerYear` under one row per key and year.
- Criteria.CheckOutcome: a check with bounds that selects no row is taken to give an empty result. Whether the `&` of the empty float mask with an empty boolean series raises depends on the numpy and pandas versions, and is not modelled.
- Selection.SelectColumns: `cols` and `idx_cols` are lists of column names. The source's docstring also allows a single string, with which `cols + idx_cols` raises `TypeError`; that case is not modelled.
- Selection.Selected: on a table with no rows the initial mask `np.array([True] * 0)` is a float64 array, not a boolean one. When the first entry is an empty pattern list, `keep_col_match` returns another float64 array and `keep & keep_col` raises `TypeError`; the model returns the empty selection instead. Whether `&` of the float mask with an empty boolean series raises depends on the numpy and pandas versions, and is not modelled either.
- Selection.SelectColumns: on a table with no rows and no filter entry, `self.data[keep]` with the float64 mask selects zero columns rather than zero rows, so `df[cols]` raises `KeyError`; the model returns an empty result.
- Selection.ColumnValues: for the same reason, on a table with no rows and no filter entry the source raises `KeyError`; the model returns an empty list.
- Selection.Models: on a table with no rows and no filter `models()` raises `KeyError` in the source; the model returns an empty list.
- Selection.Scenarios: on a table with no rows and no filter `scenarios()` raises `KeyError` in the source; the model returns an empty list.
- Selection.Variables: on a table with no rows and no filter `variables()` raises `KeyError` in the source; the model returns an empty list.
- Criteria.PassingKeys and Categories.IamDataFrame.Category return sets. The order of the pandas index they come from is not modelled.

## Findings

| source | as written | input that shows it | evidently intended | confidence | as-written member | corrected member |
|---|---|---|---|---|---|---|
| pyam_analysis/core.py:254-258 | `check` writes `year` and `variable` into the caller's filter dict whenever it is non-empty. `category` and `validate` pass that same dict to every criterion, so a `year` set by one criterion stays in force for later ones. | filters `{'region': 'World'}`, criteria `{'Primary Energy': {'up': 1, 'year': 2010}, 'Emissions': {'up': 1}}`: the `Emissions` check still selects only 2010, so the row (m, s, World, Emissions, 2020, 0.5) is never examined | each criterion is checked with the caller's filters plus only its own variable and year. The caller's dict also stays changed after the call, so a second identical `category` or `validate` call starts from the previous call's last `year` and `variable`; `Categories.CategorizeIdempotent` holds for the per-criterion filters, not for the code as written | not executed | Criteria.LeakedFilters (shown by Criteria.YearLeaksIntoLaterCriterion and Criteria.SharedFiltersDropRow) | Criteria.EffectiveFilters (Criteria.CheckSelection, Criteria.PerCriterionFiltersKeepRow); used by CheckVariable, Validate and Category |
