# City Id resolution and the table rules of `my_mods.PY`

This project models the core of `my_mods.PY` in Dafny and proves properties of
that model. The core is the contractor-name resolver `CityIdFinder` and two
table rules used beside it.

- **`CityIdFinder`** holds the "City Id Hub" reference sheet once it has been
  loaded. Column 0 of the sheet holds the City Id; every other column holds a
  name variant.
- **`find_city_id`** resolves a contractor name to a City Id in two stages:
  - an exact cascade over the five search phases of
    `preprocess_search_phases`. Phases are tried first, then columns, then
    rows; cells are compared after `strip()`;
  - a fuzzy fallback. It calls `extractOne` once per name column and keeps
    the first column with the strictly greatest score. The result is accepted
    when the score reaches the threshold.
- **`find_value_in_column`** looks each search value up in a column and returns
  one `[value, result]` pair per value. The result is the first match or
  "Not Found".
- **`add_pop_eligible_column`** writes "POP Eligible" in place. It writes 'Yes'
  exactly when the amount is above 200000 and the classification is not
  'Supplier'.

Modules:

- `Wrappers` holds `Option`.
- `Seqs` holds `FirstIndexOf`, the first position of a value in a sequence.
  Both `idxmax` of an `eq` mask and a column-label look-up use it.
- `PyStr` models the Python `str` operations the name normaliser uses.
- `CityIds` models the sheet, the phases, the exact cascade and the fuzzy loop,
  and the `CityIdFinder` class with its methods.
- `CityIdFacts` holds what `find_city_id` guarantees.
- `Frames` models the pandas cells, frames and the two table rules. It includes
  a `DataFrame` class that `add_pop_eligible_column` mutates.
- `FrameFacts` holds what the two table rules guarantee.

The loops of the source are methods proved against specification functions:

- `ExactCascade` is proved against `MatchInPhases`.
- `FuzzyFallback` and `ScoreColumn` are proved against `Scan` over the
  per-column `Candidates`.
- `FindCityId` is proved against `Resolve`.
- `FindValueInColumn` is proved against `LookupFirst`.
- `AddPopEligibleColumn` is proved against `AddPopEligible`.

The lemmas then prove what the source promises about those functions.

Two behaviours of the code are easy to miss; the model has both:

- **The resolver can raise.** The docstring of `find_city_id`
  (my_mods.PY:38) promises a City Id or "Not Found". But when the threshold
  is at most 0 and no column scores above 0, line 82 returns `best_city_id`
  without it ever having been bound (my_mods.PY:80-82), and Python raises
  `UnboundLocalError`. The model has that outcome, and `Resolve` proves it
  occurs only when `threshold <= 0`.
- **A period followed by a space survives phase 2.** Line 24 runs
  `rstrip('.')` before `strip()`. In "Ace Co. (old)" the text before '(' is
  "Ace Co. ", which ends in a space, so `rstrip('.')` removes nothing and
  phase 2 is "Ace Co.". Phases 3 and 5 keep the period too; only phase 4
  drops it. `TrailingPeriodSurvives` proves this.

## Model

| member | source | states |
|---|---|---|
| PyStr.IsSpace | my_mods.PY:24 | the characters `str.strip()` treats as whitespace; `StripStartSpec`, `StripEndSpec` and `StripSpec` state what stripping them does |
| PyStr.BeforeFirst | my_mods.PY:24-30 | `s.split(c)[0]`; `BeforeFirstSpec`, `BeforeFirstAbsent` and `BeforeFirstAt` state its contract |
| PyStr.TrimEnd | my_mods.PY:24 | `s.rstrip(c)`; `TrimEndSpec` and `TrimEndAbsent` state its contract |
| PyStr.StripStart | my_mods.PY:24 | `s.lstrip()`; `StripStartSpec` states its contract |
| PyStr.StripEnd | my_mods.PY:24 | `s.rstrip()`; `StripEndSpec` states its contract |
| PyStr.Strip | my_mods.PY:24 | `s.strip()`; `StripSpec` states that it is the input with its leading and trailing whitespace cut off, and `StripTrimmed` and `StripIdempotent` follow |
| PyStr.RemoveAll | my_mods.PY:28-29 | `s.replace(c, '')`; `RemoveAllSpec`, `RemoveAllAbsent` and `RemoveAllAppend` state its contract |
| PyStr.BeforeFirstSpec | my_mods.PY:24 | `split(c)[0]` is a prefix of the input without `c`, ending at the input's end or just before the first `c` |
| PyStr.BeforeFirstAbsent | my_mods.PY:24 | `split(c)[0]` returns the whole string when `c` does not occur |
| PyStr.BeforeFirstAt | my_mods.PY:24 | `split(c)[0]` of `a + c + b` is `a` when `a` holds no `c` |
| PyStr.TrimEndSpec | my_mods.PY:24 | `rstrip('.')` keeps a prefix that does not end in '.', and everything it drops is '.' |
| PyStr.TrimEndAbsent | my_mods.PY:24 | `rstrip(c)` changes nothing when the string does not end in `c` |
| PyStr.StripStartSpec | my_mods.PY:24 | `lstrip()` keeps a suffix that does not start with whitespace, and drops only whitespace |
| PyStr.StripEndSpec | my_mods.PY:24 | `rstrip()` keeps a prefix that does not end with whitespace, and drops only whitespace |
| PyStr.StripSlice | my_mods.PY:24 | `strip()` is the slice of the input left after cutting off its leading whitespace and then its trailing whitespace, and everything cut off is whitespace |
| PyStr.StripSpec | my_mods.PY:24 | `strip()` returns the slice of the input between its leading whitespace and its trailing whitespace, and that slice has no surrounding whitespace (so it is no longer than the input and invents no character) |
| PyStr.StripTrimmed | my_mods.PY:24 | `strip()` leaves an already-trimmed string unchanged |
| PyStr.StripIdempotent | my_mods.PY:24 | `strip()` applied twice equals `strip()` applied once |
| PyStr.RemoveAllSpec | my_mods.PY:28-29 | `replace(c, '')` keeps the same multiset of characters with every `c` removed |
| PyStr.RemoveAllAbsent | my_mods.PY:28-29 | `replace(c, '')` changes nothing when `c` does not occur |
| PyStr.RemoveAllAppend | my_mods.PY:28-29 | `replace(c, '')` of a concatenation is the concatenation of the pieces' results |
| CityIds.ColumnSpec | my_mods.PY:53 | `city_id_df[col]` lists column `c` row by row: its entry `i` is cell `c` of row `i` |
| CityIds.BaseForm | my_mods.PY:24 | the base value of the phases; `CityIdFacts.BaseFormShape` states its contract |
| CityIds.StrippedSheet | my_mods.PY:55 | the sheet as the exact cascade compares it; `CityIdFacts.StrippedSheetCells` states that each cell is `strip()` of the original |
| CityIds.SearchPhases | my_mods.PY:22-31 | `preprocess_search_phases` returns exactly five candidates |
| Seqs.FirstIndexOf | my_mods.PY:55-57 | `idxmax` of the `eq` mask is a row holding the value, and there is none exactly when no row holds it |
| CityIds.MatchInColumns | my_mods.PY:51-59 | a hit of one phase lies in a searched column (never column 0) and in an existing row |
| CityIds.MatchInPhases | my_mods.PY:49-59 | a hit of the cascade lies in a phase from the start phase on, in a searched column and an existing row |
| CityIds.TopIndex | my_mods.PY:69 | `extractOne` picks a position inside the choice list |
| CityIds.ExtractOne | my_mods.PY:69 | `extractOne` gives no result exactly for an empty list; otherwise it gives one of the choices and that choice's score |
| CityIds.RowOf | my_mods.PY:73 | the row `idxmax` finds for the best match holds that match in the scored column |
| CityIds.Scan | my_mods.PY:63-78 | after the fuzzy loop the best score lies in 0..100; the best match and City Id are bound exactly when it is above 0 |
| CityIds.FuzzyOutcome | my_mods.PY:80-85 | the fuzzy tail never answers "Data not loaded" |
| CityIds.Resolve | my_mods.PY:33-85 | `find_city_id` answers "Data not loaded" exactly when no sheet is loaded; it raises `UnboundLocalError` only when the threshold is at most 0 |
| CityIds.ExactCascade | my_mods.PY:49-59 | the nested phase and column loops return the first hit in cascade order (`MatchInPhases`) |
| CityIds.ExactInColumns | my_mods.PY:51-59 | the column loop of one phase returns the first column holding the phase, with its first such row (`MatchInColumns`) |
| CityIds.ColumnCandidate | my_mods.PY:66-74 | what one fuzzy iteration offers for a column; `CityIdFacts.ColumnCandidateShape`, `ColumnCandidateIsBest`, `ColumnCandidateRow` and `ColumnCandidateId` state its contract |
| CityIds.Step | my_mods.PY:70-74 | one iteration's update of the best match, score and City Id; `CityIdFacts.ScanSnoc` and `ScanKeepsFirstBest` state what it keeps |
| CityIds.ScoreColumn | my_mods.PY:66-74 | one fuzzy iteration replaces the best match, score and City Id only on a strictly greater score |
| CityIds.FuzzyFallback | my_mods.PY:63-78 | the fuzzy loop over columns 1.. leaves the accumulators of the first-best fold `Scan` over all name columns |
| CityIds.CityIdFinder.constructor | my_mods.PY:9-12 | a new finder keeps the file path and sheet name (default "City Id Hub") and has no data loaded |
| CityIds.CityIdFinder.LoadCityIdData | my_mods.PY:14-20 | after loading, the finder holds the sheet read, or nothing when reading failed |
| CityIds.CityIdFinder.FindCityId | my_mods.PY:33-85 | the method's loops return exactly `Resolve` of the loaded sheet |
| CityIdFacts.BaseFormShape | my_mods.PY:24 | the base form holds no '(' and has no surrounding whitespace |
| CityIdFacts.SearchPhasesShape | my_mods.PY:22-31 | phase 1 is the raw name; phases 3-5 derive from the base form; no phase after the first holds '('; phases 3 and 5 hold no ',' and phase 4 no '.' |
| CityIdFacts.PhasesOfPlainName | my_mods.PY:22-31 | a trimmed name without '(', ',' or '.' is tried five times unchanged |
| CityIdFacts.TrailingPeriodSurvives | my_mods.PY:24-30 | the five phases of "Ace Co. (old)" are the name, "Ace Co.", "Ace Co.", "Ace Co" and "Ace Co.": the base form keeps the period and only phase 4 drops it |
| Seqs.FirstIndexOfIsFirst | my_mods.PY:57 | `idxmax` finds the first matching row |
| CityIdFacts.MatchInColumnsFirst | my_mods.PY:51-59 | the column loop's hit is a hit, it finds one whenever a searched column holds the value, and no earlier column and no earlier row of its column is one |
| CityIdFacts.MatchInPhasesFirst | my_mods.PY:49-59 | the cascade's hit is a hit with no earlier hit, and there is none exactly when no phase hits any name column |
| CityIdFacts.StripCellsSpec | my_mods.PY:55 | stripping a row strips each cell |
| CityIdFacts.StripRowsSpec | my_mods.PY:55 | stripping the rows strips every cell |
| CityIdFacts.StrippedSheetCells | my_mods.PY:53-55 | each cell the cascade compares is `strip()` of the sheet's cell |
| CityIdFacts.HitsAgree | my_mods.PY:53-56 | a hit in the stripped sheet is exactly a stripped cell of a name column equal to the phase |
| CityIdFacts.ExactMatchWins | my_mods.PY:49-59 | the first hit in phase, column, row order is the one the cascade finds, and its row's City Id is returned whatever the scorer and threshold |
| CityIdFacts.NoExactHitFallsBack | my_mods.PY:61-85 | with no phase hitting a name column, the answer is the fuzzy fallback's |
| CityIdFacts.SameHitsSameMatch | my_mods.PY:49-59 | sheets with the same hits reach the same first hit |
| CityIdFacts.IdColumnNeverSearched | my_mods.PY:43 | column 0 is never searched: sheets that differ only in their City Ids reach the same exact hit |
| CityIdFacts.TopIndexIsFirstMax | my_mods.PY:69 | `extractOne` picks a choice with the greatest score, and no earlier choice scores as much |
| CityIdFacts.ExtractOneBest | my_mods.PY:69 | `extractOne`'s result scores at least as much as every choice, and it sits at a position where every earlier choice scores strictly less |
| CityIdFacts.ColumnCandidateShape | my_mods.PY:68-69 | a column offers nothing exactly when the sheet has no rows; otherwise it offers one of its values with that value's score |
| CityIdFacts.ColumnCandidateIsBest | my_mods.PY:69 | a column's offered score is at least the score of each of its values |
| CityIdFacts.ColumnCandidateRow | my_mods.PY:73-74 | the City Id a column offers is the one in the first row holding the offered value |
| CityIdFacts.ColumnCandidateId | my_mods.PY:74 | the City Id a column offers is in column 0 of the sheet |
| CityIdFacts.ScanSnoc | my_mods.PY:65-74 | visiting one more column is one more step of the loop |
| CityIdFacts.ScanIsMax | my_mods.PY:70-71 | the running best score is at least every column's score |
| CityIdFacts.ScanFromCandidate | my_mods.PY:70-74 | a positive best score comes with one column's match, score and City Id, taken together |
| CityIdFacts.ScanKeepsFirstBest | my_mods.PY:70 | ties go to the first column: the first column with the strictly greatest positive score is the one kept |
| CityIdFacts.CandidatesUpToAt | my_mods.PY:65 | entry `j` of the visited columns is name column `j + 1` |
| CityIdFacts.EntryAt | my_mods.PY:65 | entry `j` of the candidate list is what name column `j + 1` offers |
| CityIdFacts.ColumnEntry | my_mods.PY:65 | what name column `c` offers is entry `c - 1` of the candidate list |
| CityIdFacts.CandidatesAt | my_mods.PY:65 | the fuzzy loop visits exactly name columns 1.., in order |
| CityIdFacts.FuzzyBestIsMax | my_mods.PY:65-74 | the fuzzy best score is at least the score of every name column |
| CityIdFacts.EarlierEntriesLess | my_mods.PY:65-70 | columns before `k` that score less than column `k` are entries before `k - 1` that score less than entry `k - 1` |
| CityIdFacts.LaterEntriesNoMore | my_mods.PY:65-70 | columns after `k` that score no more than column `k` are entries after `k - 1` that score no more than entry `k - 1` |
| CityIdFacts.FirstBestCandidate | my_mods.PY:65-70 | the first-best conditions on name columns hold for the candidate list at entry `k - 1`, which is column `k` |
| CityIdFacts.FirstBestColumnWins | my_mods.PY:65-74 | the first name column with the greatest positive score supplies the match, the score and the City Id |
| CityIdFacts.EntryCityId | my_mods.PY:73-74 | the City Id any visited column offers is in column 0 of the sheet |
| CityIdFacts.FuzzyIdFromSheet | my_mods.PY:73-74 | a bound fuzzy City Id is in column 0 of the sheet |
| CityIdFacts.NoRowsNoScore | my_mods.PY:66-78 | with no rows every column is skipped and the best score stays 0 |
| CityIdFacts.ThresholdBoundary | my_mods.PY:80-85 | a fuzzy result is accepted exactly when best score >= threshold (the boundary score itself is accepted); below it the answer is "Not Found" |
| CityIdFacts.ThresholdMonotone | my_mods.PY:80-85 | raising a positive threshold can only turn a fuzzy hit into "Not Found", never into a different City Id |
| CityIdFacts.NoIdInvented | my_mods.PY:33-85 | every City Id `find_city_id` returns is in column 0 of the loaded sheet |
| CityIdFacts.EmptySheetNotFound | my_mods.PY:63-85 | a sheet with no rows or no name column answers "Not Found" for any positive threshold |
| CityIdFacts.AceLlcFoundInPhase5 | my_mods.PY:22-59 | against a one-row sheet with the variant "Ace", the first hit of "Ace, LLC" is phase 5 in column 1, row 0 (so phases 1-4 miss), and its City Id "1" is returned |
| CityIdFacts.AceLlcPhases | my_mods.PY:22-31 | the five phases of "Ace, LLC" are the name, the name, "Ace LLC", the name and "Ace" |
| Frames.At | my_mods.PY:152 | `row[label]` has a value exactly when the frame has that column |
| Frames.Matches | my_mods.PY:97 | the row mask `df[search_column] == value`; `FrameFacts.MissingNeverFound` and `FirstMatchIsFirst` state its contract |
| Frames.FirstMatch | my_mods.PY:97-100 | a found row matches the value in the search column |
| Frames.LookupFirst | my_mods.PY:95-107 | one iteration of the look-up loop; `FrameFacts.LookupFirstFound`, `LookupFirstNotFound` and `LookupFirstFromSheet` state its contract |
| Frames.FindValueInColumn | my_mods.PY:87-113 | the result has the columns `[search_column, return_column]` and one row per search value, in order, holding the value and its look-up result |
| Frames.RowEligibility | my_mods.PY:152 | the lambda on one row; `FrameFacts.RowEligibilityRule` and `RowEligibilityRaises` state its contract |
| Frames.EligibilityColumn | my_mods.PY:151-154 | when `apply` succeeds it gives one flag per row |
| Frames.WithColumn | my_mods.PY:151 | assigning a column keeps the number of rows |
| Frames.DataFrame.constructor | my_mods.PY:149 | a frame handle holds the frame it was given |
| Frames.AddPopEligible | my_mods.PY:149-158 | the frame `add_pop_eligible_column` leaves; `FrameFacts.PopEligibleWritten`, `PopEligibleFailureKeepsFrame` and `PopEligibleIdempotent` state its contract |
| Frames.AddPopEligibleColumn | my_mods.PY:149-158 | the method returns `df` itself, now holding `AddPopEligible` of its old frame |
| Frames.EligibilityFailureSticks | my_mods.PY:151-158 | once one row raises, the whole `apply` raises |
| FrameFacts.ColumnIndexSpec | my_mods.PY:97-100 | a column look-up returns exactly the first position of the label |
| FrameFacts.ColumnIndexAppend | my_mods.PY:151 | appending a new column moves no existing label |
| FrameFacts.FirstMatchIsFirst | my_mods.PY:97-100 | the look-up returns the first matching row, and finds none only when no row matches |
| FrameFacts.LookupFirstFound | my_mods.PY:97-101 | with both columns present, the result is the return-column cell of the first matching row |
| FrameFacts.LookupFirstNotFound | my_mods.PY:97-106 | a missing column or no matching row gives "Not Found" |
| FrameFacts.LookupFirstFromSheet | my_mods.PY:97-106 | every result other than "Not Found" is a return-column cell of a matching row |
| FrameFacts.MissingNeverFound | my_mods.PY:97 | an empty (NaN) search value matches no row |
| FrameFacts.RowEligibilityRule | my_mods.PY:152 | a row gets 'Yes' exactly when its amount is a number above 200000 and its classification is not 'Supplier' |
| FrameFacts.RowEligibilityRaises | my_mods.PY:152-158 | the lambda raises exactly on a missing amount column, a text amount, or a large amount with no classification column |
| FrameFacts.EligibilityColumnSpec | my_mods.PY:151-154 | `apply` succeeds exactly when no row raises, and then holds each row's flag in row order |
| FrameFacts.SetCellsSpec | my_mods.PY:151 | overwriting a column changes only that cell of each row |
| FrameFacts.AppendCellsSpec | my_mods.PY:151 | adding a column appends one cell to each row |
| FrameFacts.WithColumnSpec | my_mods.PY:151 | after `df[label] = values` the labels are unchanged (plus the label at the end if it is new), the column holds the values, and every other cell is unchanged |
| FrameFacts.SetCellsSame | my_mods.PY:151 | writing a column with the values it already holds changes nothing |
| FrameFacts.PopEligibleFailureKeepsFrame | my_mods.PY:156-158 | when any row raises, the frame comes back unchanged |
| FrameFacts.PopEligibleWritten | my_mods.PY:149-155 | otherwise "POP Eligible" holds 'Yes' exactly for rows meeting the rule and 'No' for the rest, and every other column is unchanged |
| FrameFacts.VerdictReadsTwoCells | my_mods.PY:152 | a row's verdict depends only on its amount and classification cells |
| FrameFacts.SameVerdictsSameColumn | my_mods.PY:151-154 | frames whose rows get the same verdicts get the same eligibility column |
| FrameFacts.WithColumnKeepsVerdict | my_mods.PY:151-152 | writing a column the rule does not read keeps each row's verdict |
| FrameFacts.WithColumnKeepsEligibility | my_mods.PY:151-152 | writing a column the rule does not read keeps the whole eligibility column |
| FrameFacts.WithColumnTwice | my_mods.PY:151 | assigning the same column twice is the same as assigning it once |
| FrameFacts.PopEligibleIdempotent | my_mods.PY:149-158 | running the rule twice with the same columns equals running it once, unless a read column is "POP Eligible" itself |

## Left out

- I/O is not modelled:
  - `pd.read_excel` becomes the `read` parameter of `LoadCityIdData`; `None` stands for a read that raised;
  - `print` calls;
  - the Excel readers and writers elsewhere in the file.
- The scorer is a parameter. `fuzz.token_sort_ratio` and the string processing
  inside `process.extractOne` are a foreign library; the scorer here is any
  function with scores from 0 to 100. `extractOne` is modelled as "the first
  choice with the greatest score", which is what `max` over its scored list
  gives.
- ColumnCandidate: NaN cells are not modelled. The reference sheet's cells are
  the strings `astype(str)` produces. So `dropna()` on line 68 drops nothing,
  and a NaN cell takes part as the text "nan".
- RowOf: assumes text cells. On line 73, `eq(best_match)` on a non-text column
  finds no row, and `idxmax` then gives row 0. The model's cells are all text,
  so the match is always found.
- Index labels: the sheet is addressed by position. `idxmax` returns an index
  label that `iloc` uses as a position; the two agree only for pandas' default
  integer index, which is the one modelled.
- Duplicate column labels are not modelled. `df[label]` on a duplicated label
  yields a frame, not a column. The model takes the first column with the
  label.
- FindValueInColumn: values whose comparison raises `ValueError` or
  `IndexError` are not modelled (for example, a list as a search value). Cells
  are text, numbers or empty; pandas dtype coercions are not modelled.
- AddPopEligibleColumn: `apply` on a frame with no rows is modelled as adding
  an empty column. Pandas instead returns an empty frame from `apply`.
  Amounts are real numbers; other Python types are not modelled.
- SearchPhases: a contractor name that is not text is not modelled. `ghost_ci`
  applies `find_city_id` to a spreadsheet column that can hold NaN
  (my_mods.PY:237); with data loaded, `split` on line 24 then raises
  `AttributeError`. The model's `name: string` leaves that input out.
- These are outside the modelled core:
  - `ghost_ci` (lines 182-276);
  - `track_mouse_position` (lines 278-290);
  - `extract_unique_city_ids`, `merge_city_dataframes`,
    `sum_contract_amounts` and `append_found_information`, which are thin
    pandas wrappers;
  - `central hub.py`, which is not part of this model.
