# Row cleaning and ID assignment of the indicator-database updater

`data/db_updater.py` turns two worksheets of the EPAR agricultural-development
indicator workbook into the tables of the indicator query tool's database:

- `sheet_to_list` reads a worksheet into a list of rows. Falsy cells become 0,
  and reading stops at the first row without a truthy cell.
- `clean_decisions` cleans the construction-decision rows. Each row gets a
  lowercase-hex ID. It is filed in the module-global `hexmatcher` dictionary
  under its indicator cell, and it is expanded into 25 country-decision
  records, one per survey instrument.
- `clean_estimates` cleans the estimate rows. Each row gets its index and the
  cell clean-up. A fixed, ordered chain of " - …" suffixes turns a
  disaggregated indicator label into a base label plus a livestock category.
  The hex ID of the label's decision row is inserted, or "NA" with a
  diagnostic line.

The model is split by concern:

| file | module | what it holds |
|---|---|---|
| `wrappers.dfy` | `Wrappers` | an `Option` type for values that may be absent (a suffix rule's category) |
| `text.dfy` | `Text` | the Python string built-ins the code relies on: `str.strip`, `in`, `str.replace(p, '')`, `hex(n)[2:]` |
| `cells.dfy` | `Cells` | the cell datatype, the per-cell rule, and the in-place clean-up loop |
| `sheets.dfy` | `Sheets` | `sheet_to_list` |
| `suffixes.dfy` | `Suffixes` | the suffix chain, walked rule by rule over its ordered table of suffixes and categories |
| `counters.dfy` | `Counters` | the two closure counters as classes |
| `decisions.dfy` | `Decisions` | `INSTRUMENTS`, the shape of every record `clean_decisions` emits, and the `hexmatcher` entries it leaves |
| `estimates.dfy` | `Estimates` | the shape of every record `clean_estimates` emits and the diagnostics it prints |
| `dbupdater.dfy` | `DbUpdater` | the module state (`hexmatcher`, the printed lines) and the two cleaning functions as methods over a mutable row list |

The functions in `Decisions` and `Estimates` define, from the data rows alone,
what the cleaning passes produce. The methods in `DbUpdater` do the work step
by step, as the Python does. Their postconditions tie the outputs and the new
`hexmatcher` to those functions. The lemmas prove what those functions
promise:

- consecutive, distinct hex IDs
- country-record IDs running on from row to row
- the last row filed under a key winning
- the first matching suffix winning
- the join between an estimate label and a decision key

A cell is `Num(real)`, `Str(string)` or `Empty`. Python compares an `int` and
a `float` by value, so a `real` keeps `1 == 1.0`. `Empty` is `None`.

The cell rule is not idempotent as written, although it is sometimes described
as idempotent. Its equality tests run before the strip, so `" 1"` becomes the
string `"1"` on a first pass, and only a second pass turns that into the
number 1. The model follows the code. `Cells.NormaliseIdempotentExceptPaddedOne`
proves exactly which cells the rule is idempotent on, and
`Cells.PaddedOneNotIdempotent` shows the counterexample.

## Model

| member | source | states |
|---|---|---|
| `Text.Strip` | data/db_updater.py:186-187 | the result has no surrounding whitespace (Python's whitespace set), and `s` is the result padded with whitespace on both sides |
| `Text.StripIdempotent` | data/db_updater.py:273-274 | stripping a stripped string changes nothing |
| `Text.Contains` | data/db_updater.py:192 | `p in s` can only hold when `p` is no longer than `s` |
| `Text.ContainsOccurs` | data/db_updater.py:192 | `p in s` holds exactly when `p` occurs in `s` at some position |
| `Text.RemoveAll` | data/db_updater.py:193 | `replace(p, '')` never lengthens a string |
| `Text.RemoveAllAbsent` | data/db_updater.py:193 | `replace(p, '')` leaves a string without `p` unchanged |
| `Text.RemoveAllShortens` | data/db_updater.py:193 | when `p` occurs in `s`, `replace(p, '')` shortens `s` by at least the length of `p` |
| `Text.RemoveLeftmost` | data/db_updater.py:193 | the leftmost occurrence of `p` is deleted, the text before it is kept, and the rest is processed in the same way |
| `Text.RemoveTrailing` | data/db_updater.py:193-208 | when a suffix occurs only at the end of `a + p`, `replace` gives back `a` |
| `Text.Hex` | data/db_updater.py:253 | `hex(n)[2:]` is non-empty, uses only lowercase hex digits and has no leading zero |
| `Text.HexRoundTrip` | data/db_updater.py:253 | reading `hex(n)[2:]` back as hexadecimal gives `n` |
| `Text.HexInjective` | data/db_updater.py:253 | different numbers get different hex strings |
| `Cells.Truthy` | data/db_updater.py:151-152 | a cell is falsy exactly when it is 0, the empty string or `None` |
| `Cells.Normalise` | data/db_updater.py:181-187 | "0 " becomes 0, "1" becomes 1, any other string is stripped, and a non-string is unchanged; conversely, a number that came from a string came from "0 " or "1", and a string result is the strip of a string other than those two |
| `Cells.NormaliseIdempotentExceptPaddedOne` | data/db_updater.py:181-187 | applying the rule twice equals applying it once, exactly for cells other than strings (not "1") that strip to "1" |
| `Cells.PaddedOneNotIdempotent` | data/db_updater.py:181-187 | " 1" becomes "1" after one pass and the number 1 after two |
| `Cells.NormaliseCells` | data/db_updater.py:268-276 | the in-place loop leaves the row the same length with every cell replaced by its normalised value |
| `Sheets.ZeroFalsy` | data/db_updater.py:151 | replacing falsy cells by 0 keeps the row's length |
| `Sheets.ZeroFalsyCells` | data/db_updater.py:151-152 | a truthy cell is kept, a falsy cell becomes 0, and a row has a truthy cell exactly when its zero-filled copy does |
| `Sheets.SheetToList` | data/db_updater.py:137-160 | the result holds the zero-filled copies of the rows before the first row with no truthy cell, every one of those rows has data, and that row and all later rows are dropped |
| `Suffixes.CategorizeFrom` | data/db_updater.py:192-211 | a label the chain files under no category keeps its text |
| `Suffixes.Categorize` | data/db_updater.py:192-211 | a label the chain files under no category keeps its text |
| `Suffixes.CategorizeShortens` | data/db_updater.py:192-211 | the chain never lengthens a label, and a label it files under a category is shortened, except "Milk productivity" |
| `Suffixes.FirstRuleWins` | data/db_updater.py:192-209 | when rule `i` is the first whose suffix occurs, the label gets that rule's category and every occurrence of the suffix present in it, left to right, is deleted |
| `Suffixes.FirstRuleWinsFrom` | data/db_updater.py:192-209 | started at rule `from`, the chain passes over the rules before the first one whose suffix occurs |
| `Suffixes.NoRuleFiresFrom` | data/db_updater.py:192-211 | started at rule `from` with none of the remaining suffixes present, the chain reaches the exact-label rule |
| `Suffixes.NoRuleFires` | data/db_updater.py:192-211 | with no suffix present the label is unchanged, and only "Milk productivity" gets a category ("Large ruminants") |
| `Suffixes.AllLivestockBeforeLargeRuminants` | data/db_updater.py:192-197 | a label with the all-livestock suffix also has the large-ruminants one, and gets "All livestock" because that rule is tested first |
| `Suffixes.NoDashNoSuffix` | data/db_updater.py:192-209 | a label without a '-' matches no rule |
| `Suffixes.MilkProductivity` | data/db_updater.py:210-211 | "Milk productivity" keeps its text and gets "Large ruminants" |
| `Suffixes.StemWithSuffix` | data/db_updater.py:192-209 | a dash-free stem followed by one suffix, with no earlier suffix present, becomes the stem with that suffix's category |
| `Suffixes.MilkProductivityCows` | data/db_updater.py:204-211 | "Milk productivity - cows" becomes "Milk productivity" with category "Cows", because the suffix rules run before the exact-label rule |
| `Counters.IdCounter.constructor` | data/db_updater.py:240 | a new counter starts at 1 |
| `Counters.IdCounter.Next` | data/db_updater.py:241-245 | returns the current number and advances by one |
| `Counters.HexCounter.constructor` | data/db_updater.py:249-250 | a hex counter owns a fresh ID counter starting at 1 |
| `Counters.HexCounter.Next` | data/db_updater.py:251-253 | returns the current number in lowercase hex and advances its own counter by one |
| `Decisions.InstrumentCountIsLength` | data/db_updater.py:26-50 | the 25 records per row are one per entry of `INSTRUMENTS` |
| `Decisions.DecisionRecord` | data/db_updater.py:265-280 | a decision record has 16 cells: the hex ID, then the 15 stub cells normalised, with the row's key at index 1 |
| `Decisions.CountryRecord` | data/db_updater.py:282 | a country-decision record has 4 cells |
| `Decisions.DecisionRecords` | data/db_updater.py:262-280 | one decision record per data row, in order, row `j` carrying the hex ID of `j + 1` |
| `Decisions.CountryRecords` | data/db_updater.py:281-282 | 25 records per data row, every one 4 cells long |
| `Decisions.CountryRecordAt` | data/db_updater.py:257-282 | record `25j + i` pairs row `j` with instrument `i` and has ID `25j + i + 1`: the counter is never reset between rows |
| `Decisions.CountryIdsConsecutive` | data/db_updater.py:281-282 | record `k` has ID `k + 1`, instrument `k mod 25`, the raw (not normalised) cell of that instrument, and the key of row `k div 25` |
| `Decisions.DecisionIdReadsBack` | data/db_updater.py:247-260 | row `j`'s hex ID reads back as `j + 1` |
| `Decisions.DecisionIdsDistinct` | data/db_updater.py:247-260 | different rows get different hex IDs |
| `Decisions.Key` | data/db_updater.py:279 | the key a row is filed under is the cell at index 1 of its cleaned stub once the hex ID is in front |
| `Decisions.Registered` | data/db_updater.py:279 | filing keeps every earlier key and adds every filed key |
| `Decisions.RegisteredLastWins` | data/db_updater.py:279 | after filing, a key maps to the hex ID of the last row carrying it |
| `Decisions.RegisteredUntouched` | data/db_updater.py:279 | a key no row carries keeps its earlier entry, or stays absent |
| `Decisions.RegisteredEntries` | data/db_updater.py:279 | every entry after filing was there before, or is a filed key with the ID of a row carrying it |
| `Estimates.Lookup` | data/db_updater.py:213-219 | a known label gives the hex ID the table holds for it, an unknown one gives "NA" |
| `Estimates.Reported` | data/db_updater.py:213-218 | a label is only printed when it is unmatched |
| `Estimates.Report` | data/db_updater.py:213-218 | at most one line is printed for a label, and the label is printed exactly when it is unmatched and names no Kharif or Rabi season |
| `Estimates.Diagnostics` | data/db_updater.py:176-218 | at most one line is printed per data row |
| `Estimates.EstimateRecord` | data/db_updater.py:177-220 | an estimate record is two cells longer than the raw row, starts with the row index `r`, and holds at index 1 the hex ID filed under the label, or "NA" |
| `Estimates.CleanedRow` | data/db_updater.py:179-211 | a cleaned row is one cell longer than the raw row, starts with the row index, and holds the label as the suffix chain leaves it at index 6 |
| `Estimates.CleanedRowSteps` | data/db_updater.py:179-211 | inserting the index, applying the cell rule to every cell, overwriting the label and, when there is a category, overwriting the crop cell gives the cleaned row: raw cell `k` at `k + 1`, normalised, except the label and crop cells |
| `Estimates.EstimateRecords` | data/db_updater.py:176-221 | one record per data row |
| `Estimates.EstimateRecordsAt` | data/db_updater.py:176-221 | record `r` is the estimate record of data row `r` with index `r`, so the records keep the input order |
| `Estimates.Labels` | data/db_updater.py:192-211 | one label per data row |
| `Estimates.LabelsAt` | data/db_updater.py:192-211 | label `r` is the text the suffix chain leaves for data row `r` |
| `Estimates.ReportsAppend` | data/db_updater.py:213-218 | the lines printed for a list of labels and one more label are those for the list followed by those for the label |
| `Estimates.ReportsAreReportedNames` | data/db_updater.py:213-218 | a label is printed for a list of labels exactly when it is in the list, is unmatched, and names no Kharif or Rabi season |
| `Estimates.DiagnosticsOfLabels` | data/db_updater.py:176-218 | the lines printed while cleaning the first `n` rows are those printed for their labels, in row order |
| `Estimates.DiagnosticsAreReportedLabels` | data/db_updater.py:213-218 | a label is printed for the first `n` rows exactly when one of those rows has it after the suffix chain, it is unmatched, and it names no Kharif or Rabi season |
| `Estimates.EstimateFindsDecision` | data/db_updater.py:213-214 | after the decision rows are filed, an estimate whose label is the key of decision row `j` (and of no later row) carries the hex ID of `j + 1` |
| `Estimates.EstimateWithoutDecision` | data/db_updater.py:213-219 | an estimate whose label neither the decision rows nor the earlier table know carries "NA" |
| `DbUpdater.Table.constructor` | data/db_updater.py:166 | a row list holds the rows it is given |
| `DbUpdater.Updater.constructor` | data/db_updater.py:63 | the module starts with an empty `hexmatcher` and nothing printed |
| `DbUpdater.Updater.CleanDecisions` | data/db_updater.py:224-283 | drops the header from the list, returns exactly the decision and country-decision records of the data rows, files every row's key under its hex ID in `hexmatcher`, and prints nothing |
| `DbUpdater.Updater.CleanDecisionRow` | data/db_updater.py:265-282 | one pass builds the row's decision record with the hex counter's current ID, files its key, appends its 25 country records, and advances the counters by 1 and 25 |
| `DbUpdater.Updater.EmitCountryRecords` | data/db_updater.py:281-282 | the inner loop appends the row's 25 country records, numbered from the ID counter's current value |
| `DbUpdater.CleanRow` | data/db_updater.py:179-211 | inserting the index, the cell clean-up loop and the suffix chain turn the raw row into its cleaned row |
| `DbUpdater.Updater.CleanEstimateRow` | data/db_updater.py:177-220 | one pass turns the raw row into its estimate record and prints the label exactly when it is unmatched and names no season |
| `DbUpdater.Updater.CleanNext` | data/db_updater.py:177-220 | one pass of the loop moves the next data row from the raw part of the list to the cleaned part, appends the same record to the output, and adds that row's diagnostic to what has been printed |
| `DbUpdater.Updater.CleanBody` | data/db_updater.py:177-221 | the loop leaves the list holding, and returns, the estimate records of the data rows in input order, and prints their diagnostics in row order |
| `DbUpdater.Updater.CleanEstimates` | data/db_updater.py:166-221 | drops the header, returns the estimate records of the data rows in input order, leaves the list holding those same records, prints the diagnostics in row order, and does not change `hexmatcher` |

## Left out

- `read_csv`, `write_csv` and `sheet_to_csv` (data/db_updater.py:68-103) go through the `csv` module. Its conversion of unquoted fields to `float` is library behaviour and is not modelled.
- `extract_sheets` and `excel_extraction` (data/db_updater.py:109-133, 288-291) load the workbook through openpyxl. `Sheets.SheetToList` takes the worksheet's rows of values as its parameter instead.
- `downloader`, `full_update`, `construction_cleaning`, `estimates_cleaning` and the command line (data/db_updater.py:293-353) do network and file I/O, run `psql` and parse arguments. Only their order matters to the model: decisions are filed before estimates are cleaned. `Estimates.EstimateFindsDecision` and `Estimates.EstimateWithoutDecision` state what that order gives.
- The progress `print` in `sheet_to_list` (data/db_updater.py:148-149) is console output only.
- The diagnostic `print` in `clean_estimates` is modelled as an entry appended to `DbUpdater.Updater.log`. Nothing is written to standard output.
- Python faults appear as preconditions, not as exceptions:
  - `pop(0)` on an empty list
  - a decision row shorter than 40 cells (`row[i+15]`)
  - an estimate row shorter than 6 cells, or shorter than 8 cells when a category is set
  - an indicator cell that is not a string after the cell rule (`in` on a number)
- Booleans and dates that openpyxl can yield are not among the cell kinds. Floats are exact reals, so rounding and NaN are not modelled.
- Object identity is not modelled. `clean_estimates` changes the row objects in place, so the input list and the returned list share them. The model gives both the same row values.
- `sheet_to_list` builds its result by appending to `c[i]` in place. The model appends to a copy of `c[i]` and writes it back.
- The suffix chain's `if`/`elif` ladder is written as a walk over the table `Suffixes.Rules`, rule by rule, in the same order. It has the same tests and the same actions, and it falls through to the exact-label test for "Milk productivity" as the ladder's last `elif` does.
- Text.RemoveAll: its own contract only bounds the length. What it deletes is stated by `Text.RemoveAllAbsent`, `Text.RemoveAllShortens` and `Text.RemoveLeftmost`. Substring facts in its contract would be re-examined at every use of the suffix chain.
- Text.Contains: its own contract only says that a match fits in the string. That `in` means "occurs at some position" is stated by `Text.ContainsOccurs`, for the same reason.
