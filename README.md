# Insulin-pump settings analyzer: upload check, table cleaning, settings collection

This project models the three deterministic pieces of the analyzer's request handler (`main.py`). The handler takes a zip of pump and CGM exports and a 24-hour settings form, and sends both to a language model for a recommendation.

- **Upload-name check** (module `Upload`). A file name is accepted when it contains a dot and the text after the last dot, lower-cased, is in the allowed set `{"zip"}`. `AllowedFileIff` proves this is the same as "ends in a dot followed by three characters that lower-case to `zip`". So `a.ZIP` and `x.tar.zip` pass, while `a.zip.txt` and `zip` do not.
- **Table cleaning** (modules `Tables` and `Cleaning`). A loaded table is a header of distinct column names plus rows as wide as the header. The CSV loader renames repeated column names, which is why the names are distinct. Cleaning works like this:
  - alarms lose their last column, then every row whose `Alarm/Event` cell is one of four codes;
  - CGM readings lose their last column;
  - bolus records lose their last three columns;
  - basal records lose their last two columns and then the `Percentage (%)` column.
  
  A named column that is missing is an error (`MissingColumn`), as the original's `KeyError` is. The alarms are cleaned first, so their error is the one reported.
- **Settings collection** (module `Settings`). A loop over hours 0 to 23 builds one record per hour from the submitted form:
  - `time_range` is the hour padded to two digits, followed by `:00`;
  - correction factor and carb ratio are the form's text, or `"1:3.0"` and `"1:10"` when the key is absent;
  - basal rate and target BG go through a number parser, or are `0` and `5.6` when the key is absent.
  
  The parser is a parameter. A value it rejects ends the collection with an `InvalidSettingValue` error for the first such field, and within an hour the basal rate is parsed before the target.

Column slicing follows Python's slice rules. `[:-k]` keeps the first `n - k` columns when `0 < k <= n`. It keeps none when `k > n`, and none when `k == 0` because `-0` is `0`. Row filtering keeps rows in their original order. `KeepRowsSelects` proves that the result is the input at a strictly increasing list of positions, and that a position is on the list exactly when its row's cell is not excluded.

## Model

| member | source | states |
|---|---|---|
| `Upload.LastIndexOf` | main.py:83 | the result is absent exactly when the character does not occur; otherwise it is an occurrence with no other occurrence after it |
| `Upload.Extension` | main.py:83 | the second part of `rsplit('.', 1)` is a suffix of the name, directly preceded by a dot, that holds no dot |
| `Upload.AllowedFileIff` | main.py:82-83 | `AllowedFile` (`'.' in name` and the lower-cased `Extension` in `{"zip"}`) accepts a name if and only if it ends in `.` followed by three characters that lower-case to `zip` |
| `Upload.AllowedFileExamples` | main.py:82-83 | `a.ZIP` and `x.tar.zip` are accepted; `a.zip.txt` and `zip` are rejected |
| `Tables.IndexOf` | main.py:101 | column lookup by name: absent exactly when the name is not in the header, else the first position holding that name |
| `Tables.SliceStopIsPyStop` | main.py:100 | `SliceStop(n, k)`, the stop used by `DropLast`, equals `PyStop(n, -k)`, Python's slice-stop rule (a negative stop counts from the end, floored at 0; any other stop is capped at `n`) |
| `Tables.DropLast` | main.py:100-104 | `iloc[:, :-k]` keeps a well-formed table, the header prefix of length `SliceStop(n, k)`, the same number of rows, and each row cut to that prefix |
| `Tables.DropLastKeepsCells` | main.py:100-104 | every column kept by `iloc[:, :-k]` holds the same cells, row by row, as in the input |
| `Tables.DropColumn` | main.py:104 | `drop(columns=[name])` succeeds exactly when the column exists, else fails with `MissingColumn(name)`; the result is well formed, has one column fewer, the same number of rows, no column `name`, and every other column in its original order, each row losing the cell at the removed position |
| `Tables.DropColumnKeepsCells` | main.py:104 | after `drop(columns=[name])` every other column holds, row by row, the cells it held before |
| `Tables.KeepRows` | main.py:101 | every kept row is a row of the input whose cell in the tested column is not excluded; no more rows than the input |
| `Tables.KeepRowsAt` | main.py:101 | the kept rows are the input rows at the positions `KeptIndices` lists |
| `Tables.KeptIndicesExact` | main.py:101 | the listed positions are strictly increasing, and a position is listed exactly when its row is not excluded |
| `Tables.KeepRowsSelects` | main.py:101 | `isin` filtering keeps exactly the non-excluded rows, each once, in their original relative order |
| `Tables.FilterRows` | main.py:101 | filtering by a named column succeeds exactly when the column exists; the header is unchanged; the rows are the input at strictly increasing positions, and a position is kept exactly when its cell in that column is not excluded |
| `Cleaning.CleanCgm` | main.py:102 | CGM cleaning removes exactly the last column and keeps the rows' number and order, each row cut to the remaining columns |
| `Cleaning.CleanBolus` | main.py:103 | bolus cleaning removes exactly the last three columns (all of them when there are fewer) and keeps the rows' number and order |
| `Cleaning.CleanAlarmsSpec` | main.py:93-101 | alarm cleaning (`CleanAlarms`) succeeds if and only if `Alarm/Event` is among the first `n - 1` columns; the result has one column fewer, no row with one of the four excluded codes, and every other raw row in its original order with its cells unchanged |
| `Cleaning.CleanBasalSpec` | main.py:104 | basal cleaning (`CleanBasal`) succeeds if and only if `Percentage (%)` is among the first `n - 2` columns; the result has three columns fewer, no `Percentage (%)` column, the first `n - 2` columns without `Percentage (%)` in their original order, the same number of rows, and every other column's cells unchanged |
| `Cleaning.CleanAlarmsExample` | main.py:93-101 | an alarms table with one excluded and one other alarm keeps only the other row |
| `Cleaning.ProcessDataFiles` | main.py:93-106 | cleaning the four tables succeeds if and only if the alarms and the basal cleaning both succeed; an alarms failure is the one reported, and a basal failure is reported when the alarms succeed; on success it returns the four cleaned tables |
| `Settings.NatToString` | main.py:180-183 | `str(n)` is a non-empty string of decimal digits, one digit exactly when `n < 10`, with no leading zero otherwise |
| `Settings.NatToStringRoundTrip` | main.py:180-183 | reading back the decimal text of `n` gives `n` |
| `Settings.FieldKeyInjective` | main.py:180-183 | two hours never read the same form key for a field |
| `Settings.TimeRangeFormat` | main.py:179 | for each hour 0 to 23, `TimeRange(i)`, the model of `f"{i:02d}:00"`, is five characters: two digits that read back as the hour, then `:00` |
| `Settings.TimeRangeInjective` | main.py:179 | different hours get different time ranges |
| `Settings.CollectSettings` | main.py:176-184 | on success: exactly 24 records, record `h` is hour `h`'s `HourRecord` (built from `NumberField` and `TextField`, the models of `float(form.get(...))` and `form.get(...)`), text fields are the form value when present and the default when absent, and absent numbers take their defaults; on failure: the error is that of the first hour with a rejected number |
| `Settings.CollectedInHourOrder` | main.py:176-184 | in a full collection, record `h`'s time range reads back as hour `h`, so the records are in ascending hour order |

## Left out

- Loading the CSV files (`read_csv` with the banner line skipped), saving the upload and extracting the zip: these are file-system and parsing-library I/O. The model starts from parsed tables whose cells are strings.
- The web routes, HTML form, CSS, prompt text, JSON and table rendering, and the language-model call: these are framework plumbing, library formatting and a network client.
- `float()` is the `parse` parameter of `CollectSettings`, and numbers are reals rather than binary floats. The defaults `0` and `5.6` are numbers in the original and are taken without parsing. In the original, a rejected value raises an uncaught `ValueError`; here it is an `InvalidSettingValue` result.
- `str.lower()` is modelled as ASCII lower-casing. No non-ASCII character lower-cases to exactly `z`, `i` or `p`, so acceptance is unaffected.
- The table index that pandas keeps after filtering, and column data types: cells are compared as strings. A missing cell (NaN) is never in the exclusion list, and an empty string cell is not either.
- The form is modelled as one value per key; repeated keys in a submission are not modelled.
- No basal sort by timestamp: this revision of `main.py` does not sort.
