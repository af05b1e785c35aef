# Eurostat table pipeline: a Dafny model of the transform chain

The pipeline downloads three Eurostat datasets as tab-separated files and caches them by path. For each dataset it then:

- fills the missing cells with 0;
- trims and lowercases the column labels;
- strips the footnote markers `b` (break in series) and `p` (provisional) from the 2020–2022 columns of the greenhouse-gas table;
- turns the wide table (entities as rows, years as columns) into a long one (years as rows) by transposing it and promoting the first transposed row to the header;
- keeps the rows for the years 2014–2022.

This project models that chain as pure functions on an immutable table value, and the download cache as one transition on an abstract file store. It proves what each step guarantees.

Modules, one per step, in pipeline order:

- `Tables` (tables.dfy): the table datatype `Table<T>(header, rows)`, raw cells `Missing | Present(text)`, and pandas' column selection `df[name]` with its two failure modes.
- `Text` (text.dfy): Python's `strip()`, `lower()` and `replace(c, '')` on strings.
- `Normalize` (normalize.dfy): `fillna(0)` and the column-label rewrite.
- `Clean` (clean.dfy): `clean_columns`.
- `Reshape` (reshape.dfy): `transpose_and_set_index`, with its inverse.
- `RangeFilter` (range_filter.dfy): the `isin(years_range)` row filter.
- `Fetch` (fetch.dfy): `download_file` on a `map<path, bytes>` store, with the network as a parameter.
- `Pipeline` (pipeline.dfy): the composed chain `Process` and what a successful run guarantees.

Cells are text. A filled cell holds `"0"`, which is how the 0 that `fillna` stores reads back in a text column. In a float column pandas stores 0.0, which reads back as `"0.0"`; the model does not make that distinction. Python exceptions become a `Result` failure: `KeyError`, selecting a repeated label (which gives a frame with no `.str` accessor), `IndexError`, and `reset_index` onto an existing `year` column.

Three consequences of the code are worth stating:

- With zero data rows the reshape keeps the `year` column, one row per label after the first.
- The filter keeps input order and does not sort.
- The reshaped header is `year` followed by the first column's values.

## Model

| member | source | states |
|---|---|---|
| Normalize.FillMissing | project/pipeline.py:59-63 | fillna(0): header and shape unchanged, every present cell keeps its text, every missing cell becomes "0", so no cell is missing afterwards |
| Normalize.FillMissingComplete | project/pipeline.py:61-63 | on a table with no missing cell the fill gives back exactly the original text (fill inverts the lifting of text to cells) |
| Text.Strip | project/pipeline.py:67-69 | strip(): neither end of the result is whitespace |
| Text.StripCuts | project/pipeline.py:67-69 | strip() only cuts: the result is a contiguous slice of the label and everything removed from either side is whitespace |
| Text.Lower | project/pipeline.py:67-69 | lower(): same length, no uppercase letter left, and a character changes exactly when it is an uppercase letter (ASCII) |
| Text.NormalizeName | project/pipeline.py:67-69 | a rewritten label has no leading or trailing whitespace and no uppercase letter |
| Text.NormalizeNameFixpoint | project/pipeline.py:67-69 | a label is unchanged by strip-and-lower exactly when it is already normal (both directions) |
| Text.NormalizeNameIdempotent | project/pipeline.py:67-69 | rewriting a label twice equals rewriting it once |
| Normalize.NormalizeHeader | project/pipeline.py:67-69 | the label list keeps its length and order, each label rewritten in place and left normal |
| Normalize.NormalizeColumns | project/pipeline.py:67-69 | assigning the rewritten labels leaves every row unchanged |
| Normalize.NormalizeHeaderFixpoint | project/pipeline.py:67-69 | a header is a fixed point of the rewrite exactly when every label is already normal |
| Normalize.NormalizeHeaderIdempotent | project/pipeline.py:67-69 | normalising an already normalised header changes nothing |
| Text.RemoveChar | project/pipeline.py:74 | str.replace(c, ''): no occurrence of c remains, every other character keeps its count, text without c is unchanged |
| Text.StripMarkers | project/pipeline.py:74 | the two replaces leave no 'b' or 'p' and keep the count of every other character |
| Text.StripMarkersKeepsNonMarkers | project/pipeline.py:74 | replacing 'b' then 'p' equals a single pass that keeps exactly the non-marker characters in their original order |
| Text.StripMarkersNoMarkers | project/pipeline.py:74 | stripping is a no-op on text that holds no marker |
| Text.StripMarkersIdempotent | project/pipeline.py:74 | stripping twice equals stripping once |
| Tables.ColumnIndex | project/pipeline.py:74 | df[name] selects a single column exactly when the label occurs once; KeyError when it is absent; a frame, not a column, when it is repeated |
| Clean.CleanColumns | project/pipeline.py:72-75 | clean_columns: cleans the named columns in order and stops at the first one that cannot be selected; on success the header is unchanged. Its guarantees are stated by Clean.CleanColumnsSucceeds, Clean.CleanColumnsError, Clean.CleanColumnsCells and Clean.CleanColumnsIdempotent |
| Clean.CleanColumn | project/pipeline.py:74 | cleaning one column strips the markers from its cells and leaves the header, the row count and every other column unchanged |
| Clean.CleanColumnsSucceeds | project/pipeline.py:72-75 | clean_columns succeeds exactly when every named column exists and is not repeated |
| Clean.CleanColumnsError | project/pipeline.py:72-75 | on failure the error is that of the first named column that cannot be selected |
| Clean.CleanColumnsCells | project/pipeline.py:72-75 | on success the header and row count are unchanged, cells of named columns are marker-stripped and all other cells are untouched |
| Clean.CleanColumnsIdempotent | project/pipeline.py:72-75 | cleaning the same columns a second time changes nothing |
| Clean.CleanColumnsNoMarkers | project/pipeline.py:72-75 | when the named columns hold no marker the table comes back unchanged |
| Reshape.TransposeAndSetIndex | project/pipeline.py:82-88 | fails with `IndexError` on a table with no columns (`iloc[0]`), and with `DuplicateColumn` (the ValueError `reset_index` raises) when `year` is among the first column's values; otherwise yields C-1 rows, header `year` plus the first column's values in order, the `year` column lists the labels 1..C-1, and output row i, column j+1 is original row j, column i+1 |
| Reshape.TransposeNoRows | project/pipeline.py:83-87 | with no data rows only the `year` column remains, one row per label after the first |
| Reshape.TransposeRoundTrip | project/pipeline.py:82-88 | reversing the reshape with the original first label restores the original table; the model's reshaped table holds every other label and every cell, but has no place for that first label |
| RangeFilter.FilterRows | project/pipeline.py:95-98 | every kept row has its year in 2014..2022 and came from the input; every input row with an in-range year is kept; with no match the result is empty |
| RangeFilter.FilterRowsAppend | project/pipeline.py:96-98 | filtering distributes over concatenation, so the kept rows stay in input order |
| RangeFilter.FilterYears | project/pipeline.py:94-98 | succeeds exactly when a single `year` column exists; the header is unchanged and the rows are the filtered ones |
| RangeFilter.FilterBound | project/pipeline.py:95-98 | rows with distinct years keep at most as many in-range rows as there are in-range years |
| RangeFilter.FilterYearsAtMostNine | project/pipeline.py:95-98 | when the year labels are distinct at most nine rows remain |
| Fetch.DownloadFile | project/pipeline.py:37-45 | an existing path is skipped with no request and no change; otherwise one request; an HTTP 4xx/5xx status or no response fails and leaves the store unchanged with no file; an accepted reply stores its body at the path |
| Fetch.DownloadTwice | project/pipeline.py:37-45 | after a call that did not fail, a second call for the same path is a no-op, so two calls issue one request in all when the path was absent and none when it was present |
| Pipeline.Process | project/pipeline.py:59-98 | the per-dataset chain: fill, label rewrite, clean_columns, transpose_and_set_index, year filter; its guarantees are stated by Pipeline.ProcessYears, Pipeline.ProcessAtMostNine and Pipeline.ProcessCleansYears |
| Pipeline.YearColumnOfReshaped | project/pipeline.py:86-87 | a reshaped table has exactly one `year` column, at position 0, so the filter can select it |
| Pipeline.ReshapeThenFilter | project/pipeline.py:82-98 | reshaping then filtering always succeeds, keeps the header and yields rows whose year is in range and is one of the original labels after the first |
| Pipeline.ProcessYears | project/pipeline.py:59-98 | a successful run yields a well-formed table led by `year` whose rows carry in-range years taken from the normalised labels |
| Pipeline.ProcessAtMostNine | project/pipeline.py:59-98 | if the normalised labels are distinct, a run keeps at most nine rows |
| Pipeline.CleanedYearsFiltered | project/pipeline.py:72-98 | after cleaning, reshaping and filtering, every kept row whose year was a cleaned column holds no marker in its data cells |
| Pipeline.ProcessCleansYears | project/pipeline.py:59-98 | after a run, the kept rows for the cleaned years hold no 'b' or 'p' marker |
| Pipeline.GreenhouseGasYearsClean | project/pipeline.py:78-79 | the greenhouse-gas run, which cleans the 2020-2022 columns, leaves no marker in its 2020-2022 rows |

## Left out

- Network and file access are left out: `requests.get`, reading the tab-separated file with `pd.read_csv` (tab delimiter, ISO-8859-1) and `os.makedirs`. The network is the `network` parameter of `DownloadFile`, the disk is the abstract `Store`, and a table arrives already parsed.
- `save_to_excel` and `save_to_sqlite` (project/pipeline.py:101-121) are writes through foreign libraries. Their delete-then-write amounts to replacing the artifact at a path.
- `open_files` and `webbrowser` (project/pipeline.py:130-151) are presentation side effects.
- The module-level script (project/pipeline.py:48-127) runs the steps at import time and prints progress. `Pipeline.Process` composes the same steps for one table and does not print.
- project/test_pipeline.py imports a `save_to_csv` that the pipeline does not define. It checks only I/O outcomes.
- Pandas dtypes are not modelled. This covers whether `fillna` stores 0 or 0.0 (it depends on the column's dtype) and how `astype(str)` formats non-text cells. Cells are text, and a filled cell is `"0"`.
- Text.Strip: only ASCII whitespace is stripped (space, \t through \r, \x1c through \x1f). Python's `strip()` also removes Unicode whitespace.
- Text.Lower: only ASCII A–Z is lowercased. The labels are read as ISO-8859-1, so the capitals Python's `lower()` would also change are the Latin-1 letters À–Ö and Ø–Þ.
- The reshaped frame's column-axis name and the filtered frame's row index are not modelled. pandas keeps the original first column's label as the name of the new column index (project/pipeline.py:84-87), and the filter keeps the original, non-consecutive row positions (project/pipeline.py:96). A model table has only labels and rows. Neither piece reaches the outputs, which are written with `index=False`.
- Fetch.DownloadFile: an error while opening or writing the file is not modelled. Nor is a partly written file.
- RangeFilter.FilterYears: when several columns are labelled `year`, pandas masks cells instead of selecting rows. The model reports a failure. A reshaped table never has a repeated `year` label (Pipeline.YearColumnOfReshaped).
