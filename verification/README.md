# Data Sweeper — a Dafny model of the per-file table pipeline

Data Sweeper is a small Streamlit page. It takes uploaded CSV and Excel files and handles each one
on its own. A file is routed by its extension and read into a table. It can then be cleaned
(exact duplicate rows removed, missing numeric cells filled with the column mean) and narrowed to
a chosen list of columns. The first two numeric columns are charted, and the table is offered for
download as CSV or Excel under a derived name.

This project models that pipeline in Dafny and proves properties of it. The model is functional:
immutable datatypes and pure functions, plus one method for the loop over the uploads.

| file | module | what it holds |
|---|---|---|
| `results.dfy` | `Results` | `Result` and `Option` |
| `seqs.dfy` | `Seqs` | positions satisfying a predicate, picking positions, distinctness |
| `file_names.dfy` | `FileNames` | `os.path.splitext` (posix), lower-casing, routing by extension, download name and MIME type |
| `tables.dfy` | `Tables` | `Cell`, `Kind`, `Column`, `Table`, well-formedness, rows |
| `duplicates.dfy` | `Duplicates` | `drop_duplicates()` with keep-first |
| `missing_values.dfy` | `MissingValues` | mean filling of numeric columns |
| `projection.dfy` | `Projection` | `df[columns]` and the chart's numeric-column slice |
| `pipeline.dfy` | `Pipeline` | one upload through one run of the page, and the batch loop |

A table is an ordered sequence of named columns. Each column has a declared kind (`Numeric` or
`NonNumeric`) and a sequence of cells (`Missing | Num(real) | Text(string) | Bool(bool)`). All
columns have the table's `height`, which a table keeps even when it has no columns. A numeric
column holds only numbers and missing markers, and column names are unique (`WellFormed`). The
readers and writers are function parameters (`Reader`, `Writer`): the model never parses or
encodes bytes. A reader returns either a well-formed table or a message.

In these cases the model follows what the code does:
- A name whose only dot is a leading one, such as `.csv`, has no extension under `splitext`. Such a file is reported as unsupported (`DetectFormatExampleDotFile`).
- The code does not keep a cleaned table between interactions. Every run of the page re-reads the file and applies only the controls of that run. `ProcessFile` models one such run.
- In the code, the column chooser only offers the current columns. An unknown name is still modelled, as a file-scoped `SelectionError`, because `df[columns]` raises on one.

## Model

| member | source | states |
|---|---|---|
| FileNames.RFind | app.py:40 | the position of the last occurrence of a character, or -1 when it does not occur; nothing after it is that character |
| FileNames.SplitExt | app.py:40 | base ++ extension == name; the extension is empty or is a dot followed by no further dot and no separator, i.e. it starts at the last dot |
| FileNames.SplitExtHasExtension | app.py:40 | the extension is non-empty exactly when the last path component has a dot after some character other than a dot (leading dots do not start an extension) |
| FileNames.SplitExtAppend | app.py:91 | a base ending in a name character, followed by a dot-extension, splits back into exactly that base and that extension |
| FileNames.Lower | app.py:40 | lower-casing keeps the length, turns each ASCII capital into its small letter and leaves every other character as it is |
| FileNames.SplitExtLower | app.py:40 | lower-casing a name splits it at the same place, so the lower-cased extension is the extension of the lower-cased name |
| FileNames.DetectFormat | app.py:40-50 | a file is routed only when its lower-cased extension is ".csv" or ".xlsx", to the matching format; otherwise it is unsupported and the error carries the lower-cased extension |
| FileNames.DetectFormatCaseInsensitive | app.py:40 | routing gives the same answer for a name and its lower-cased form |
| FileNames.DetectFormatRecognises | app.py:44-47 | any name ending in ".csv" or ".xlsx", in any mix of cases, after a name character, is routed to that format |
| FileNames.DetectFormatExampleUpper | app.py:44-45 | "Sales.CSV" is read as CSV |
| FileNames.DetectFormatExampleMixed | app.py:46-47 | "q3.XlSx" is read as Excel |
| FileNames.DetectFormatExampleText | app.py:48-50 | "data.txt" is unsupported, and the error carries ".txt" |
| FileNames.DetectFormatExampleDouble | app.py:48-50 | "archive.csv.gz" splits into "archive.csv" and ".gz", and is unsupported: only the last extension counts |
| FileNames.DetectFormatExampleDotFile | app.py:40-50 | a file named ".csv" has no extension and is unsupported |
| FileNames.DetectFormatExampleBare | app.py:40-50 | a file named "csv" has no extension and is unsupported |
| FileNames.DownloadName | app.py:91-100 | the download name splits back into the upload's base followed by "_cleaned", and the target format's extension |
| FileNames.MimeType | app.py:93-100 | a CSV download is announced as "text/csv" and only a CSV one; an Excel download as the Office Open XML spreadsheet type and only an Excel one |
| FileNames.MimeTypeIdentifiesFormat | app.py:95-100 | two targets share a MIME type exactly when they are the same format |
| FileNames.DownloadNameRoundTrip | app.py:91-100 | the download name splits into the upload's base plus "_cleaned" and the target's extension, so it is routed back to the target format |
| Duplicates.FirstOccurrences | app.py:66 | the kept positions are increasing and are exactly those whose value has no earlier equal value |
| Duplicates.HasFirstOccurrence | app.py:66 | every value has a first occurrence at or before any of its positions |
| Duplicates.DedupSeqDistinct | app.py:66 | no two kept values are equal |
| Duplicates.DedupSeqSameValues | app.py:66 | every value survives deduplication, and nothing else appears |
| Duplicates.DedupSeqIdempotent | app.py:66 | deduplicating a sequence twice equals deduplicating it once |
| Duplicates.FirstOccurrencesOfThree | app.py:66 | of three values where only the first two are equal, the first and the third are kept |
| Duplicates.DedupSeqOfDistinct | app.py:66 | a sequence without repeats is its own deduplication |
| Duplicates.RemoveDuplicates | app.py:66 | same columns and kinds; the rows are the first occurrences of each row, in the original order, pairwise distinct (Missing equals Missing), and every original row is still present; a table with no columns is unchanged |
| Duplicates.RemoveDuplicatesOfDistinct | app.py:66 | a table whose rows are already distinct is unchanged |
| Duplicates.RemoveDuplicatesIdempotent | app.py:66 | removing duplicates twice equals removing them once |
| Duplicates.RemoveDuplicatesExample | app.py:66 | rows ("a",1), ("a",1), ("b",2) become ("a",1), ("b",2) |
| MissingValues.HasNumberValues | app.py:72 | a column has a present number exactly when its list of values is non-empty |
| MissingValues.Mean | app.py:72 | the mean, counted once per present value, gives the sum of the present values |
| MissingValues.FillColumn | app.py:72 | name, kind and length kept; present cells kept; a missing cell becomes the column's mean when the column is numeric and has a number, and stays missing otherwise |
| MissingValues.FillMissing | app.py:71-72 | names, kinds and height unchanged; non-numeric columns untouched; present cells untouched; a missing cell of a numeric column becomes the mean of that column as it was before filling, or stays missing when the column has no number |
| MissingValues.FillMissingLeavesNoGap | app.py:71-72 | after filling, every cell of a numeric column that had a number is a number |
| MissingValues.FillColumnHasNumber | app.py:72 | filling neither creates nor removes the existence of a number in a column |
| MissingValues.FillColumnIdempotent | app.py:72 | filling a column twice equals filling it once |
| MissingValues.FillMissingIdempotent | app.py:71-72 | filling a table twice equals filling it once |
| MissingValues.FillCellsCount | app.py:72 | filling adds one value per missing cell |
| MissingValues.FillCellsSum | app.py:72 | filling adds the fill value to the sum once per missing cell |
| MissingValues.RepeatIsProduct | app.py:72 | adding m to itself k times gives m times k |
| MissingValues.RepeatInjective | app.py:72 | two values counted equally often (at least once) to the same total are equal, so the mean is determined by the values |
| MissingValues.FillCellsKeepsAverage | app.py:72 | if m is the average of a column's numbers, it is still their average after the gaps are filled with m |
| MissingValues.FillColumnKeepsMean | app.py:72 | mean filling leaves a numeric column's mean unchanged |
| MissingValues.FillColumnExample | app.py:72 | a numeric column 2, missing, 4 becomes 2, 3, 4 |
| Projection.Lookup | app.py:78 | a column is found exactly when one carries the name, and the one found carries it |
| Projection.LookupUnique | app.py:78 | with unique names, the column found for a name is the table's column of that name |
| Projection.SelectColumns | app.py:78 | succeeds exactly when every selected name is a column; the result has one column per selected name, in order, each drawn from the table; a failure names a selected name that is not a column |
| Projection.Project | app.py:77-78 | succeeds exactly when every selected name is a column; the result's names are the selection, in order, with the same height, every column drawn from the table; a failure names an unknown selected name; a repeat-free selection gives a well-formed table |
| Projection.ProjectKeepsColumns | app.py:78 | a selection of existing names succeeds, and each kept column is the table's column of that name, cells included |
| Projection.ProjectAll | app.py:77-78 | the default selection, all columns in table order, leaves the table unchanged |
| Projection.ProjectNone | app.py:77-78 | an empty selection gives no columns and the same height |
| Projection.ProjectTwice | app.py:77-78 | narrowing to a selection and then to names drawn from it equals narrowing once to the second selection |
| Projection.NumericPositions | app.py:83 | the positions listed are increasing and are exactly those of the numeric columns |
| Projection.NumericPreview | app.py:83 | the chart table has the same height and holds the first min(2, number of numeric columns) numeric columns, in table order |
| Pipeline.Clean | app.py:61-73 | cleaning keeps names and kinds and never adds rows; with cleaning disabled, or enabled with no button pressed, the table is unchanged; with cleaning enabled, the remove-duplicates button gives `RemoveDuplicates`, the fill button gives `FillMissing`, and both give `FillMissing` applied after `RemoveDuplicates` |
| Pipeline.Artifact | app.py:91-100 | the artifact's name is the upload's base with "_cleaned" and the target's extension, and is routed back to the target format; its MIME type is the target's and its data is the table written in the target format |
| Pipeline.ProcessFile | app.py:39-100 | an unsupported file is skipped with its lower-cased extension; a processed file was routed and read, and its table is the cleaned table narrowed to the selection (all columns when none is made); its chart is the numeric preview of that table exactly when one is asked for; it has a download exactly when convert is pressed; a read failure names the file |
| Pipeline.ProcessFileStages | app.py:55-100 | for a routed and read file, a failing selection skips the file with that selection error; a valid one gives the narrowed cleaned table, the chart when asked for and the artifact when convert is pressed |
| Pipeline.ValidSelectionIsProcessed | app.py:64-78 | cleaning keeps the column names, so a routed and read file whose selection names only columns it was read with is processed |
| Pipeline.UnsupportedSkipsReading | app.py:44-50 | an unsupported file is skipped with its lower-cased extension, and its outcome does not depend on the reader or writer, so no read is attempted |
| Pipeline.ReadFailureSkips | app.py:43-53 | a file the reader rejects is skipped with the file name and the reader's message |
| Pipeline.ReadableIsProcessed | app.py:39-100 | with the default selection, a routed and readable file is processed, and the download, when asked for, is the artifact named after the upload |
| Pipeline.ProcessedTableInvariant | app.py:39-78 | a processed table is rectangular and has no more rows than were read; its column names are among those read; with the default selection they are all kept in order; with a repeat-free selection the names stay unique |
| Pipeline.DownloadFollowsTarget | app.py:87-100 | a download exists exactly when convert is pressed; it is named base ++ "_cleaned" ++ the target's extension, carries the target's MIME type and holds the processed table written in the target format, whatever format was read |
| Pipeline.ChartColumnsOfTable | app.py:82-83 | a chart exists exactly when requested; it is the first min(2, k) of the k numeric columns of the processed table, in table order, with the table's height |
| Pipeline.ProcessBatch | app.py:39 | one outcome per upload, and the i-th outcome is the processing of the i-th upload with its own controls |
| Pipeline.RunBatch | app.py:38-53 | the loop gives one outcome per upload, each that of its own file, so the loop computes exactly `ProcessBatch` |
| Pipeline.BatchIsolation | app.py:39-53 | replacing one upload of a batch, by a file that cannot be routed or read or any other, leaves every other outcome unchanged; the cases where the code instead stops the run are listed under "Left out" |
| Pipeline.BatchExample | app.py:39-100 | in a batch of "notes.txt" and a readable "sales.csv", the first is skipped and the second is offered as "sales_cleaned.xlsx" |
| Pipeline.ExampleUnsupported | app.py:48-50 | "notes.txt" is skipped as unsupported with extension ".txt" |
| Pipeline.ExampleSupported | app.py:44-45 | a readable "sales.csv" converted to Excel is offered as "sales_cleaned.xlsx" |

## Left out

- The Streamlit page (app.py:6-37, 56-65, 81-89, 102-110): page setup, styling, title, uploader, previews, checkboxes, buttons, radio, column chooser, chart drawing, download button and success messages. Their state in one run is the input `Controls`.
- Reruns: Streamlit re-runs the whole script after every interaction, and a button is true only in the run its click starts. The model describes one run with the controls as inputs. Which controls can be true together, and what happens across runs, is not modelled.
- Reruns, consequence: in the code the convert button and a cleaning button are never true in the same run, so a "_cleaned" download always holds the table as read and narrowed, never a deduplicated or filled one. `Controls` allows both at once, so the model also describes downloads of cleaned tables, which the page never produces.
- The pandas readers and writers (`read_csv`, `read_excel`, `to_csv`, `to_excel`) are opaque parameters. No CSV or workbook round trip is claimed.
- dtype inference by `select_dtypes(include=['number'])` is replaced by each column's declared `Kind`. Booleans count as non-numeric, as in pandas.
- Floating point: cells hold exact `real`s, so the mean is exact. NaN, rounding and integer-to-float promotion are not modelled.
- The row index of a frame is not modelled. Both writers are called with `index=False`.
- Column names are assumed unique. The pandas readers rename repeated header names, so this holds for every table they produce.
- FileNames.LowerChar: lower-cases ASCII letters only, whereas `str.lower` maps all of Unicode. Routing is unaffected, because only ".csv" and ".xlsx" are accepted. The extension carried in an unsupported-type error can differ for non-ASCII names.
- FileNames.SplitExt: follows the posix `splitext`, with '/' as the only separator. The Windows variant, which also treats '\\' as a separator, is not modelled. A ':' is not a separator in either variant.
- Duplicates.RemoveDuplicates: compares cells by structure. pandas hashing treats a boolean and the equal number in one mixed object column as the same value; the model does not.
- Duplicates.RemoveDuplicates: a frame with no columns is left unchanged. This follows pandas returning an empty frame as it is. The source of that pandas behaviour is not part of this model.
- Projection.Project: an unknown selected name gives a file-scoped error. In the code, the column chooser cannot produce one. If it did, the `KeyError` would not be caught and would stop the whole page.
- Pipeline.Artifact: the writers are modelled as total functions, so every processed file with convert pressed gets an artifact. In the code the calls to `to_csv` and `to_excel` (app.py:94, app.py:98) sit outside the `try` of app.py:43-53. An exception there, such as pandas refusing a sheet of more than 1,048,576 rows, is not caught: it ends the run, so the later uploads get no outcome and app.py:110 is not reached. Write failures are not modelled.
- Pipeline.BatchIsolation: holds in the code only when no write fails (see `Pipeline.Artifact` above), no selected name is unknown (see `Projection.Project` above), and the uploads have distinct names. Two uploads with the same name repeat the checkbox label (app.py:61) and the radio key `file.name` (app.py:87). Streamlit then raises a duplicate-widget error, which stops the run, and the later files get no outcome. The model processes every file on its own and does not model that error.
- Pipeline.ProcessBatch, Pipeline.RunBatch: the code gives one outcome per upload only under the conditions listed for `Pipeline.BatchIsolation`; a repeated name, a failed write or an unknown selected name stops the run, and the later uploads get no outcome.
- The final "All files processed successfully!" message (app.py:110) is shown unconditionally and is not modelled.
