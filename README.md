# Data Sweeper: the per-file pipeline, modelled in Dafny

Data Sweeper is a one-page Streamlit application. It takes a batch of uploaded CSV or
Excel files. For each file in turn it does four things:

- It detects the format from the file name's extension and rejects anything else.
- It previews the first rows.
- It optionally removes duplicate rows and fills missing numeric cells with their column's mean.
- It keeps the columns the user selects and offers a download converted to CSV or Excel,
  with the matching media type. The download's name is the upload's name with its
  lower-cased extension replaced by the target's extension.

This project models that pipeline and proves what it does. The model works on an abstract
table: named columns, each tagged numeric or not, and rows of cells that may be missing.

The modules follow the parts of the pipeline:

- `PathNames` models `os.path.splitext` in its POSIX flavour, `str.lower` and `str.replace`.
- `Formats` models extension detection, the rejection message, the MIME type and the
  output name, both as written and as intended.
- `Tables` holds the table, its well-formedness and the `head()` preview.
- `Duplicates` models `drop_duplicates`.
- `MeanFill` models `fillna` with the column mean.
- `Projection` models `df[columns]`, including its `KeyError`.
- `Frames` is the DataFrame `df` as an object, which the two cleaning buttons change in place.
- `Cleaning` holds worked tables that show how the two cleaning steps interact.
- `Pipeline` covers what one upload produces, and the loop body as methods.
- `Uploads` is the loop over the batch.

The user's choices for one pass over the page are explicit inputs. These are the
checkbox, the two buttons, the column selection, the target format and the convert
button. The table a reader decodes from a file's bytes is also an input.

Where a description of the program and its code disagree, the model follows the code:

- `df[columns]` returns the columns in the order of the selection, not in the table's
  original order.
- When both cleaning buttons apply in one pass, the code always removes duplicates
  first, because that is the order of its statements.
- Cleaning with both buttons a second time is not always a no-op, although the
  description claims that cleaning is idempotent. `Pipeline.CleanedBothNotIdempotent`
  shows a table where a second pass changes the result.

## Model

| member | source | states |
|---|---|---|
| PathNames.SplitExt | app.py:16 | The root and the extension put back together give the original name. |
| PathNames.SplitExtShape | app.py:16 | The extension is either empty, or a dot followed by no further dot and no slash. |
| PathNames.SplitExtOf | app.py:16 | Take a name `stem.e`, where `e` has no dot or slash and the last component of `stem` has a non-dot character. It splits into `stem` and `.e`: the extension starts at the last dot. |
| PathNames.NoDotEmptyExt | app.py:16 | A name without any dot has the empty extension, and its root is the whole name. |
| PathNames.LeadingDotEmptyExt | app.py:16 | A last component whose only dot is its first character (`.csv`, `dir/.csv`) has the empty extension. |
| PathNames.ReplaceSkip | app.py:69 | `str.replace` keeps unchanged any prefix in which the pattern does not begin, and replaces from there on. |
| PathNames.ReplaceLeading | app.py:69 | An occurrence at the start is replaced, and the search resumes right after it, without overlap. |
| PathNames.ReplaceWhole | app.py:74 | A string that is exactly the pattern becomes the replacement. |
| PathNames.ReplaceAbsent | app.py:74 | A string in which the pattern occurs nowhere is returned unchanged. |
| Formats.FileExtShape | app.py:16 | The lower-cased extension that is compared is empty, or a dot with no further dot. |
| Formats.Detect | app.py:16-25 | The extension `.csv` gives CSV and `.xlsx` gives Excel, each in both directions of an iff. Every other extension is rejected, and the rejection carries that extension. |
| Formats.NoExtensionRejected | app.py:16-25 | A name without an extension is rejected, with the empty extension in its message. |
| Formats.MimeTypeDistinguishes | app.py:67-75 | `text/csv` and the spreadsheet media type are chosen per target, and they are equal exactly when the targets are. |
| Formats.OutputNameRoundTrip | app.py:64-75 | Take an accepted name. The intended output name keeps its root, gains the target's extension, and is detected as the target format. |
| Formats.AsWrittenAgrees | app.py:69 | Suppose the extension is already lower-case and does not begin earlier in the name; such an extension is called plain (`Formats.PlainExtension`). Then the code's `replace` gives exactly the intended output name. |
| Formats.AsWrittenUnchanged | app.py:74 | If the lower-cased extension occurs nowhere in the name, the code leaves the name unchanged. |
| Formats.AsWrittenCases | app.py:64-75 | The code's output name, by case. For a plain extension it is the intended name: it keeps the root and is detected as the target. Where the lowered extension occurs nowhere, it is the upload's own name, detected as the upload's format. |
| Formats.UpperCaseExtensionKept | app.py:16-74 | `DATA.CSV` is accepted as CSV. Converted to Excel, it keeps the name `DATA.CSV`, which is not detected as Excel. The intended name is `DATA.xlsx`. |
| Formats.RepeatedExtensionReplaced | app.py:16-74 | `a.csv.csv` converted to Excel is named `a.xlsx.xlsx` by the code. The intended name is `a.csv.xlsx`. |
| Tables.Head | app.py:33 | The preview has the same columns and the first `min(5, row count)` rows, in order. |
| Tables.HeadProperties | app.py:33 | The preview is well formed. A short table is its own preview. The preview is a prefix of the rows. |
| Duplicates.DedupSpec | app.py:42 | After removal no row repeats, and a row occurs in the result exactly when it occurs in the input. |
| Duplicates.DedupKeepsFirst | app.py:42 | The result is the rows at first-occurrence positions, in increasing order of position. A position is kept exactly when it holds the first occurrence of its row. |
| Duplicates.DedupOfDistinct | app.py:42 | Rows that are already distinct are left unchanged. |
| Duplicates.DedupIdempotent | app.py:42 | A second removal changes nothing. |
| Duplicates.DropDuplicates | app.py:42 | The columns are untouched, and a well-formed table stays well formed. |
| Duplicates.DropDuplicatesSpec | app.py:42 | The table has no repeated row, and it holds exactly the rows it had before. |
| Duplicates.DropDuplicatesIdempotent | app.py:42 | Dropping duplicates from a table twice is the same as dropping them once. |
| Duplicates.DropDuplicatesExample | app.py:42 | The rows `{1,2}`, `{1,2}`, `{1,3}` become `{1,2}`, `{1,3}`. |
| Frames.DataFrame.DropDuplicates | app.py:42 | The in-place removal leaves the frame holding `DropDuplicates` of its old value. The frame stays valid and its columns stay as they were. |
| MeanFill.FillMissingNumeric | app.py:47-48 | The filled table is well formed, and its column list and row count are those of the input. |
| MeanFill.FillMissingNumericCells | app.py:47-48 | Take any cell. If it is missing, in a numeric column whose present values have a mean, it becomes that mean. Every other cell (present, non-numeric, or in a column without present values) is unchanged. |
| MeanFill.FilledColumn | app.py:47-48 | Each column of the result is that column filled with its own fill value. The fill value is the mean in a numeric column and nothing otherwise. |
| MeanFill.FillColumnPresent | app.py:48 | Filling adds one copy of the mean per missing cell to the present values, both in count and in sum. |
| MeanFill.FillPreservesMean | app.py:47-48 | Filling does not change any column's mean. |
| MeanFill.FillIdempotent | app.py:47-48 | Filling a second time changes nothing. |
| MeanFill.FillCompletes | app.py:47-48 | A numeric column with a present value has no missing cell after filling. A numeric column with no present value is left exactly as it was, still missing. |
| MeanFill.FillGap | app.py:47-48 | In the column `a`, missing, `b`, the gap becomes `(a+b)/2` and the other cells are kept. |
| MeanFill.FillAllMissingExample | app.py:47-48 | An all-missing numeric column stays all missing, matching pandas, whose mean is NaN there. |
| Frames.DataFrame.FillMissingNumeric | app.py:48 | The slice assignment leaves the frame holding `FillMissingNumeric` of its old value. The frame stays valid and its columns stay as they were. |
| Projection.UnknownSpec | app.py:54 | The names reported in the `KeyError` are exactly the selected names that are not column names. |
| Projection.Select | app.py:53-54 | The selection is well formed, has exactly the selected names in selection order, and has the same row count. |
| Projection.SelectSpec | app.py:54 | Column `k` and each cell in it are those of the first table column named `sel[k]`, so every row stays in place. |
| Projection.ProjectFails | app.py:54 | `df[columns]` fails exactly when some selected name is not a column, in both directions. The error lists exactly those names. |
| Projection.ProjectKnown | app.py:54 | A selection of known names succeeds with the selected table. |
| Projection.ProjectAllColumns | app.py:53-54 | The default selection, every column in table order, returns the table unchanged. |
| Projection.ProjectTwice | app.py:53-54 | Selecting `b` out of a successful selection `a` that covers `b` is the same as selecting `b` directly. |
| Cleaning.RemovalFirst | app.py:41-48 | On `a`, `a`, missing, `b`, removal then fill gives `a`, `(a+b)/2`, `b`. |
| Cleaning.FillFirst | app.py:41-48 | On `a`, `a`, missing, `b`, fill then removal would give `a`, `(2a+b)/3`, `b`. |
| Pipeline.Cleaned | app.py:37-48 | Cleaning keeps the table well formed and its columns unchanged. With the "Clean data" box unchecked, it leaves the table as it is. |
| Pipeline.CleanedBoth | app.py:41-48 | With both buttons pressed, duplicates are removed first and the missing cells are filled afterwards. |
| Pipeline.CleanedSingleIdempotent | app.py:41-48 | With at most one of the two buttons pressed, cleaning a second time changes nothing. |
| Pipeline.RemovalBeforeFillMatters | app.py:41-48 | On `a`, `a`, missing, `b`, the code's order fills with `(a+b)/2`. The other order would fill with `(2a+b)/3`, so the two orders give different tables. |
| Pipeline.CleanedBothNotIdempotent | app.py:41-48 | On missing, `v`, cleaning with both buttons leaves two rows, and cleaning again leaves one. |
| Pipeline.Convert | app.py:64-84 | The download carries the converted table and the target's media type. Its name is the code's replacement of the lowered extension. For a plain extension that name keeps the upload's root and is detected as the target format. Where the lowered extension occurs nowhere in the name, the download keeps the upload's own name and format. |
| Pipeline.ConvertIntended | app.py:64-75 | The corrected download, which the page does not use: its name keeps the upload's root and is always detected as the target format. |
| Pipeline.OutcomeSpec | app.py:15-84 | Each report names its upload, and a file is rejected exactly when no format is detected, with `Unsupported file format: <ext>` as the message. A detected file previews the head of what was read and offers a download exactly when "Convert" was pressed. That download holds the converted table, the target's media type and the code's replaced name. The name is detected as the target when the extension is plain, and it is the upload's own name when the lowered extension occurs nowhere in it. |
| Pipeline.UpperCaseDownloadName | app.py:16-84 | On the page, converting `DATA.CSV` to Excel offers a workbook, with the spreadsheet media type, that is still named `DATA.CSV` and is detected as CSV. |
| Pipeline.RejectedOutcome | app.py:23-25 | A rejected upload is reported with the message for its extension, and nothing else is done with it. |
| Pipeline.OutcomeSelection | app.py:53-54 | An accepted upload is shown exactly when the selection of its cleaned table succeeds. The converted table is then that selection. Otherwise the upload ends with the `KeyError`. |
| Pipeline.DefaultSelectionKeepsTable | app.py:53-54 | With the default selection, an accepted upload never crashes, and the cleaned table itself is converted. |
| Pipeline.ProcessAccepted | app.py:27-84 | For an accepted upload, previewing, cleaning the frame in place, reassigning it to its selection and building the download together give exactly `Outcome`. |
| Pipeline.ProcessOne | app.py:16-25 | The loop body gives exactly `Outcome`, both for a rejected file and for an accepted one. |
| Uploads.ProcessUploads | app.py:14-25 | The loop yields the reports of the first uploads, one per upload and in upload order. A rejected file does not stop it. No report before the last is a crash, and a pass that stops short ends with a crash. |
| Uploads.ShortPassEndsWithCrash | app.py:15-25 | A pass that stops before the last upload stops at an upload whose outcome is a crash. |
| Uploads.NoCrashReportsAll | app.py:15-25 | When no upload crashes, every upload gets its report, rejected ones included. |

## Left out

- The Streamlit page is not modelled: page configuration, titles and widgets (app.py:7-12).
  - The choices a pass would read from the widgets are parameters.
  - Streamlit re-runs the script on every interaction, and a button is pressed only in the
    run that follows its click. Runs across interactions are outside this model.
  - As a consequence, on the run in which "Convert" is clicked, both cleaning buttons read as
    not pressed and `df` is read afresh, so the download on the real page is never cleaned.
    A single pass with every choice set, as `Pipeline.Outcome` takes it, is a model of the
    script's statements. It is not a promise about a sequence of clicks on the page.
- Reading and writing bytes (`read_csv`, `read_excel`, `to_csv`, `to_excel`, the `BytesIO`
  buffer) is not modelled, because these are library calls.
  - The reader's decoded table is an input.
  - The converted download carries the table itself, not its encoding.
  - An exception raised by a reader is not modelled.
- The file name and size display (app.py:28-29) is left out: it is display only. The name is
  shown as it is, and the size is float formatting.
- The bar chart (app.py:58-60) is left out: it is visualisation, and it does not change `df`.
- Means are exact reals, not floating point. A column without present values has no mean,
  where pandas gives NaN.
- Cell kinds beyond numeric or other are not modelled. A reader's dtype inference is summed
  up in the column's numeric tag.
- PathNames.Lower: lower-cases ASCII letters only. Other characters are kept, whereas Python
  also lower-cases non-ASCII letters.
- PathNames.SplitExt: POSIX paths only, with `/` as the separator. Windows separators are not
  modelled.
- Projection.Select: assumes distinct column names. With a repeated name it takes the first
  column so named, while pandas would return every one. The readers produce distinct names,
  and `Projection.ProjectAllColumns` requires them.
- The column multiselect only offers the table's own columns, so the `KeyError` path is
  unreachable from the real page. It is kept because `df[columns]` has it.
- Formats.AsWrittenUnchanged: weaker than "an extension that is not already lower-case leaves the
  name unchanged", because that claim is false. The lemma requires that the lowered extension
  occur nowhere in the name. In `x.csv.CSV`, the inner `.csv` is replaced.
- Pipeline.CleanedSingleIdempotent: covers at most one button, because pressing both is not
  idempotent (`Pipeline.CleanedBothNotIdempotent`).

## Findings

| source | as written | input that shows it | evidently intended | confidence | as-written member | corrected member |
|---|---|---|---|---|---|---|
| app.py:69, app.py:74 | The name of the converted file is `file.name.replace(file_ext, ...)`, where `file_ext` is the lower-cased extension. So the search is case-sensitive and replaces every occurrence, including occurrences inside the root. | `DATA.CSV` converted to Excel stays `DATA.CSV`. `a.csv.csv` converted to Excel becomes `a.xlsx.xlsx`. | The root of the name followed by the target's extension: `DATA.xlsx`, `a.csv.xlsx`. | not executed | Formats.UpperCaseExtensionKept, Formats.RepeatedExtensionReplaced (on Formats.OutputNameAsWritten, which Pipeline.Convert uses), Pipeline.UpperCaseDownloadName | Formats.OutputNameRoundTrip (on Formats.OutputName), Pipeline.ConvertIntended |
