# Immune-cell frequency pipeline, modelled in Dafny

`py_script.py` reads a CSV of immune-cell counts per sample. It then:

1. cleans the rows (`clean_data`);
2. derives, per row, the total of five cell-population counts and each
   population's share of that total (`relative_frequencies`);
3. saves the derived table under `output_data/` (`save_output`);
4. draws, per population, a boxplot that compares responders with
   non-responders among the `tr1`-treated rows (`plot_rf_boxplots`).

This project models the deterministic core of those steps:

- **Path checks.** The input-path checks of `load_csv` are one function. The
  file's existence and the parse outcome are parameters.
- **Cleaning.** `clean_data` is three successive order-preserving filters.
  Each filter looks up a column that may be absent, and an absent column is a
  `KeyError`.
- **Frequencies.** `relative_frequencies` is a method on a `Frame` (the
  caller's DataFrame). It adds the `total_count` column in place and returns
  the derived table, which is specified by the function `RelFreq`.
- **Saving.** `save_output` is reduced to its name normalisation and path join.
- **Plotting, without the drawing.** What is modelled:
  - the column checks;
  - the conditional row selection;
  - the split into responder and non-responder values per share column, built
    by a loop as in the source;
  - the subplot titles, the overall title and the image path.

Cells are `Missing` (pandas NaN / None), `Text`, `Count` (a non-negative
count) or `Ratio` (an exact real, standing in for a float share). A row is a
map from column names to cells, and a table pairs its ordered column list with
its rows.

Modules:

- `Strings`: ASCII lower- and upper-casing, `endswith`, `replace`, `title`.
- `Sequences`: order-preserving filtering, with a characterisation by kept
  positions.
- `Tables`: values, rows, tables, the `Frame` class and the error kinds.
- `Loader`, `Cleaner`, `Frequencies`, `Writer`, `Plotter`: the script's stages.
- `Scenarios`: a two-row table followed through cleaning and frequency
  derivation. Its rows carry a `project` column because `clean_data` reads one.

## Model

| member | source | states |
|---|---|---|
| Loader.LoadCsv | py_script.py:22-32 | a path that does not exist is `FileNotFound` whatever its extension; an existing path whose lower-cased form does not end in `.csv` is `NotCsv`; otherwise a parse failure is `LoadFailed` and a parse success returns the table; success exactly when all three checks pass |
| Loader.NotFoundBeforeFormat | py_script.py:22-23 | the existence check comes before the extension check |
| Loader.TxtRejected | py_script.py:24-25 | an existing `.txt` path is rejected for its format |
| Loader.UpperCaseExtensionAccepted | py_script.py:24 | the extension test ignores case (`.CSV` passes) |
| Cleaner.KeepRow | py_script.py:40-42 | a row without a response is dropped, and so is one whose treatment or project lower-cases to `none`; a row with a response whose treatment and project are not text is kept |
| Cleaner.CleanData | py_script.py:40-42 | fails exactly when `response`, `treatment` or `project` is absent, naming the first absent one in lookup order; on success keeps the columns and never adds rows |
| Cleaner.CleanIsOneFilter | py_script.py:40-42 | the three successive filters equal one filter by the conjunction of their conditions |
| Cleaner.CleanKeepsExactly | py_script.py:40-42 | the result is exactly the input rows with a present response and with lower-cased treatment and project not `none`, in original relative order (an increasing list of kept positions that holds precisely the rows satisfying the condition) |
| Cleaner.MissingTreatmentKept | py_script.py:41-42 | a row with a response but a missing treatment and project is kept |
| Cleaner.CleanIdempotent | py_script.py:40-42 | cleaning a cleaned table changes nothing |
| Tables.WithColumn | py_script.py:56 | assigning a column overwrites it if present, else appends it to the column list; the row count is unchanged, each row gets its positional value, and every other cell is unchanged |
| Tables.Frame.SetColumn | py_script.py:56 | the in-place assignment leaves the frame equal to `WithColumn` of its old contents |
| Frequencies.RowTotal | py_script.py:56 | each of the five counts is at most the row total, and the total is 0 exactly when every count is 0 or missing |
| Frequencies.SumCountsZero | py_script.py:56 | a sum of counts is 0 exactly when each of its counts is |
| Frequencies.WithTotalCount | py_script.py:56 | the caller's table keeps its rows and gains (or keeps) a `total_count` column; each row's `total_count` is that row's total and every other cell is unchanged |
| Frequencies.KeepColumns | py_script.py:59-64 | at most the eight metadata columns are kept, and each kept column is a metadata column the table has |
| Frequencies.DerivedRows | py_script.py:57-66 | for kept columns that are metadata columns: one derived row per source row by position; row i holds source row i's cell in every kept column, and in each share column the matching count of row i divided by row i's `total_count` |
| Frequencies.MissingCellTypes | py_script.py:55-56 | lists exactly the count columns the table lacks |
| Frequencies.RelFreq | py_script.py:55-66 | fails with a `KeyError` naming the missing count columns exactly when one of the five is absent |
| Frequencies.RelativeFrequencies | py_script.py:55-66 | returns `RelFreq` of the frame's old contents; on success the caller's frame gains (or has overwritten) its `total_count` column, and on failure it is left untouched |
| Frequencies.PercentageNamesAgree | py_script.py:58 | the renamed count columns are exactly the five share columns the plotter expects, in order |
| Frequencies.KeepColumnsIsPresenceFilter | py_script.py:59-64 | the kept columns with their conditional appends equal the present members of the fixed metadata list, in its order |
| Frequencies.RelFreqSchema | py_script.py:56-66 | the derived columns are the metadata columns present in the input (with `total_count`, which the function adds), in fixed order, followed by the five share columns |
| Frequencies.KeptColumns | py_script.py:56-64 | every kept column is metadata; `total_count` is always kept, and so is every metadata column of the input |
| Frequencies.RelFreqRows | py_script.py:56-66 | one output row per input row by position; row i's `total_count` is row i's count sum, its k-th share is its k-th count's share of that sum, and its metadata cells are carried over |
| Frequencies.RelFreqRowAt | py_script.py:56-66 | the same facts for one row index |
| Frequencies.DerivedRowCells | py_script.py:65-66 | a derived row holds the kept metadata cells and the five share cells |
| Frequencies.PercentageCellsAt | py_script.py:57-58 | the share cells of a row are exactly the five share columns, each the count divided by `total_count` |
| Frequencies.Share | py_script.py:57 | a share is a ratio exactly when the count is present and the total positive, and otherwise undefined (NaN) |
| Frequencies.ShareTimesTotal | py_script.py:57 | a share times the total gives back the count |
| Frequencies.ShareSumIsQuotient | py_script.py:56-57 | the shares of a list of counts add up to their summed count over the total |
| Frequencies.CountAtMostSum | py_script.py:56 | each count is at most the row total |
| Frequencies.RowTotalIsSum | py_script.py:55-56 | `total_count` is the sum of `b_cell`, `cd8_t_cell`, `cd4_t_cell`, `nk_cell` and `monocyte` |
| Frequencies.RowSharesSumToOne | py_script.py:56-57 | for a positive total, the shares add up to 1 and each present count's share lies in [0, 1] |
| Frequencies.ShareSumFive | py_script.py:57 | the share sum is the five shares written out |
| Frequencies.ZeroTotalUndefined | py_script.py:56-66 | for a zero total every share of the derived row is undefined, never 0 |
| Frequencies.PercentagesSumToOne | py_script.py:56-66 | for a positive total the five share cells of derived row i add up to exactly 1, and each lies in [0, 1] |
| Frequencies.ShareCellsSumToOne | py_script.py:56-58 | the same for any row whose five share cells are the shares of a source row with a positive total |
| Writer.NormaliseName | py_script.py:79-80 | `.csv` is appended exactly when the lower-cased name does not end in `.csv`; the result always ends in `.csv` ignoring case and starts with the given name |
| Writer.NormaliseIdempotent | py_script.py:79-80 | normalising twice equals normalising once |
| Writer.Join | py_script.py:83 | an absolute name replaces the directory; a relative name follows the directory and at most one separator, and a non-empty directory is always followed by a separator |
| Writer.JoinRelative | py_script.py:83 | a relative name is joined below `output_data` with one separator |
| Writer.SaveOutput | py_script.py:79-83 | creates the directory exactly when it does not exist; writes to `output_data` joined with the normalised name |
| Writer.SavedPath | py_script.py:79-83 | for a relative name the written path is `output_data/<name>` and ends in `.csv` ignoring case |
| Writer.BareNameGetsExtension | py_script.py:79-80 | `results` becomes `results.csv` |
| Writer.UpperCaseExtensionKept | py_script.py:79-80 | a name ending in `.CSV` keeps its own spelling |
| Plotter.PlotRows | py_script.py:98-102 | never more rows than the input; every selected row is an input row treated with `tr1` (any case), of sample type `pbmc` if the table has that column and of diagnosis `melanoma` if it has that one |
| Plotter.MissingShareColumns | py_script.py:103-104 | lists exactly the share columns the table lacks |
| Plotter.NoMissingShareColumns | py_script.py:104-105 | no share column is reported missing exactly when all five are present |
| Plotter.SupTitle | py_script.py:115-116 | the overall title ends in ` (Melanoma)` exactly when the table has a `diagnosis` column |
| Plotter.SubplotTitle | py_script.py:112 | a subplot title is no longer than its column name and holds no underscore |
| Plotter.PanelFor | py_script.py:109-112 | the panel carries the column's subplot title; responders and non-responders together hold at most one value per row; each responder value is the column's cell in a row whose response is `y`, and each non-responder value one in a row whose response is `n` |
| Plotter.BuildPanels | py_script.py:108-112 | one panel per share column, in order, each with that column's title, responder values and non-responder values |
| Plotter.PlotRfBoxplots | py_script.py:96-118 | fails when `treatment` or `response` is absent, and otherwise when a share column is absent, naming the absent ones; succeeds exactly when all seven columns exist, with five panels over the selected rows, the overall title and the path `os.path.join('output_data', name)`, which is `output_data/<name>` for a relative name |
| Plotter.PlotRowsExactly | py_script.py:98-102 | the plotted rows are exactly those with lower-cased treatment `tr1`, sample type `pbmc` if that column exists and diagnosis `melanoma` if that column exists, in row order |
| Plotter.GroupsArePartition | py_script.py:109-110 | responders are the rows with lower-cased response `y` and non-responders those with `n`; the two are disjoint, a row with any other response is in neither, and each list holds the column's values of its rows in row order |
| Plotter.NoTr1RowsGivesEmptyGroups | py_script.py:98-110 | a table without `tr1` rows selects nothing and every group is empty |
| Plotter.SubplotTitles | py_script.py:112 | the five subplot titles are `B Cell`, `Cd8 T Cell`, `Cd4 T Cell`, `Nk Cell` and `Monocyte` |
| Plotter.TitleOf | py_script.py:112 | for a base in which every `_` is followed by a character other than `p`, the title of `<base>_percentage` is the title of `<base>` with underscores as spaces (without that condition an inner `_percentage` is removed too) |
| Strings.Lower | py_script.py:24 | lower-casing keeps the length and lowers each character |
| Strings.LowerAppend | py_script.py:79 | lower-casing distributes over concatenation |
| Strings.EndsWithLower | py_script.py:24 | a lower-cased string ends with a suffix exactly when its last characters, as many as the suffix has, lower-case to that suffix |
| Strings.ReplaceTrailing | py_script.py:112 | removing `_percentage` from `<base>_percentage` gives back `<base>` when every `_` in the base is followed by a character other than `p` |
| Strings.ReplaceAll | py_script.py:112 | replacing by a string no longer than the pattern never lengthens the text, and by one as long keeps its length |
| Strings.ReplaceChar | py_script.py:112 | replacing one character by another acts position by position |
| Strings.Title | py_script.py:112 | title case upper-cases a character after a non-letter and lower-cases one after a letter |
| Strings.TitleKeepsOut | py_script.py:112 | title case introduces no non-letter character that was not already there |
| Sequences.Filter | py_script.py:40-42 | a filter never lengthens its input, and every element it keeps is an input element that meets the condition |
| Sequences.FilterExactly | py_script.py:40-42 | a filter's result is the input at an increasing list of positions that holds exactly the positions satisfying the condition |
| Sequences.FilterIdempotent | py_script.py:40-42 | filtering twice by the same condition equals filtering once |
| Sequences.FilterDisjointLengths | py_script.py:109-110 | two filters by conditions no element meets together keep, between them, at most as many elements as the input has |
| Sequences.FilterThenFilter | py_script.py:40-42 | two successive filters equal one filter by the conjunction |
| Scenarios.ExampleClean | py_script.py:40-42 | of a responder row treated with `TR1` and a row treated with `none`, cleaning keeps only the first |
| Scenarios.OneRowFrequencies | py_script.py:55-66 | a one-row table with all count columns gives one derived row holding that row's total and shares |
| Scenarios.ExampleFrequencies | py_script.py:55-66 | in that example, five counts of 10 give a `total_count` of 50 and five shares of 0.2 |

## Left out

- CSV parsing (`pd.read_csv`) and writing (`to_csv`) are foreign library I/O. A parse is a parameter of `Loader.LoadCsv`, and the written table is not modelled.
- Filesystem effects are parameters or outputs. `os.path.exists` is a boolean input. `os.mkdir` is the `makeDir` output of `Writer.SaveOutput`.
- All matplotlib rendering is left out: subplot layout, boxplot statistics, labels, `tight_layout`, `savefig`, `close`. This includes `savefig` failing when `output_data` does not exist.
- Floating point: shares are exact reals, and NaN is `Missing`. Rounding, and the float sum not being exactly 1, are therefore not modelled.
- `main` and `argparse` are left out. That includes the `type=bool` handling of `--verbose` and the order of the stages. It also includes the sharing of the loaded frame: `main` passes that one frame first to `relative_frequencies`, which adds `total_count` to it in place, and then to `clean_data`, so the cleaned table carries that column and the second `relative_frequencies` call overwrites it. The saved table is the first derived table and the plotted one the second.
- The verbose `print` output and the `global_filepath` global are diagnostics only, and are not modelled.
- Loader.LoadCsv: the text of exception messages is not carried. For example, the text of the read error wrapped in the `RuntimeError` is dropped.
- Frequencies.RowTotal: a count cell that is not a count (missing, text or a ratio) adds 0 to the total, and that cell's share is `Missing`. pandas skips NaN the same way, but would raise on a text cell and would add a float cell and divide it.
- Lower-casing and title-casing are ASCII-only. They agree with Python's for every literal the script compares against (`none`, `tr1`, `pbmc`, `melanoma`, `y`, `n`, `.csv`). They can disagree on other non-ASCII text.
- The pandas `.str` accessor raises on a column that holds no strings at all, for example a treatment column that is entirely NaN. The model treats such cells as not equal to the literal instead.
- `os.path.join` is the POSIX two-argument form.
