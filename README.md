# Digital Balance Dashboard: header normalisation and the EDA row filter

The dashboard reads a survey table about social-media use, sleep, stress,
exercise and happiness, then draws charts and fits regression models with
pandas, scikit-learn and statsmodels. Two pieces of its own logic sit between
those library calls, and this project models both of them in Dafny:

- **Column-label normalisation** (`load_data`, `src/data_loader.py`). Each
  header label is stripped of leading and trailing whitespace. Every space then
  becomes `_`, every `(` and `)` is deleted, and every `-` becomes `_`. Each
  step is a literal replace-all. A label is a `seq<char>` and the header is a
  `seq<seq<char>>`. Module `ColumnLabels`, file `column_labels.dfy`.
- **The EDA row filter** (`show_eda_dashboard`, `src/eda_visualization.py`).
  A boolean mask is true where `age_lo <= Age <= age_hi` and
  `Social_Media_Platform == platform`. The rows under a true mask entry are
  kept in their original order, and the dashboard shows how many there are. A
  row is `Record(age: int, platform: string)` and the table is a
  `seq<Record>`. Module `RowFilter`, file `row_filter.dfy`.

Both pieces are pure expressions in the source, so the model uses functions
and lemmas, with no classes and no loops.

What is proved:

- **Normalisation.** No output label contains a space, `(`, `)` or `-`.
- Each output equals a one-pass reference, `Translate`, applied to the
  stripped label. `Translate` maps each character on its own: space and
  hyphen become `_`, parentheses vanish, and every other character is kept in
  order.
- The output length is the stripped length minus the number of parentheses.
- Whitespace around a label never reaches the output.
- Labels without whitespace, parentheses or hyphens pass through unchanged.
- Normalising twice gives the same result as normalising once when space is
  the only whitespace in the input. Without that condition this fails, and
  there is a counterexample.
- Several distinct labels collide on the same output, and a header can end up
  with duplicate column names.
- The "is whitespace" test is Python's `str.isspace` character set. The
  model spells it out: ASCII `\t \n \v \f \r`, `\x1c` to `\x1f`, the space,
  U+0085, U+00A0, U+1680, U+2000 to U+200A, U+2028, U+2029, U+202F, U+205F
  and U+3000.
- **Filter.** Only passing rows are kept (soundness), and every passing row is
  kept (completeness).
- Each row appears exactly as often as it does in the table when it passes,
  and never otherwise.
- The result is a subsequence of the table, so order is kept and rows are not
  modified. It also equals an independent fold over the rows.
- Both age bounds are inclusive, and an empty age range selects nothing.
- Widening the age range never drops a row.
- The count is the number of true mask entries. It is zero exactly when no
  row passes.

Notes on how the code behaves:

- Only the two ends of a label are stripped, and only the ordinary space is
  replaced. A tab or other whitespace inside a label survives normalisation
  (`InnerTabKept`), and deleting parentheses can bring such a character to an
  end of the label (`TabExposed`).
- Parentheses are deleted, not replaced with underscores.
- Nothing checks that the normalised names stay unique. Distinct labels can
  collide, and a header can end up with the same name twice (`Collisions`,
  `DuplicateColumns`).
- A header such as `"Sleep Quality (1-10)"` becomes `"Sleep_Quality_1_10"`:
  the space and the hyphen each become `_` and the parentheses vanish. No
  particular header-to-name pair is asserted; only the rule is modelled.

## Model

| member | source | states |
|---|---|---|
| `ColumnLabels.Strip` | src/data_loader.py:6 | `str.strip()`: the result is no longer than the input, and it neither starts nor ends with a whitespace character |
| `ColumnLabels.StripLeadingIsSuffix` | src/data_loader.py:6 | stripping the front removes a prefix made only of whitespace and keeps the rest as it is |
| `ColumnLabels.StripTrailingIsPrefix` | src/data_loader.py:6 | stripping the back removes a suffix made only of whitespace and keeps the rest as it is |
| `ColumnLabels.StripIsSlice` | src/data_loader.py:6 | the stripped label is a contiguous slice of the raw label, with only whitespace on either side of it |
| `ColumnLabels.StripKeepsChars` | src/data_loader.py:6 | every character of the stripped label occurs in the raw label |
| `ColumnLabels.ReplaceAll` | src/data_loader.py:7 | literal replace-all: same length, and each position holds the replacement where the input held the pattern and the input character elsewhere |
| `ColumnLabels.DeleteAll` | src/data_loader.py:8-9 | replacing a character by the empty string: the character is gone, nothing new appears, and the length drops by its number of occurrences; with `DeleteAllAppend` the kept characters stay in their order |
| `ColumnLabels.DeleteAllAppend` | src/data_loader.py:8-9 | deleting from a concatenation is deleting from each part and concatenating, so the characters other than the deleted one keep their original order |
| `ColumnLabels.Passes` | src/data_loader.py:7-10 | after the four replace-all passes in source order, no space, parenthesis or hyphen remains |
| `ColumnLabels.NormaliseLabel` | src/data_loader.py:6-10 | no normalised label contains a space, `(`, `)` or `-` |
| `ColumnLabels.NormaliseColumns` | src/data_loader.py:5-11 | the new header has the same length as the old one, and entry i is the normalisation of raw label i |
| `ColumnLabels.NormaliseLength` | src/data_loader.py:6-10 | the output length is the stripped length minus the number of `(` and `)`, so it never exceeds the raw length |
| `ColumnLabels.PassesIsTranslate` | src/data_loader.py:7-10 | the four passes equal the one-pass character map: space and hyphen become `_`, parentheses vanish, all else is kept in order |
| `ColumnLabels.NormaliseIsTranslate` | src/data_loader.py:6-10 | the normalised label is the one-pass character map applied to the stripped label |
| `ColumnLabels.TranslateChars` | src/data_loader.py:7-10 | every character of the output is `_` or a character of the input other than space, parenthesis and hyphen |
| `ColumnLabels.PassThrough` | src/data_loader.py:6-10 | a label with no whitespace, parenthesis or hyphen is returned unchanged |
| `ColumnLabels.AgeUnchanged` | src/data_loader.py:6-10 | the label `Age`, later read by the dashboard, is unchanged |
| `ColumnLabels.StripEnds` | src/data_loader.py:6 | whitespace runs added at either end do not change the stripped label |
| `ColumnLabels.SurroundingWhitespaceIgnored` | src/data_loader.py:6-7 | whitespace runs around a label do not change its normalisation, because the strip runs before the space replacement |
| `ColumnLabels.SpacesAtEndsDropped` | src/data_loader.py:6-7 | `" a b "` becomes `"a_b"`, not `"_a_b_"` |
| `ColumnLabels.InnerSpace` | src/data_loader.py:7 | an inner space becomes an underscore: `"a b"` becomes `"a_b"` |
| `ColumnLabels.NormalisedWithoutWhitespace` | src/data_loader.py:6-10 | if space is the only whitespace in the raw label, the normalised label holds no whitespace at all |
| `ColumnLabels.Idempotent` | src/data_loader.py:6-10 | if space is the only whitespace in the raw label, normalising twice equals normalising once |
| `ColumnLabels.TabExposed` | src/data_loader.py:6-9 | `"(\tx)"` becomes `"\tx"`: once the parentheses are deleted, the inner tab sits at the front |
| `ColumnLabels.LeadingTabStripped` | src/data_loader.py:6 | `"\tx"` becomes `"x"` |
| `ColumnLabels.NotIdempotentWithTab` | src/data_loader.py:6-10 | normalising `"(\tx)"` twice gives `"x"`, which differs from normalising once |
| `ColumnLabels.InnerTabKept` | src/data_loader.py:6-10 | whitespace other than the space inside a label survives normalisation |
| `ColumnLabels.HyphenCollides` | src/data_loader.py:10 | `"a-b"` becomes `"a_b"` |
| `ColumnLabels.UnderscoreKept` | src/data_loader.py:6-10 | `"a_b"` is unchanged |
| `ColumnLabels.LeadingSpaceCollides` | src/data_loader.py:6-7 | `" a_b"` becomes `"a_b"` |
| `ColumnLabels.Collisions` | src/data_loader.py:5-11 | `"a b"`, `"a-b"`, `"a_b"` and `" a_b"` all give `"a_b"`, so normalisation is not injective |
| `ColumnLabels.DuplicateColumns` | src/data_loader.py:5-11 | two distinct raw headers can give a header with the same name twice; nothing checks for it |
| `RowFilter.TruePositions` | src/eda_visualization.py:22 | the positions under a true mask entry, each exactly once, in increasing order; there are as many as the mask has true entries |
| `RowFilter.FilterRows` | src/eda_visualization.py:22 | `df[mask]`: every kept row is a row of `df` that passes both conditions (soundness), and every passing row of `df` is kept (completeness) |
| `RowFilter.MatchCount` | src/eda_visualization.py:24 | the shown count is the number of true mask entries, at most the row count; it is zero exactly when no row passes |
| `RowFilter.FilterIsKeepMatching` | src/eda_visualization.py:22 | the mask selection equals an independent fold that keeps passing rows one at a time |
| `RowFilter.KeepMatchingIsSubsequence` | src/eda_visualization.py:22 | the fold's result is a subsequence of the table |
| `RowFilter.FilterPreservesOrder` | src/eda_visualization.py:22 | the filtered table is a subsequence of `df`: rows keep their original order and are not modified |
| `RowFilter.KeepMatchingMultiplicity` | src/eda_visualization.py:22 | in the fold's result, a passing row occurs as often as in the table and any other row does not occur |
| `RowFilter.FilterMultiplicity` | src/eda_visualization.py:22 | a passing row occurs in the result exactly as often as in `df`, and a failing row never does |
| `RowFilter.BoundsInclusive` | src/eda_visualization.py:22 | a row of the chosen platform whose age equals either bound is kept |
| `RowFilter.EmptyRange` | src/eda_visualization.py:22-24 | with `age_hi < age_lo` the result is empty and the count is zero |
| `RowFilter.WideningKeepsRows` | src/eda_visualization.py:22 | for the fold, the result for a narrower age range is a subsequence of the result for a wider one |
| `RowFilter.Widening` | src/eda_visualization.py:22-24 | a smaller `age_lo` or a larger `age_hi` never removes a row: the narrow result is a subsequence of the wide one, and the count does not drop |

## Left out

- Reading the CSV file (`pd.read_csv`, src/data_loader.py:4) is file I/O and library parsing. This includes pandas' own renaming of duplicate headers on read. The model starts from the list of raw header labels.
- Which raw header in the data file becomes which downstream column name is not modelled. The file's header text is not part of this model. Only the normalisation rule is modelled.
- A record carries only the two columns the filter reads (age and platform). The other columns of a row travel through the filter unchanged, and pandas' row index labels are not modelled.
- Missing platform values are not modelled; `platform` is always a string. The select box offers `df["Social_Media_Platform"].unique()` (src/eda_visualization.py:21), which includes NaN when the column has an empty cell. NaN never compares equal in pandas, so choosing it makes the mask false for every row and the count 0, whereas in the model any chosen platform matches the rows that carry it.
- Missing or non-integer ages are not modelled; `Age` is an unbounded integer. In pandas a comparison with a missing value is false, so such a row would be dropped.
- The sliders and select box that choose `age_lo`, `age_hi` and the platform (src/eda_visualization.py:20-21) are widgets. The model takes the three values as parameters, for any integers and any string.
- The charts, the per-platform means and the correlation heatmap in src/eda_visualization.py are rendering or floating-point aggregates computed by pandas.
- All of src/ml_model.py is left out. The train/test split, linear regression, random forest, MAE, R² and the prediction widgets are float-valued library calls. Its feature and target column selection is a bare pandas projection.
- src/regression_analysis.py (statsmodels OLS) is left out. It is also not reachable from the menu in app.py.
- app.py is left out: it is menu dispatch and page layout.
