# CSV File Cleaner — a Dafny model of its profiling and reshaping core

CSV File Cleaner profiles a tabular data set and reshapes nested data into flat
columns. This project models that engine in Dafny and proves what it does:

- **Column profiling.** For each column, the cleaner computes:
  - the null ratio;
  - how often each type occurs;
  - whether more than one type occurs;
  - whether some text cell is a list, tuple or dictionary written as a Python
    literal;
  - whether the column is null-heavy.
- **Cell parsing.** Text is parsed first as a Python literal, then as JSON.
  A separate test asks whether either parser yields a container.
- **Structural transforms.** The transforms are:
  - flattening nested dictionaries into dotted keys;
  - replacing a dictionary column by one `<column>.<key>` column per key;
  - exploding a list or tuple column into rows.
- **The loader's nested-JSON loop.** It normalises every dictionary column and
  explodes every list column, round after round, until neither kind is left.
- **Suggestions.** The profile is turned into "flatten", "drop" and "check"
  advice.
- **The transformation log.** An append-only record of actions, with its text
  form and the contents of the two exported files.

How the model represents the program:

- **Cells** are the closed datatype `Values.Value`: null, boolean, integer,
  float, text, list, tuple and dictionary. A dictionary is an association
  list of string keys.
- **The two parsers** (`ast.literal_eval`, `json.loads`) are uninterpreted
  partial functions, `Values.Parsers`. `None` stands for a raised exception.
- **Tables** (`Tables.Table`) hold a row count and an ordered sequence of
  named columns of equal length with distinct names. Rows are numbered
  0..rows-1, as after `reset_index(drop=True)`.
- **Pandas exceptions** become `Failure` results:
  - `KeyError` for a missing column;
  - `ColumnOverlap` when `join` finds a new column name already taken.
- **Ratios** are exact `real` quotients of counts.

The loader's loop has no bound in the code. `Parser.FlattenNestedJson` is a
total function. Its termination measure is the greatest nesting depth among
the columns that still hold a dictionary or a list. `Parser.PassLowersMeasure`
proves that every round that does not fail lowers this measure.

Some points of the code are easy to misread; the model follows the code:

- `parse_stringified` is documented as parsing stringified lists, tuples and
  dictionaries (transformer.py:47). It returns whatever literal evaluation
  yields (transformer.py:51-52), so a text cell holding a scalar literal is
  replaced by that scalar (`"1"` becomes `1`).
- The profiler's stringified-object flag uses literal evaluation only
  (transformer.py:24-31). The separate test `is_stringified_object` also tries
  JSON (utils.py:10-21).
- The log text joins entries with the two characters backslash and `n`
  (logger.py:13), and the script export writes the same two characters after
  each entry (logger.py:26). Neither is a line break; see "## Findings".
- The loader calls `json_normalize` with its default depth (parser.py:70),
  which flattens nested dictionaries completely. `parse_and_flatten_column`
  flattens each dictionary with `flatten_dict` before normalising
  (transformer.py:80-81).

## Model

| member | source | states |
|---|---|---|
| Transformer.ParseStringified | transformer.py:45-57 | A non-text cell comes back unchanged. Text becomes the literal-evaluation result when that succeeds, whatever its kind; else the JSON result when that succeeds; else the original text. |
| Transformer.LiteralScalarIsSurfaced | transformer.py:51-52 | Text that literal evaluation turns into a scalar is replaced by the scalar, not kept as text. |
| Transformer.ParseChangesOnlyText | transformer.py:49-50 | Only text cells can be changed by parsing. |
| Parser.ParseStringifiedCopiesAgree | parser.py:44-56 | The loader's copy of `parse_stringified` agrees with the transformer's on every parser pair and every cell. |
| Transformer.DictFromItems | transformer.py:70 | `dict(items)` has distinct keys. Each key maps to the value of its last occurrence in `items` (reference `LastValue`). Every pair kept comes from `items`. |
| Transformer.DictFromDistinctItems | transformer.py:70 | Pairs whose keys are already distinct convert to themselves, order included. |
| Transformer.FlattenDict | transformer.py:59-70 | The flattened dictionary has distinct keys and no dictionary value. |
| Transformer.LaterEntryWins | transformer.py:64-70 | A non-dictionary entry at any position is found under `parent.key` (just `key` at top level) with its own value, provided no later entry flattens to the same key: on a duplicate path the later entry wins. |
| Transformer.EmptyNestedDictVanishes | transformer.py:66-67 | An entry at any position whose value is an empty dictionary contributes no key: flattening gives the same result as without it. |
| Transformer.FlatItemsUnchanged | transformer.py:63-69 | A dictionary without nested dictionaries yields its own pairs, in order. |
| Transformer.FlattenIdempotent | transformer.py:59-70 | Flattening an already flattened dictionary changes nothing. |
| Transformer.FlattenKeysUnderParent | transformer.py:65 | Under a non-empty parent, every flattened key begins with the parent followed by a dot. |
| Transformer.FlattenShallower | transformer.py:66-69 | Every flattened value is strictly shallower than the dictionary it came from. |
| Transformer.UnionKeys | transformer.py:81 | The normalised frame's keys are distinct and are exactly the keys occurring in some row. |
| Transformer.PrefixedInjective | transformer.py:83 | Different keys receive different `<column>.<key>` names. |
| Transformer.Normalize | transformer.py:81-84 | The join fails with a column overlap exactly when some new name is already a remaining column's name. Otherwise the column is dropped, one column per key is appended after the others, the row count is kept and the table stays well formed. |
| Transformer.ParseAndFlattenColumn | transformer.py:72-87 | A missing column raises KeyError. A successful result is well formed with the same row count. |
| Transformer.ParseWithoutDictReplacesCells | transformer.py:76-86 | With no dictionary among the parsed cells, the column keeps its name and position, and its cells become the parsed values. Every other column is untouched and the row count is kept. |
| Transformer.ParseWithDictSplitsColumn | transformer.py:78-84 | With a dictionary among the parsed cells, the other columns are kept in order. The new columns are exactly the flattened keys of the dictionary rows, named `<column>.<key>`. A row lacking a key, or not a dictionary, holds null there. The row count is kept. |
| Transformer.ParseWithDictLeavesNoDict | transformer.py:80-84 | No cell of the appended columns is a dictionary. |
| Transformer.ParseWithDictOverlapFails | transformer.py:84 | The flatten fails exactly when a `<column>.<key>` name clashes with a remaining column. |
| Transformer.ExplodeAt | transformer.py:94 | Exploding keeps the column names and order and keeps the table well formed. The row count becomes the sum of the exploded cells' multiplicities. |
| Transformer.ExplodeListColumn | transformer.py:89-95 | A missing column raises KeyError. A successful result is well formed. When the column holds no list or tuple, the table comes back unchanged. |
| Transformer.TotalRowsWithoutListLike | transformer.py:93 | Without lists or tuples every row stays one row. |
| Transformer.ExplodeWithoutListLikeIsIdentity | transformer.py:93-95 | With no list or tuple in the column, exploding would change nothing, so the guard skips no real work. |
| Transformer.ExplodeRowCount | transformer.py:94 | The exploded table has one row per member of each non-empty list or tuple, one row per empty one, and one row per other cell (dictionaries included; see "## Left out"). |
| Transformer.ExplodeBlock | transformer.py:94 | The rows exploded from source row r sit consecutively, after those of the rows before r. |
| Transformer.ExplodeRowsInPlace | transformer.py:94 | Output row `offset(i) + m` holds the m-th piece of source row i in the exploded column and repeats row i's cells in every other column. |
| Transformer.EmptyListGivesOneNull | transformer.py:94 | A source row whose cell is an empty list or tuple is not dropped: it becomes exactly one output row, null in the exploded column and repeating the row's cells in every other column. |
| Profiler.ProfileColumn | transformer.py:11-42 | See the list after this table. |
| Profiler.DetectColumnTypes | transformer.py:5-43 | One profile per column, in column order, each satisfying the profile contract. |
| Profiler.ProfileIsUnique | transformer.py:10-43 | The profile contract determines the profile: two profiles of one column are equal. |
| Profiler.CountsPartition | transformer.py:16-22 | Null cells plus typed cells make up the whole column. |
| Profiler.DistributionSumsToNonNullFraction | transformer.py:37 | Because each frequency is divided by the total row count, nulls included, the frequencies sum to one minus the null ratio. |
| Profiler.NullRatioInUnitInterval | transformer.py:18 | The null ratio lies between 0 and 1. |
| Profiler.HalfNullIsNotHeavy | transformer.py:41 | A column exactly half null has ratio 0.5 and is not null-heavy: the threshold is strict. |
| Profiler.TagCountPositive | transformer.py:20-22 | A type is counted exactly when some non-null cell has it. |
| Profiler.MixedMeansTwoTypes | transformer.py:33-34 | `mixed_types` holds exactly when two non-null cells differ in type. |
| Profiler.AllNullColumn | transformer.py:16-41 | An all-null column has an empty distribution, no flags except null-heavy, and ratio 1. |
| Profiler.EmptyColumn | transformer.py:17-18 | A column without rows has null ratio 0 and no flag set. |
| Utils.IsStringifiedObject | utils.py:4-22 | False for non-text. True when literal evaluation yields a list, tuple or dictionary. Otherwise (failure or scalar) true exactly when JSON yields a list or dictionary. |
| Utils.ParsedContainerIsStringified | utils.py:10-21 | Text that `parse_stringified` turns into a container passes the test, given that JSON never yields a tuple. |
| Utils.StringifiedParsesToContainer | utils.py:10-21 | Text that passes the test parses to a container, unless literal evaluation yields a scalar first. |
| Utils.ProfileFlagImpliesStringified | transformer.py:24-31 | A column flagged by the profiler has a cell that passes `is_stringified_object`. |
| Utils.JsonOnlyTextIsNotFlagged | transformer.py:25-31 | `{"a": true}` is a stringified object, yet the profiler does not flag a column holding it. |
| Utils.ColumnSuggestions | utils.py:31-36 | A column gets one suggestion per true flag, at most three. |
| Utils.SuggestTransformations | utils.py:24-37 | The number of suggestions is the total number of true flags; an empty profiling gives none. |
| Utils.SuggestionsAppend | utils.py:30 | The suggestions of concatenated profilings are the concatenated suggestions: columns are visited in order. |
| Utils.SuggestionsOfColumnAt | utils.py:30-36 | Column k's suggestions form one block between those of the columns before and after it. |
| Utils.DropIffNullHeavy | utils.py:33-34 | The drop suggestion appears for a column exactly when it is null-heavy. |
| Utils.SuggestionsNameTheirColumn | utils.py:31-36 | Every suggestion starts with its fixed opening words followed by the column name. |
| Utils.FlattenThenDrop | utils.py:31-34 | A stringified, null-heavy, unmixed column gets exactly the flatten suggestion, then the drop suggestion. |
| Parser.DictColumns | parser.py:65 | Lists exactly the columns holding some dictionary. |
| Parser.ListColumns | parser.py:66 | Lists exactly the columns holding some list; tuples do not count. |
| Parser.NormalizeColumn | parser.py:70-72 | A successful normalisation is well formed with the same row count. |
| Parser.DictPass | parser.py:69-72 | The dictionary pass keeps the table well formed. |
| Parser.ExplodeColumn | parser.py:75 | Fails with KeyError exactly when the column is missing. Otherwise keeps the names and well-formedness, and has the exploded row count. |
| Parser.ListPass | parser.py:73-75 | The list pass keeps the table well formed. |
| Parser.FlattenNestedJson | parser.py:58-76 | When the loop returns, no column holds a dictionary or a list and the table is well formed. A table with neither is returned unchanged. |
| Parser.NothingPendingIsSettled | parser.py:65-68 | The loop stops exactly when no cell is a dictionary or a list. |
| Parser.PassLowersMeasure | parser.py:63-75 | A round that does not fail lowers the greatest nesting depth of the columns still holding dictionaries or lists, so the loop ends. |
| Parser.DictPassShape | parser.py:69-72 | After the dictionary pass every column is either an unlisted input column, unchanged, or named `<listed column>.<key>`. Every unlisted input column survives. |
| Parser.NormalizeMatchesTransformer | parser.py:70-72 | On non-text cells, normalising a dictionary column gives the same result as `parse_and_flatten_column`. |
| Parser.ExplodeMatchesTransformer | parser.py:75 | The loader's explode equals `explode_list_column`, tuples in the column included. |
| Parser.ListPassMissingFails | parser.py:73-75 | A listed column that is missing makes the list pass fail with KeyError. |
| Parser.DictAndListColumnFails | parser.py:65-75 | In the model, a column holding both dictionaries and lists makes the loop fail, provided no column name followed by a dot begins its name: the dictionary pass drops the column and the list pass cannot find it. Without that proviso a new `<column>.<key>` column could take the dropped name. |
| Parser.TuplesAreLeftAlone | parser.py:66-68 | A table whose only containers are tuples is returned unchanged, while `explode_list_column` adds rows for the same tuples. |
| Parser.ExplodeExample | parser.py:75 | Exploding `[[1, 2], 5, []]` gives rows 1, 2, 5 and null, each with its source row's other cells. |
| Logger.NewLogger | logger.py:6-7 | A new log has no entries. |
| Logger.Log | logger.py:9-10 | Logging appends exactly one entry, verbatim, at the end and keeps the earlier ones. |
| Logger.Join | logger.py:13 | Joining no entries gives the empty text; one entry gives that entry. |
| Logger.LogExtendsText | logger.py:12-17 | The first entry becomes the whole text. A later one is appended after the backslash-`n` separator. `export_log_txt` writes this text. |
| Logger.ExportPyIsTextPlusSep | logger.py:24-26 | The script is empty for an empty log. Otherwise it is the log text plus one more separator. |
| Logger.ExportPyIsOneLine | logger.py:26 | With single-line entries, the script as written has no line break at all. |
| Logger.ExportPyMergesEntries | logger.py:19-26 | Read back by lines, the script as written is one line, so two or more entries cannot be recovered. |
| Logger.ExportPyLinesRoundTrip | logger.py:19-26 | With a line break after each entry, reading the script back by lines gives the entries again. |
| Logger.LogTextMergesEntries | logger.py:12-17 | With single-line entries, the log text as written has no line break, so splitting it at line breaks gives one piece and two or more entries cannot be recovered. |
| Logger.LogTextLinesRoundTrip | logger.py:12-17 | Joined with a real line break, the text of a non-empty log splits back into its entries. (An empty log gives the empty text, which splits into one empty piece, as in Python.) |

The profile contract (`Profiler.IsProfileOf`), which `Profiler.ProfileColumn`
establishes:

- The name is the column's name.
- The null ratio is nulls / rows, or 0 without rows.
- The column is null-heavy exactly when the ratio exceeds 0.5.
- The distribution has a key exactly for each type present, valued at that
  type's count / rows.
- The column is mixed exactly when two different types are present.
- The stringified flag is set exactly when some text cell literal-evaluates to
  a container.

## Left out

- `app.py` and `visuals.py` are not part of this model. They are Streamlit
  widgets, plotting, and float quantile arithmetic.
- `load_file` (parser.py:8-42) is not part of this model. It covers the HTTP
  fetch, zip archives and the CSV, Excel and JSON readers.
- The grammars of Python literal evaluation and of JSON (RFC 8259) are not
  modelled. Both parsers are uninterpreted partial functions.
- Sets, bytes, complex numbers and other literal kinds are not modelled.
  Neither are NaN versus None (both are null), numpy type names (the type tags
  are a closed set), non-string dictionary keys or duplicate column names.
- Floating point is not modelled: ratios are exact. The `:.1f` text of the
  null percentage is a parameter `format` of `Utils.SuggestTransformations`.
- Parser.NormalizeColumn: `json_normalize` is modelled per row by the
  `flatten_dict` rule. Rows that are not dictionaries give no keys, and
  columns appear in order of first appearance. Pandas lists a row's top-level
  scalars before its nested keys. On a clash between a dotted key and a nested
  path it keeps the nested value. Neither difference is modelled.
- Pandas index alignment in `join` is not modelled. The model assumes a
  contiguous index 0..rows-1. That holds after the loader's explode
  (parser.py:75) and after `explode_list_column` when it explodes
  (transformer.py:94), since both reset the index. Without a list or tuple in
  the column, `explode_list_column` returns the frame with its input's index
  (transformer.py:95). The index need not be contiguous after `dropna`
  (app.py:114), which leaves gaps, and neither explode without lists nor
  `parse_and_flatten_column` closes them; pandas would then align the join by
  index labels.
- Pandas `explode` on dictionaries, sets, arrays or other iterables is not
  modelled; only lists and tuples are. Pandas treats a dictionary cell as
  list-like: it explodes into its keys, and an empty dictionary into one null.
  The model keeps a dictionary cell whole in one row. This matters only when
  the exploded column holds dictionaries.
- Transformer.ParseWithoutDictReplacesCells: pandas' `apply` re-infers the
  column's dtype (transformer.py:76). Integers next to a null or a float
  become float64, so `["1", None]` gives `[1.0, NaN]`. The model keeps each
  parsed value as it is, so a later profile would report `int` (and possibly
  mixed types) where the program reports `float`.
- Transformer.ParseWithDictSplitsColumn: `json_normalize` builds each key
  column with pandas' dtype inference (transformer.py:81). A column of
  integers with a missing row becomes float64 with NaN. The model keeps the
  integers and puts null in the missing rows.
- Parser.NormalizeMatchesTransformer: the equality holds for the model, where
  both sides use the `flatten_dict` rule. In pandas it holds only when no
  dictionary cell has a dictionary value: for `{"a": {"b": 1}, "c": 2}` the
  loader's `json_normalize` lists `c` before `a.b`, while
  `parse_and_flatten_column` lists `a.b` before `c`.
- The in-place assignment `df[col] = parsed_col` (transformer.py:86) is not
  modelled as mutation. The model returns a new table instead.
- The file writes of `export_log_txt` and `export_log_py` are I/O. Only the
  text they write is modelled (`Logger.LogText`, `Logger.ExportPy`).

## Findings

| source | as written | input that shows it | evidently intended | confidence | as-written member | corrected member |
|---|---|---|---|---|---|---|
| logger.py:26 | Each entry is followed by the two characters backslash and `n`, so the exported "script" is a single line | a log of `import pandas as pd` and `df = df.dropna()` exports `import pandas as pd\ndf = df.dropna()\n` on one line, which is not a runnable script | one entry per line, with a real line break (`"\n"`) | medium; not executed | Logger.ExportPyMergesEntries | Logger.ExportPyLinesRoundTrip |
| logger.py:13 | The log text joins entries with the two characters backslash and `n`; `export_log_txt` writes it to the file unchanged (logger.py:15-17) | a log of `Dropped rows with nulls in 'a'` and `Parsed and flattened 'b'` is written as one line holding a literal `\n` | entries separated by a real line break, as the display produces with `.replace('\\n', '\n')` at app.py:152 | medium; not executed | Logger.LogTextMergesEntries | Logger.LogTextLinesRoundTrip |

`Logger.LogText` and `Logger.ExportPy` model the code as written; the
corrected forms are `Logger.LogTextLines` and `Logger.ExportPyLines`. Only the
app's display converts the separator to a line break (app.py:152); neither
file export does.
