# report_hls model

A Dafny model of `report_hls.py`, the command-line tool that collects the
high-level-synthesis results of hls4ml build directories into one table.
For every build directory the tool does the following:

- reads the project name from `project.tcl`;
- finds the C-synthesis estimate report and the first export report of the
  four it tries;
- coerces the report fields (`parse_csynth`, `parse_export`);
- folds them into one summary record (`summarize`) and adds the latency in
  nanoseconds and the maximum frequency.

It then does the following to the records as a whole:

- adds the `key=value` settings encoded in each directory name
  (`extra_info_from_fname`);
- optionally merges an extra file keyed by epoch;
- builds a table whose columns are all the keys, sorted;
- sorts the rows by the requested columns, where a leading `_` means
  descending and negative numbers weigh a hundredfold. A text cell's key
  is minus infinity times the column's sign, so text cells come first in an
  ascending column and last in a descending one;
- cuts the table down to the requested columns;
- prints it as a terminal table, hiding the `avail_` capacity columns, or
  writes it as JSON, CSV, TSV, Markdown or HTML.

The modules follow the stages:

| Module | What it holds |
|---|---|
| `Results` | the result type and the tool's error cases |
| `Text` | Python string helpers |
| `Values` | int, float and str cell values and Python equality on them |
| `Reports` | the field coercions and `summarize` |
| `Discovery` | `load_summary` |
| `Annotate` | `extra_info_from_fname` and `Path.name` |
| `Merge` | the name settings and the extra file |
| `Tables` | the table, the column selection and the mask |
| `Sorting` | the sort |
| `Render` | `pretty_print` |
| `Export` | the file formats |
| `Pipeline` | the main block |

Some parts of the source change things in place, and the model follows
them:

- `summarize` pops entries from its first argument, so the record is the
  class `Reports.Dict`, whose `Pop` method removes and returns an entry.
  `Reports.Summarize`, with its steps `Reports.CheckAgreement` and
  `Reports.Assemble`, are module-level methods that take a `Dict` and pop
  from it.
- Loops that build a value (the field reads, the key collection, the table,
  the row formatting, the file writing, the main block) are methods. Each is
  proved equal to a specification function, and the properties are lemmas
  about those functions.

Floats are modelled by the exact real number their decimal text denotes.
These float operations are parameters of the model rather than parts of it:

- `float()` on a clock period;
- `str()` of a float;
- the integer digit count `ceil(log10(abs(v) + 1))`, `round(v, k)` and the
  fixed-point format `{:.pf}` that `pretty_print` applies to float cells.
  The branches around them are modelled, including the ValueError raised
  when a float does not fit its column and the precision `w - n - 1` is
  negative.

## Model

| member | source | states |
|---|---|---|
| Text.DigitsParse | report_hls.py:33 | text that `isdigit()` accepts is read by `int()` as the value of its digits |
| Text.ParseIntRoundTrip | report_hls.py:61 | `int(str(n)) == n` for every integer |
| Reports.CoerceEstimate | report_hls.py:33 | a field becomes an int exactly when its text is all digits, and that int is what `int()` reads; otherwise it stays the same text; never a float |
| Reports.ReadFields | report_hls.py:27-33 | the fields read succeed iff every field is found and coerces; the record has exactly those keys with the coerced values; on failure the error is that of the first failing field, all earlier ones having read |
| Reports.FillFields | report_hls.py:27-33 | the loop over the fields returns exactly `ReadFields` |
| Reports.ParseEstimate | report_hls.py:11-34 | `parse_csynth` reads the ten estimate fields in order with the digit coercion |
| Reports.EstimateRecordShape | report_hls.py:27-33 | `parse_csynth` fails iff a field is missing, failing with `MissingField` of a missing estimate field; on success its keys are the ten fields and each value is the digit coercion of its text |
| Reports.ParseExport | report_hls.py:37-62 | `parse_export` reads the thirteen export fields in order with the clock and int coercions |
| Reports.ExportRecordShape | report_hls.py:56-61 | `parse_export` succeeds iff every field is found and every non-clock field is an integer text; clock fields become `float()` of their text, the others the integer `int()` reads |
| Reports.Dict.Pop | report_hls.py:66-76 | popping a present key returns its value and removes it; popping an absent key is a KeyError that changes nothing |
| Reports.Get | report_hls.py:70-83 | a lookup succeeds iff the key is present, returning its value, and otherwise fails with `MissingField` of that key |
| Reports.CheckAgreement | report_hls.py:66-67 | the two assertions give `Agreement` of the estimate: a missing field is a KeyError, unequal worst and best latency or II fail, and otherwise the estimate is left without its two best fields |
| Reports.Assemble | report_hls.py:68-85 | the returned dict is `Assembled`, failing on the first missing field in display order; on success exactly the worst latency, worst II and pipeline are popped |
| Reports.Summarize | report_hls.py:65-85 | the result is `Summary` of the estimate before the call; on success the five popped fields are gone from the estimate and nothing else changed; on failure only popped fields may be gone |
| Reports.SummaryNeedsAgreement | report_hls.py:66-67 | a summary exists only if worst and best latency are present and equal, and so are worst and best II |
| Reports.SummaryRejectsLatencyMismatch | report_hls.py:66 | unequal worst and best latency fail the latency assertion |
| Reports.SummarySucceeds | report_hls.py:65-85 | with all popped and copied fields present and both assertions holding, the summary exists |
| Reports.SummaryFieldNames | report_hls.py:68-85 | a summary has exactly the fifteen listed keys and no `CLB` |
| Reports.SummaryFromEstimate | report_hls.py:69-76 | `Latency`, `II` and `pipeline` are the worst-case latency, the worst-case II and the pipeline type of the estimate |
| Reports.SummaryFromExport | report_hls.py:70-83 | every copied export field holds the export report's value |
| Discovery.ProjectName | report_hls.py:89-92 | reading the name fails iff the marker is absent or nothing follows it; the name holds no line break and neither starts nor ends with a quote |
| Discovery.FindIsFirst | report_hls.py:91 | `find` returns the first position where the pattern occurs |
| Discovery.ProjectNameReadsBack | report_hls.py:89-92 | a quoted name written on the line after the first marker is the name read back |
| Discovery.FirstExisting | report_hls.py:98-107 | the index found is that of an existing candidate with no existing candidate before it, and none is found iff no candidate exists |
| Discovery.ExportReport | report_hls.py:98-109 | the export report is found iff one of the four candidates exists; it is the first existing one in vhdl/verilog, project/impl order; otherwise the error is FileNotFoundError naming the directory |
| Discovery.LoadSummary | report_hls.py:88-125 | `load_summary` returns exactly `LoadedSummary` |
| Discovery.ExportSearchFirst | report_hls.py:98-112 | with no export report the directory fails, even when the estimate report is also missing |
| Discovery.MissingEstimateIsEmpty | report_hls.py:110-112 | with an export report but no estimate report the record is empty |
| Discovery.DerivedFields | report_hls.py:122-123 | `Latency [ns]` is latency times the achieved clock, `Fmax [MHz]` is 1000 over it, and every other field is kept |
| Discovery.LoadedFromSummary | report_hls.py:114-123 | a non-empty loaded record is a summary with the derived fields added |
| Discovery.LoadedRecord | report_hls.py:121-125 | a non-empty loaded record has the fifteen summary fields plus the two derived ones with their defining values |
| Annotate.NextCut | report_hls.py:143 | the next cut is the first position at or after `i` where the split pattern matches |
| Annotate.SplitJoin | report_hls.py:143 | joining the pieces of the name with `-` gives the name back |
| Annotate.SplitPiecesUncut | report_hls.py:143 | no piece contains a position where the split pattern matches, and the hyphen after each piece but the last is such a position of the name: the name is split exactly at its cuts |
| Annotate.SplitSeparatorsAreCuts | report_hls.py:143 | the hyphen that follows the first `k` pieces (at the length of their `-` join) is a position of the name where the split pattern matches |
| Annotate.MixedSplit | report_hls.py:143 | `dc=2-p=5.0-da=True` splits into its three settings |
| Annotate.ExponentSplit | report_hls.py:143 | `lr=1e-3-x=-1` splits only before `x`: the dash after an `e` and the dash before a digit are not cuts |
| Annotate.CoerceToken | report_hls.py:148-162 | a value with a `.` is a float iff `float()` reads it, and never an int; a value without one is an int iff `int()` reads it, and never a float; anything else stays the text |
| Annotate.ExtraInfoFromName | report_hls.py:141-163 | the loop over the pieces returns exactly `NameInfo` |
| Annotate.InfoKeys | report_hls.py:144-147 | the keys are exactly the text before the first `=` of the pieces that hold one |
| Annotate.InfoLastWins | report_hls.py:144-162 | the value of a key is the coerced value of its last piece |
| Annotate.InfoAppend | report_hls.py:144-162 | one more piece with an `=` sets its key to its coerced value |
| Annotate.MixedSettings | report_hls.py:141-163 | `dc=2-p=5.0-da=True` gives int 2, float 5.0 and the string `True` |
| Annotate.ExponentAndSign | report_hls.py:141-163 | `lr=1e-3-x=-1` gives the string `1e-3` (no `.`, not an int) and the int -1 |
| Annotate.ExponentValue | report_hls.py:144-162 | the piece `lr=1e-3` has key `lr` and stays the string `1e-3` |
| Annotate.NegativeValue | report_hls.py:144-162 | the piece `x=-1` has key `x` and becomes the int -1 |
| Annotate.PathName | report_hls.py:255 | `Path(p).name` holds no `/` and is never `.` |
| Annotate.PathNameOfChild | report_hls.py:255 | the name of `dir/name`, with or without a trailing slash, is `name` |
| Merge.WithDefaults | report_hls.py:256-257 | `setdefault` over every setting keeps every existing value and adds exactly the settings not present |
| Merge.SetDefaults | report_hls.py:256-257 | the `setdefault` loop computes `WithDefaults` |
| Merge.NamedRecords | report_hls.py:254-257 | each record gets the settings of its own directory name as defaults |
| Merge.AddNameSettings | report_hls.py:254-257 | the loop over paths and records computes `NamedRecords` |
| Merge.ExtraEpoch | report_hls.py:263 | an extra key gives an epoch iff its text before the first `-` holds an `=` followed by an integer text, and the epoch is the value of that integer text; otherwise the error names the key |
| Merge.ExtraEpochReadsBack | report_hls.py:263 | a key `name=N` optionally followed by `-` and anything, with no `=` or `-` in `name`, gives back epoch `N` |
| Merge.ExtraTableFails | report_hls.py:263 | reading the extra file fails iff some key gives no epoch |
| Merge.ExtraTableLastWins | report_hls.py:263 | an epoch maps to the entry of its last key in the file |
| Merge.EpochKey | report_hls.py:262-265 | a record's epoch finds an extra entry iff it is a whole number, which is then the int key |
| Merge.FileByEpoch | report_hls.py:262 | filing records by epoch fails iff a record has no epoch; otherwise each epoch maps to its last record |
| Merge.ReadExtra | report_hls.py:263 | the comprehension over the extra file computes `ExtraTable` |
| Merge.ApplyEntries | report_hls.py:264-266 | the `update` loop fails iff some record's epoch finds no entry; otherwise each epoch's kept record gets its entry's fields and every other record is unchanged |
| Merge.MergeExtra | report_hls.py:259-266 | the merge loop computes `MergedExtra` |
| Merge.MergedNeedsEntries | report_hls.py:262-265 | the merge succeeds iff every record has an epoch, the extra file reads, and every epoch has an entry |
| Merge.MergedOverwrites | report_hls.py:264-266 | the last record of each epoch gets the entry's keys, with the entry's values winning, and every other record is unchanged |
| Merge.EarlierTwinUnchanged | report_hls.py:262-266 | a record followed by one with an equal epoch is not updated |
| Tables.AllKeysMeaning | report_hls.py:268-270 | the keys collected are exactly those present in some record |
| Tables.Insert | report_hls.py:271 | inserting a new key into a strictly sorted list keeps it strictly sorted and adds exactly that key |
| Tables.SortedKeys | report_hls.py:268-271 | the attribute list is strictly sorted and holds exactly the keys of the records |
| Tables.SortedUnique | report_hls.py:271 | two strictly sorted lists with the same elements are equal |
| Tables.SortedKeysOf | report_hls.py:271 | `sorted(set)` is strictly sorted and has exactly the set's elements |
| Tables.RecordRow | report_hls.py:274 | a record's row has one cell per column, its value there or `''` |
| Tables.BuildTable | report_hls.py:268-274 | the header is the sorted keys of all records; there is one row per record, as long as the header, whose cells are the record's values or `''` |
| Tables.IndexOf | report_hls.py:278 | `list.index` finds the first occurrence, and fails iff the name is absent |
| Tables.ColumnIndices | report_hls.py:297 | the selection succeeds iff every requested column exists; each index points at its column; otherwise the error names the first unknown column |
| Tables.ProjectMeaning | report_hls.py:296-298 | the projected header is the requested columns in order; each cell comes from the same row's cell in that column; an unknown column fails |
| Tables.Unmasked | report_hls.py:302-303 | the kept positions are increasing, hold no `avail_` column, and include every other column |
| Tables.UnmaskedHeader | report_hls.py:302-303 | the kept header is the header without the `avail_` columns |
| Tables.MaskHeader | report_hls.py:302-303 | the masked header holds no `avail_` column and every other column of the table |
| Tables.MaskCells | report_hls.py:302-303 | the masked table keeps every row, and each of its cells is the same row's cell under the same column name |
| Tables.MaskMeaning | report_hls.py:300-303 | the mask drops exactly the `avail_` columns, keeps the row count, and every kept cell is the original cell under the same header |
| Sorting.LexIrreflexive | report_hls.py:285-293 | no sort-key tuple is less than itself |
| Sorting.LexTransitive | report_hls.py:285-293 | the tuple order is transitive |
| Sorting.LexTotal | report_hls.py:285-293 | any two sort-key tuples are equal or ordered |
| Sorting.ParseSortKeysMeaning | report_hls.py:277-281 | the sort keys parse iff every name, without its `_`, is a column; each key points at its column with sign -1 exactly for `_` names; otherwise the error is an unknown column |
| Sorting.NonNumericPlacement | report_hls.py:285-291 | a non-numeric cell sorts before every number ascending and after every number descending |
| Sorting.NegativeWeighsHundredfold | report_hls.py:288 | `-x` sorts exactly where `100 x` does |
| Sorting.RowKey | report_hls.py:285-293 | a row's key is the tuple of its signed cell keys for the sort columns |
| Sorting.SortRows | report_hls.py:283-294 | the sort returns a permutation of the rows |
| Sorting.SortSorted | report_hls.py:283-294 | the sorted rows are in non-decreasing key order |
| Sorting.SortStable | report_hls.py:283-294 | rows with equal keys keep their relative order |
| Sorting.SortTable | report_hls.py:276-294 | a sorted table keeps its header and its row count |
| Sorting.SortTableMeaning | report_hls.py:276-294 | with sort keys given, the sort succeeds iff every key names a column; an unknown key is an unknown-column error; the result keeps the header and is a sorted, stable permutation of the rows |
| Render.RowsWidth | report_hls.py:169-176 | the width of a column is at least every cell's width, and equals one of them |
| Render.NaturalWidthIsWidest | report_hls.py:169-177 | a natural width is at least the header's and every cell's width, with a float counted as at most 6, and equals one of them |
| Render.ColumnWidthsMeaning | report_hls.py:178-182 | the widths fail (division by zero) iff there are no columns and no terminal width; no width exceeds its natural width; the natural widths are kept when they fit; cut columns share one width of at least 8 that no column exceeds |
| Render.WidthsWithinBudget | report_hls.py:178-182 | with at least 10 columns' worth of terminal per column, the chosen widths pass the fit test |
| Render.HeaderCells | report_hls.py:184-190 | each header cell is its name padded or cut to its column width |
| Render.Dashes | report_hls.py:191 | each rule cell is its column width in dashes |
| Render.CellTextFails | report_hls.py:198-210 | a cell fails iff it is a float whose rounded text is wider than the column and the width is less than its integer digits plus one; the error is the negative-precision ValueError |
| Render.RowCells | report_hls.py:196-213 | a row fails iff one of its cells does; otherwise each cell is the text of the value in it, formatted for its own column width |
| Render.RowLinesFail | report_hls.py:194-214 | the data lines fail iff some cell of some row fails with the given widths |
| Render.FormatRow | report_hls.py:195-213 | the loop over a row's cells computes `RowCells`, stopping at the first cell that raises |
| Render.FormatRows | report_hls.py:194-214 | the loop over the rows computes `RowLines`, stopping at the first row that raises |
| Render.PrettyPrint | report_hls.py:166-215 | the printed text is the header line, the rule and one line per row, joined by newlines, or the error of the widths or of the first failing cell |
| Render.RenderedFails | report_hls.py:178-214 | printing fails with the widths' error when they fail, and otherwise iff some cell fails with the chosen widths |
| Render.WideFloatFails | report_hls.py:169-208 | a column `lr` holding the float `12345678.5` is 6 wide, and printing it fails with the negative-precision ValueError |
| Render.CellTextWidth | report_hls.py:196-212 | a cell's text is at least its column width, and any cell other than a float succeeds with exactly that width |
| Render.LineLengths | report_hls.py:184-214 | when printing succeeds, there are two more lines than rows; the header, the rule and every row without floats are `sum of widths + 3n + 1` characters long |
| Render.FitTestUndercounts | report_hls.py:178 | a five-letter single column passes the fit test for an 8-wide terminal but prints 9-character lines |
| Export.Suffix | report_hls.py:308 | `Path.suffix` is empty or a `.` followed by at least one character with no `.` or `/` |
| Export.SuffixOfFile | report_hls.py:308 | `base.ext` and `dir/base.ext` have suffix `.ext` |
| Export.SuffixOfName | report_hls.py:308 | a name `base.ext` is its own `Path.name` and has suffix `.ext` |
| Export.HiddenFileHasNoSuffix | report_hls.py:308 | `.csv` has no suffix, so it is an unsupported format |
| Export.TextRows | report_hls.py:318-329 | the text rows are the header followed by each row's cells as `str()` gives them |
| Export.CsvFields | report_hls.py:313-319 | each cell is quoted exactly as the CSV cell function quotes it |
| Export.CsvQuoting | report_hls.py:314 | a CSV cell is unchanged iff it holds no comma, and otherwise is wrapped in quotes with no escaping |
| Export.CsvAmbiguous | report_hls.py:314-319 | the cells `"a` and `b"` and the single cell `a,b` write the same CSV line |
| Export.DelimitedRoundTrip | report_hls.py:311-319 | when no cell holds a newline or the separator, splitting the file at newlines and then at the separator gives back the rows |
| Export.MarkdownPipes | report_hls.py:320-324 | when no cell holds a `\|`: the Markdown file has two more lines than rows, each line has one `\|` more than there are columns, and splitting the header line and each row line at `\|` gives back its cells, each padded with one space on either side, between two empty pieces |
| Export.MarkdownLinePipes | report_hls.py:321-324 | for rows of `n` pipe-free cells, the Markdown text has one line more than the rows, each line has `n + 1` pipes, and the header and row lines split at `\|` give back their cells, space-padded |
| Export.FramedSplit | report_hls.py:321 | a line `\| c1 \| … \| cn \|` of pipe-free cells splits at `\|` into an empty piece, each cell with a space either side, and an empty piece |
| Export.PaddedSplit | report_hls.py:321 | the `' \| '` join of pipe-free cells, framed by a space and ` \|`, splits at `\|` into the space-padded cells and an empty piece |
| Export.RulePipes | report_hls.py:322 | the `---` rule has one `\|` more than there are columns |
| Export.HtmlShape | report_hls.py:325-330 | the HTML file opens with `<table>`, closes with `</table>`, and has one `<tr>` line for the header and for each row between them; when no cell holds a `<`, splitting the header line at `<` gives each header cell inside a `th` tag and each row line each of its cells inside a `td` tag, in order and unescaped |
| Export.HtmlLinesOpen | report_hls.py:327-329 | every line between `<table>` and `</table>` starts with `  <tr>` |
| Export.HtmlLinesSplit | report_hls.py:327-329 | for `<`-free cells, the header line split at `<` holds `th>` plus each header cell followed by `/th>`, and each row line `td>` plus each of its cells followed by `/td>`, in order |
| Export.HtmlRowSplit | report_hls.py:327 | one `<tr>` line of `<`-free cells split at `<` gives the indent, `tr>`, each cell's two tag pieces in order, and `/tr>` |
| Export.TaggedSplit | report_hls.py:327 | the `''.join` of `<name>cell</name>` for `<`-free cells, before a text that starts with `<`, splits at `<` into an empty piece, then `name>cell` and `/name>` for each cell in order, then the text's own pieces |
| Export.TagPieces | report_hls.py:327 | the `<`-pieces of a tagged run: entry `2j` is `name>` followed by cell `j`, entry `2j+1` is `/name>` |
| Export.WriteTable | report_hls.py:307-332 | the writing loop computes `Exported` |
| Export.WriteLines | report_hls.py:319-330 | writing the lines one `f.write` at a time gives each line followed by a newline, in order |
| Export.ExportedFailsOnUnknownSuffix | report_hls.py:308-332 | writing fails iff the suffix is not one of the five formats, with an error naming that suffix; `.json` dumps the records |
| Pipeline.Collect | report_hls.py:253 | all records load iff every directory loads; otherwise the error is that of the first directory that fails |
| Pipeline.CollectStops | report_hls.py:253 | the first failing directory's error is the one reported |
| Pipeline.LoadDirectories | report_hls.py:253 | the loop over the paths computes `LoadAll` |
| Pipeline.Selected | report_hls.py:268-298 | the sorted, selected table is rectangular |
| Pipeline.Shown | report_hls.py:300-303 | the table shown on the terminal is rectangular |
| Pipeline.Run | report_hls.py:251-332 | the main block computes `Report`: load, add the settings, merge, tabulate, sort, select, then print or write |
| Pipeline.ShownColumns | report_hls.py:296-303 | without `--columns` the terminal shows every column except the `avail_` ones; with `--columns` it shows exactly the requested ones in order |
| Pipeline.SelectedRows | report_hls.py:268-298 | the selected table has one row per record, and without `--columns` its header is every key of every record |
| Pipeline.UnknownColumnFails | report_hls.py:276-298 | an unknown sort key or column fails the run with an unknown-column error |

## Left out

- XML parsing, the XPath lookups and the `DSP48E?\d?` rewrite: each report is given as the map from field name to the first text its XPath selects.
- Reports.ParseExport: `float()` of a clock period, and the NaN for `NA`, are the parameter `clockOf`. The model has no NaN, so NaN comparisons are not modelled.
- `float()` in the file-name annotator accepts a sign, digits, a `.`, more digits and an exponent. Python's `inf`, `nan`, underscores and surrounding whitespace are not accepted.
- `int()` accepts an optional sign and ASCII digits, without surrounding whitespace or underscores.
- `isdigit()` accepts ASCII digits only; other Unicode digits are not modelled.
- `str()` of a float is the parameter `showFloat`, standing for Python's shortest round-trip printing.
- Render.PrettyPrint: `ceil(log10(...))`, `round` and the `{:.pf}` format of float cells are the parameters `fmt.digits`, `fmt.round` and `fmt.fixed`, so their floating-point results are not modelled. The int-typed branch is left out, because `round` with a precision always returns a float.
- Floats are exact reals, so double-precision rounding in `Latency [ns]`, `Fmax [MHz]` and the sort keys is not modelled.
- `parse_timing_summary` is never called by the tool, so it is not modelled.
- `convert_hls.py` is not part of this model.
- Reading files, `json.load` and `json.dump`: the extra file is given as the items of the object `json.load` returns, in their order, and the JSON output is recorded as the records to dump rather than as JSON text.
- Merge.ReadExtra: an extra-file entry's fields are ints, floats or strings. JSON `true`, `false`, `null`, arrays and nested objects cannot occur, though Python would carry them into the table (a bool sorts as a number, and `None` prints as `None`). Keys repeated inside one JSON object have already collapsed, as `json.load` collapses them (the last value at the first key's position).
- Argument parsing, `print`, `exit` and `os.get_terminal_size`: the parsed options and the terminal width are parameters.
- The output file is created before an unsupported format is rejected; that empty file is not modelled.
- The "No csynth.xml found" message printed before returning an empty record is not modelled.
- The main block's records are values. `dd`'s entries are the records themselves, so Python updates them in place; the model replaces them in the sequence instead, which gives the same records.
- Merge.MergeExtra: Python visits `dd` in first-insertion order; the model's update loop (Merge.ApplyEntries) takes the epochs still to do in no fixed order. Each epoch's kept record is updated once, from its own entry, and the "No extra info" error does not name the epoch, so every order gives the same records and the same error. The message of that assertion is not modelled.
- A record loaded as empty (no estimate report) has an `epoch` only when its directory name holds an `epoch=` setting, which `setdefault` then adds. Without one, the extra merge fails on it; the model states this failure (a missing `epoch` field) instead of the KeyError traceback.
- Reports.ParseExport: `clockOf` is a total function, so the `ValueError` that `float()` raises on a clock text that is neither a number nor `NA` cannot occur in the model.
- Annotate.IsCut: the split pattern's `\d` matches any Unicode decimal digit, but IsCut tests for the ASCII digits `0`-`9` only; a hyphen before a digit of another script is a cut in the model and not in Python.
- Pipeline.Run: requires at least one directory, as the argument parser's `nargs='+'` does.
