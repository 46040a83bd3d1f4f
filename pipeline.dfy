/** The command-line run of report_hls.py (report_hls.py:218-332): load
    every build directory, add the settings in the directory names, merge
    the optional extra file, build the table, sort it, cut it down to the
    requested columns, then print it or write it out.

    Argument parsing, the file reads and writes, the terminal and `exit`
    are not modelled: the parsed options, the build directories, the
    extra file's entries and the terminal width are given. */
module Pipeline {
  import opened Results
  import opened Values
  import opened Discovery
  import opened Annotate
  import opened Merge
  import opened Tables
  import opened Sorting
  import opened Render
  import opened Export

  /** The parsed command line: the extra file is `None` when `--extra` is
      not given, and otherwise its entries in file order. */
  datatype Options = Options(
    output: string,
    extra: Option<seq<(string, Record)>>,
    sortBy: seq<string>,
    columns: seq<string>)

  /** The outside world the run reads: float parsing and printing, and the
      terminal width. */
  datatype Environment = Environment(clockOf: string -> real, fmt: FloatFormat, tw: nat)

  /** What the run leaves behind. */
  datatype Outcome =
    | Printed(text: string)                 // the table on standard output
    | SavedRecords(records: seq<Record>)    // the records dumped as JSON
    | SavedText(text: string)               // the table written as text

  /** All the values, or the first error. */
  function Collect(results: seq<Result<Record>>): (r: Result<seq<Record>>)
    ensures r.Ok? <==> forall i :: 0 <= i < |results| ==> results[i].Ok?
    ensures r.Ok? ==> |r.value| == |results| && forall i :: 0 <= i < |results| ==> r.value[i] == results[i].value
    ensures r.Err? ==> exists i :: 0 <= i < |results| && results[i] == Err(r.error)
                                  && (forall j :: 0 <= j < i ==> results[j].Ok?)
  {
    if results == [] then Ok([])
    else
      var first :- results[0];
      var rest := Collect(results[1..]);
      if rest.Err? then
        var i :| 0 <= i < |results[1..]| && results[1..][i] == Err(rest.error) && (forall j :: 0 <= j < i ==> results[1..][j].Ok?);
        assert results[i + 1] == Err(rest.error);
        Err(rest.error)
      else Ok([first] + rest.value)
  }

  /** Loads every directory. */
  function Loads(dirs: seq<BuildDir>, clockOf: string -> real): (results: seq<Result<Record>>)
    ensures |results| == |dirs|
    ensures forall i :: 0 <= i < |dirs| ==> results[i] == LoadedSummary(dirs[i], clockOf)
  {
    seq(|dirs|, i requires 0 <= i < |dirs| => LoadedSummary(dirs[i], clockOf))
  }

  /** `[load_summary(Path(p)) for p in args.paths]`: the first directory
      that fails stops the run. */
  function LoadAll(dirs: seq<BuildDir>, clockOf: string -> real): Result<seq<Record>> {
    Collect(Loads(dirs, clockOf))
  }

  function Paths(dirs: seq<BuildDir>): (paths: seq<string>)
    ensures |paths| == |dirs| && forall i :: 0 <= i < |dirs| ==> paths[i] == dirs[i].path
  {
    seq(|dirs|, i requires 0 <= i < |dirs| => dirs[i].path)
  }

  /** The records after the name settings and the extra file. */
  function Records(dirs: seq<BuildDir>, opts: Options, env: Environment): Result<seq<Record>> {
    var loaded :- LoadAll(dirs, env.clockOf);
    var named := NamedRecords(Paths(dirs), loaded);
    if opts.extra.Some? then MergedExtra(named, opts.extra.value) else Ok(named)
  }

  /** The table after sorting and the column selection. */
  ghost function Selected(vals: seq<Record>, opts: Options): (r: Result<Table>)
    ensures r.Ok? ==> Rectangular(r.value)
  {
    var t := Tabulated(vals);
    var sorted :- SortTable(t, opts.sortBy);
    if opts.columns == [] then Ok(sorted)
    else
      ProjectMeaning(sorted, opts.columns);
      Project(sorted, opts.columns)
  }

  /** What goes to the terminal: without `--columns`, the capacity columns
      are hidden. */
  function Shown(t: Table, opts: Options): (r: Table)
    requires Rectangular(t)
    ensures Rectangular(r)
  {
    if opts.columns == [] then
      MaskMeaning(t);
      Mask(t)
    else t
  }

  /** The whole run. */
  ghost function Report(dirs: seq<BuildDir>, opts: Options, env: Environment): Result<Outcome> {
    var vals :- Records(dirs, opts, env);
    var t :- Selected(vals, opts);
    if opts.output == "stdout" then
      var text :- RenderedText(Shown(t, opts), env.fmt, env.tw);
      Ok(Printed(text))
    else
      var w :- Exported(t, opts.output, env.fmt.show);
      if w.RecordsAsJson? then Ok(SavedRecords(vals)) else Ok(SavedText(w.text))
  }

  /** The list comprehension over the paths, one directory at a time. */
  method LoadDirectories(dirs: seq<BuildDir>, clockOf: string -> real) returns (r: Result<seq<Record>>)
    ensures r == LoadAll(dirs, clockOf)
  {
    var loaded: seq<Record> := [];
    var i := 0;
    while i < |dirs|
      invariant 0 <= i <= |dirs|
      invariant |loaded| == i
      invariant LoadedAs(dirs, clockOf, loaded)
    {
      var val := LoadSummary(dirs[i], clockOf);
      if val.Err? {
        CollectStops(Loads(dirs, clockOf), i);
        return Err(val.error);
      }
      LoadedAsExtend(dirs, clockOf, loaded, val.value);
      loaded := loaded + [val.value];
      i := i + 1;
    }
    CollectAll(Loads(dirs, clockOf), loaded);
    r := Ok(loaded);
  }

  /** The first `|loaded|` directories loaded as `loaded`. */
  predicate LoadedAs(dirs: seq<BuildDir>, clockOf: string -> real, loaded: seq<Record>) {
    |loaded| <= |dirs| && forall k :: 0 <= k < |loaded| ==> LoadedSummary(dirs[k], clockOf) == Ok(loaded[k])
  }

  lemma LoadedAsExtend(dirs: seq<BuildDir>, clockOf: string -> real, loaded: seq<Record>, v: Record)
    requires LoadedAs(dirs, clockOf, loaded) && |loaded| < |dirs|
    requires LoadedSummary(dirs[|loaded|], clockOf) == Ok(v)
    ensures LoadedAs(dirs, clockOf, loaded + [v])
  {
    assert forall k :: 0 <= k < |loaded| ==> (loaded + [v])[k] == loaded[k];
  }

  /** The run, stage by stage, as the main block performs it. */
  method Run(dirs: seq<BuildDir>, opts: Options, env: Environment) returns (r: Result<Outcome>)
    requires |dirs| >= 1
    ensures r == Report(dirs, opts, env)
  {
    var loaded :- LoadDirectories(dirs, env.clockOf);
    var paths := Paths(dirs);
    var vals := AddNameSettings(paths, loaded);
    if opts.extra.Some? {
      vals :- MergeExtra(vals, opts.extra.value);
    }
    var t := BuildTable(vals);
    t :- SortTable(t, opts.sortBy);
    if opts.columns != [] {
      ProjectMeaning(t, opts.columns);
      t :- Project(t, opts.columns);
    }
    if opts.output == "stdout" {
      var text :- PrettyPrint(Shown(t, opts), env.fmt, env.tw);
      return Ok(Printed(text));
    }
    var w :- WriteTable(t, opts.output, env.fmt.show);
    if w.RecordsAsJson? {
      return Ok(SavedRecords(vals));
    }
    return Ok(SavedText(w.text));
  }

  /** The first error is the one collected. */
  lemma {:induction false} CollectStops(results: seq<Result<Record>>, i: nat)
    requires i < |results| && results[i].Err?
    requires forall k :: 0 <= k < i ==> results[k].Ok?
    ensures Collect(results) == Err(results[i].error)
  {
    if i > 0 {
      CollectStops(results[1..], i - 1);
    }
  }

  /** With no error, everything is collected. */
  lemma {:induction false} CollectAll(results: seq<Result<Record>>, vals: seq<Record>)
    requires |vals| == |results|
    requires forall k :: 0 <= k < |results| ==> results[k].Ok? && vals[k] == results[k].value
    ensures Collect(results) == Ok(vals)
  {
    if results != [] {
      CollectAll(results[1..], vals[1..]);
      assert vals == [vals[0]] + vals[1..];
    }
  }

  // ---------------------------------------------------------------------
  // Properties of the run

  /** On the terminal, without `--columns` no capacity column is shown and
      every other column is; with `--columns` exactly the requested
      columns are shown, in the requested order. */
  lemma ShownColumns(vals: seq<Record>, opts: Options)
    requires Selected(vals, opts).Ok?
    ensures var t := Selected(vals, opts).value;
      var shown := Shown(t, opts).header;
      && (opts.columns == [] ==> shown == WithoutCapacity(Tabulated(vals).header))
      && (opts.columns != [] ==> shown == opts.columns)
  {
    var sorted := SortTable(Tabulated(vals), opts.sortBy).value;
    if opts.columns == [] {
      MaskMeaning(sorted);
    } else {
      ProjectMeaning(sorted, opts.columns);
    }
  }

  /** The selected table keeps one row per record, and before any column
      selection its header is every key of every record. */
  lemma SelectedRows(vals: seq<Record>, opts: Options)
    requires Selected(vals, opts).Ok?
    ensures |Selected(vals, opts).value.rows| == |vals|
    ensures opts.columns == [] ==>
      forall k :: k in Selected(vals, opts).value.header <==> exists i :: 0 <= i < |vals| && k in vals[i]
  {
    var sorted := SortTable(Tabulated(vals), opts.sortBy).value;
    AllKeysMeaning(vals);
    if opts.columns != [] {
      ProjectMeaning(sorted, opts.columns);
    }
  }

  /** An unknown sort key or column fails the run before anything is
      printed or written. */
  lemma UnknownColumnFails(dirs: seq<BuildDir>, opts: Options, env: Environment)
    requires Records(dirs, opts, env).Ok?
    requires var h := Tabulated(Records(dirs, opts, env).value).header;
      (opts.sortBy != [] && exists j :: 0 <= j < |opts.sortBy| && ColumnName(opts.sortBy[j]) !in h)
      || (exists c :: c in opts.columns && c !in h)
    ensures Report(dirs, opts, env).Err? && Report(dirs, opts, env).error.UnknownColumn?
  {
    var vals := Records(dirs, opts, env).value;
    var t := Tabulated(vals);
    if opts.sortBy != [] {
      SortTableMeaning(t, opts.sortBy);
    }
    var sorted := SortTable(t, opts.sortBy);
    if sorted.Ok? {
      ProjectMeaning(sorted.value, opts.columns);
    }
  }
}
