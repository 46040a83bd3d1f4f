/** `load_summary` (report_hls.py:88-125): finding the project name and the
    two reports of one build directory, and turning them into its record.

    The file system is not modelled: a build directory is its
    `project.tcl` text (if that file exists) and the set of report files
    that exist under it, each with the results of its XPath lookups. */
module Discovery {
  import opened Results
  import opened Text
  import opened Values
  import opened Reports

  datatype BuildDir = BuildDir(
    path: string,                                // the path given on the command line
    projectTcl: Option<string>,                  // the text of project.tcl, if it exists
    reports: map<string, map<string, string>>)   // existing report (path relative to `path`) to its fields

  const Marker: string := "set project_name "

  // ---------------------------------------------------------------------
  // The project name

  /** The project name in project.tcl: the text after the first
      `set project_name `, up to the first line boundary, stripped of
      whitespace and then of double quotes. It is an IndexError when the
      marker is absent or nothing follows it. */
  function ProjectName(tcl: string): (r: Result<string>)
    ensures r.Err? <==> Find(tcl, Marker).None? || Find(tcl, Marker).value + |Marker| == |tcl|
    ensures r.Err? ==> r.error == NoProjectName
    ensures r.Ok? ==> forall i :: 0 <= i < |r.value| ==> r.value[i] !in LineBreaks
    ensures r.Ok? && r.value != [] ==> r.value[0] != '"' && r.value[|r.value| - 1] != '"'
  {
    match Find(tcl, Marker)
    case None => Err(NoProjectName)
    case Some(i) =>
      var rest := tcl[i + |Marker|..];
      if rest == [] then Err(NoProjectName)
      else
        var line := rest[..FindAny(rest, LineBreaks)];
        Ok(Strip(Strip(line, WhiteSpace), {'"'}))
  }

  /** `Find` returns the first occurrence, so an occurrence with none before
      it is what `Find` returns. */
  lemma FindIsFirst(s: string, pat: string, i: nat)
    requires i <= |s| && StartsWith(s[i..], pat)
    requires forall j :: 0 <= j < i ==> !StartsWith(s[j..], pat)
    ensures Find(s, pat) == Some(i)
    decreases i
  {
    if i > 0 {
      assert !StartsWith(s[0..], pat) && s[0..] == s;
      assert s[1..][i - 1..] == s[i..];
      forall j | 0 <= j < i - 1
        ensures !StartsWith(s[1..][j..], pat)
      {
        assert s[1..][j..] == s[j + 1..];
      }
      FindIsFirst(s[1..], pat, i - 1);
    }
  }

  lemma StripQuotes(name: string)
    requires name != [] ==> name[0] != '"' && name[|name| - 1] != '"'
    ensures Strip("\"" + name + "\"", {'"'}) == name
  {
    var s := "\"" + name + "\"";
    assert s[1..] == name + "\"";
    if name != [] {
      assert (name + "\"")[..|name|] == name;
    }
  }

  /** The first occurrence of the marker stays first when text is appended. */
  lemma FindInLongerText(before: string, more: string)
    requires Find(before + Marker, Marker) == Some(|before|)
    ensures Find(before + Marker + more, Marker) == Some(|before|)
  {
    var tcl := before + Marker + more;
    assert tcl[|before|..][..|Marker|] == Marker;
    forall j | 0 <= j < |before|
      ensures !StartsWith(tcl[j..], Marker)
    {
      assert !StartsWith((before + Marker)[j..], Marker);
      assert tcl[j..][..|Marker|] == (before + Marker)[j..][..|Marker|];
    }
    FindIsFirst(tcl, Marker, |before|);
  }

  /** The first line of `"name"` followed by a newline is `"name"`. */
  lemma QuotedFirstLine(name: string, after: string)
    requires forall i :: 0 <= i < |name| ==> name[i] !in LineBreaks
    ensures var rest := "\"" + name + "\"\n" + after;
      rest[..FindAny(rest, LineBreaks)] == "\"" + name + "\""
  {
    var rest := "\"" + name + "\"\n" + after;
    assert rest[|name| + 1] == '"' && rest[|name| + 2] == '\n';
    assert forall j :: 1 <= j <= |name| ==> rest[j] == name[j - 1];
    assert FindAny(rest, LineBreaks) == |name| + 2;
  }

  /** Stripping whitespace and then quotes from `"name"` gives `name`. */
  lemma StripQuotedLine(name: string)
    requires name != [] ==> name[0] != '"' && name[|name| - 1] != '"'
    ensures Strip(Strip("\"" + name + "\"", WhiteSpace), {'"'}) == name
  {
    var line := "\"" + name + "\"";
    assert line[0] == '"' && line[|line| - 1] == '"';
    assert Strip(line, WhiteSpace) == line;
    StripQuotes(name);
  }

  /** Reading back a project.tcl that sets a quoted name: the name is
      recovered exactly, whatever precedes the first marker and whatever
      follows the line. */
  lemma ProjectNameReadsBack(before: string, name: string, after: string)
    requires Find(before + Marker, Marker) == Some(|before|)
    requires forall i :: 0 <= i < |name| ==> name[i] !in LineBreaks
    requires name != [] ==> name[0] != '"' && name[|name| - 1] != '"'
    ensures ProjectName(before + Marker + ("\"" + name + "\"\n" + after)) == Ok(name)
  {
    var rest := "\"" + name + "\"\n" + after;
    var tcl := before + Marker + rest;
    FindInLongerText(before, rest);
    assert tcl[|before| + |Marker|..] == rest;
    QuotedFirstLine(name, after);
    StripQuotedLine(name);
  }

  // ---------------------------------------------------------------------
  // The two reports

  function EstimatePath(prj: string): string {
    prj + "_prj/solution1/syn/report/" + prj + "_csynth.xml"
  }

  /** Where the export report may be, in the order they are tried. */
  function ExportCandidates(prj: string): seq<string> {
    var report := prj + "_prj/solution1/impl/report/";
    [report + "vhdl/" + prj + "_export.xml", report + "vhdl/export_impl.xml",
     report + "verilog/" + prj + "_export.xml", report + "verilog/export_impl.xml"]
  }

  /** The first candidate that exists. */
  function FirstExisting(candidates: seq<string>, existing: set<string>): (r: Option<nat>)
    ensures r.Some? ==> r.value < |candidates| && candidates[r.value] in existing
    ensures r.Some? ==> forall j :: 0 <= j < r.value ==> candidates[j] !in existing
    ensures r.None? ==> forall j :: 0 <= j < |candidates| ==> candidates[j] !in existing
  {
    if candidates == [] then None
    else if candidates[0] in existing then Some(0)
    else match FirstExisting(candidates[1..], existing)
      case None => None
      case Some(i) => Some(i + 1)
  }

  /** The export report `load_summary` reads: the first of the four
      candidates that exists, or a FileNotFoundError naming the directory. */
  function ExportReport(dir: BuildDir, prj: string): (r: Result<string>)
    ensures r.Ok? <==> exists j :: 0 <= j < 4 && ExportCandidates(prj)[j] in dir.reports
    ensures r.Err? ==> r.error == ReportNotFound(dir.path)
    ensures r.Ok? ==> r.value in dir.reports
    ensures r.Ok? ==> exists i :: 0 <= i < 4 && r.value == ExportCandidates(prj)[i]
                                && forall j :: 0 <= j < i ==> ExportCandidates(prj)[j] !in dir.reports
  {
    match FirstExisting(ExportCandidates(prj), dir.reports.Keys)
    case None => Err(ReportNotFound(dir.path))
    case Some(i) => Ok(ExportCandidates(prj)[i])
  }

  // ---------------------------------------------------------------------
  // The derived fields

  /** `s * n` for a string and an integer: `n` copies of `s`. */
  function RepeatText(s: string, n: int): string
    decreases n
  {
    if n <= 0 then "" else s + RepeatText(s, n - 1)
  }

  /** Python's `a * b` on two values. */
  function Multiply(a: Value, b: Value): Result<Value> {
    if a.VInt? && b.VInt? then Ok(VInt(a.i * b.i))
    else if IsNumeric(a) && IsNumeric(b) then Ok(VFloat(AsReal(a) * AsReal(b)))
    else if a.VStr? && b.VInt? then Ok(VStr(RepeatText(a.s, b.i)))
    else if a.VInt? && b.VStr? then Ok(VStr(RepeatText(b.s, a.i)))
    else Err(TypeMismatch)
  }

  /** Python's `a / b` (true division) on two values. */
  function Divide(a: Value, b: Value): Result<Value> {
    if !IsNumeric(a) || !IsNumeric(b) then Err(TypeMismatch)
    else if AsReal(b) == 0.0 then Err(ZeroDivision)
    else Ok(VFloat(AsReal(a) / AsReal(b)))
  }

  /** The summary with `Latency [ns]` and `Fmax [MHz]` added. */
  function WithDerived(summary: Record): Result<Record> {
    var latency :- Get(summary, "Latency");
    var clock :- Get(summary, "actual_clock_period");
    var ns :- Multiply(latency, clock);
    var fmax :- Divide(VFloat(1000.0), clock);
    Ok(summary["Latency [ns]" := ns]["Fmax [MHz]" := fmax])
  }

  // ---------------------------------------------------------------------
  // load_summary

  /** What `load_summary` returns for a build directory. */
  function LoadedSummary(dir: BuildDir, clockOf: string -> real): Result<Record> {
    if dir.projectTcl.None? then Err(MissingFile("project.tcl"))
    else
      var prj :- ProjectName(dir.projectTcl.value);
      var exportPath :- ExportReport(dir, prj);
      if EstimatePath(prj) !in dir.reports then Ok(map[])
      else
        var estimate :- ReadFields(EstimateFields, dir.reports[EstimatePath(prj)], EstimateCoercion);
        var exported :- ReadFields(ExportFields, dir.reports[exportPath], ExportCoercion(clockOf));
        var summary :- Summary(estimate, exported);
        WithDerived(summary)
  }

  /** `load_summary(path)`, with `clockOf` standing for `float()` on a clock
      period. */
  method LoadSummary(dir: BuildDir, clockOf: string -> real) returns (r: Result<Record>)
    ensures r == LoadedSummary(dir, clockOf)
  {
    if dir.projectTcl.None? {
      return Err(MissingFile("project.tcl"));
    }
    var prj :- ProjectName(dir.projectTcl.value);
    var exportPath :- ExportReport(dir, prj);
    var estimatePath := EstimatePath(prj);
    if estimatePath !in dir.reports {
      return Ok(map[]);
    }
    var estimate :- ParseEstimate(dir.reports[estimatePath]);
    var exported :- ParseExport(dir.reports[exportPath], clockOf);
    var csynth := new Dict(estimate);
    var summary :- Summarize(csynth, exported);
    r := WithDerived(summary);
  }

  /** The export search comes first: with no export report the directory
      fails even when its estimate report is also missing. */
  lemma ExportSearchFirst(dir: BuildDir, clockOf: string -> real)
    requires dir.projectTcl.Some? && ProjectName(dir.projectTcl.value).Ok?
    requires forall j :: 0 <= j < 4 ==> ExportCandidates(ProjectName(dir.projectTcl.value).value)[j] !in dir.reports
    ensures LoadedSummary(dir, clockOf) == Err(ReportNotFound(dir.path))
  {
  }

  /** A missing estimate report gives an empty record, once an export report
      has been found. */
  lemma MissingEstimateIsEmpty(dir: BuildDir, clockOf: string -> real)
    requires dir.projectTcl.Some? && ProjectName(dir.projectTcl.value).Ok?
    requires ExportReport(dir, ProjectName(dir.projectTcl.value).value).Ok?
    requires EstimatePath(ProjectName(dir.projectTcl.value).value) !in dir.reports
    ensures LoadedSummary(dir, clockOf) == Ok(map[])
  {
  }

  /** `rec` is `summary` with the two derived fields: its latency is an
      integer number of cycles, its clock period a non-zero float,
      `Latency [ns]` is latency times the achieved clock period and
      `Fmax [MHz]` is 1000 over it. */
  predicate HasDerivedFields(rec: Record, keys: set<string>) {
    && rec.Keys == keys + {"Latency [ns]", "Fmax [MHz]"}
    && "Latency" in rec && "actual_clock_period" in rec
    && rec["Latency"].VInt? && rec["actual_clock_period"].VFloat?
    && rec["actual_clock_period"].x != 0.0
    && rec["Latency [ns]"] == VFloat(rec["Latency"].i as real * rec["actual_clock_period"].x)
    && rec["Fmax [MHz]"] == VFloat(1000.0 / rec["actual_clock_period"].x)
  }

  /** The derived fields of a summary whose latency is an estimate value
      and whose clock period is a float. */
  lemma DerivedFields(summary: Record)
    requires "Latency" in summary && !summary["Latency"].VFloat?
    requires "actual_clock_period" in summary && summary["actual_clock_period"].VFloat?
    requires WithDerived(summary).Ok?
    ensures HasDerivedFields(WithDerived(summary).value, summary.Keys)
  {
  }

  /** A record loaded from two reports is a summary with the derived
      fields added. */
  lemma LoadedFromSummary(dir: BuildDir, clockOf: string -> real) returns (summary: Record)
    requires LoadedSummary(dir, clockOf).Ok? && LoadedSummary(dir, clockOf).value != map[]
    ensures LoadedSummary(dir, clockOf) == WithDerived(summary)
    ensures summary.Keys == SummaryFields
    ensures !summary["Latency"].VFloat? && summary["actual_clock_period"].VFloat?
  {
    var prj := ProjectName(dir.projectTcl.value).value;
    var exportPath := ExportReport(dir, prj).value;
    var found := dir.reports[EstimatePath(prj)];
    var estimate := ReadFields(EstimateFields, found, EstimateCoercion).value;
    var exported := ReadFields(ExportFields, dir.reports[exportPath], ExportCoercion(clockOf)).value;
    summary := Summary(estimate, exported).value;
    EstimateRecordShape(found);
    ExportRecordShape(dir.reports[exportPath], clockOf);
    SummaryFieldNames(estimate, exported);
    SummaryFromEstimate(estimate, exported);
    SummaryFromExport(estimate, exported);
  }

  /** A non-empty record loaded from two reports has the fifteen summary
      fields and the two derived ones. A latency that is not an integer
      (such as `undef`) makes the run fail. */
  lemma LoadedRecord(dir: BuildDir, clockOf: string -> real)
    requires LoadedSummary(dir, clockOf).Ok? && LoadedSummary(dir, clockOf).value != map[]
    ensures HasDerivedFields(LoadedSummary(dir, clockOf).value, SummaryFields)
  {
    var summary := LoadedFromSummary(dir, clockOf);
    DerivedFields(summary);
  }
}
