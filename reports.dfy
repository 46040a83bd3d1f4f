/** Turning the fields of the two synthesis reports into one record:
    the scalar coercions of `parse_csynth` and `parse_export`
    (report_hls.py:11-62) and `summarize` (report_hls.py:65-85).

    The XML parsing and XPath evaluation are not modelled: each report is
    given as `found`, the map from an output field name to the first text
    node its XPath selects (a field whose XPath selects nothing is absent). */
module Reports {
  import opened Results
  import opened Text
  import opened Values

  /** The fields `parse_csynth` reads, in the order it reads them. */
  const EstimateFields: seq<string> :=
    ["best_latency", "worst_latency", "pipeline", "best_II", "worst_II",
     "BRAM18", "DSP", "FF", "LUT", "URAM"]

  /** The fields `parse_export` reads, in the order it reads them. */
  const ExportFields: seq<string> :=
    ["CLB", "BRAM18", "DSP", "FF", "LUT", "URAM", "target_clock_period",
     "actual_clock_period", "avail_LUT", "avail_DSP", "avail_FF",
     "avail_BRAM18", "avail_URAM"]

  predicate IsClockField(k: string) {
    k == "target_clock_period" || k == "actual_clock_period"
  }

  /** The coercion of `parse_csynth`: text that `isdigit()` accepts becomes an
      integer, any other text stays a string. */
  function CoerceEstimate(text: string): (v: Value)
    ensures v.VInt? <==> IsDigits(text)
    ensures v.VStr? ==> v.s == text
    ensures v.VInt? ==> ParseInt(text) == Some(v.i)
    ensures !v.VFloat?
  {
    if IsDigits(text) then VInt(DigitsValue(text)) else VStr(text)
  }

  /** The coercion of `parse_export` for one field: `float(x)` (the parameter
      `clockOf`) for the two clock periods, `int(x)` for everything else. */
  function CoerceExport(k: string, text: string, clockOf: string -> real): Result<Value> {
    if IsClockField(k) then Ok(VFloat(clockOf(text)))
    else match ParseInt(text)
      case Some(n) => Ok(VInt(n))
      case None => Err(NotAnInteger(k, text))
  }

  // ---------------------------------------------------------------------
  // Specification of the two parsers

  /** Why field `k` cannot be read, if it cannot. */
  function FieldError(k: string, found: map<string, string>, coerce: (string, string) -> Result<Value>): Error
    requires !FieldReads(k, found, coerce)
  {
    if k !in found then MissingField(k) else coerce(k, found[k]).error
  }

  /** Field `k` was found and its text coerces without an error. */
  predicate FieldReads(k: string, found: map<string, string>, coerce: (string, string) -> Result<Value>) {
    k in found && coerce(k, found[k]).Ok?
  }

  /** The dict a parser fills by reading `fields` in order: it stops with the
      error of the first field that was not found or does not coerce, and
      otherwise maps each field to its coerced text. */
  function ReadFields(fields: seq<string>, found: map<string, string>, coerce: (string, string) -> Result<Value>): (r: Result<Record>)
    ensures r.Ok? <==> forall j :: 0 <= j < |fields| ==> FieldReads(fields[j], found, coerce)
    ensures r.Ok? ==> r.value.Keys == set j | 0 <= j < |fields| :: fields[j]
    ensures r.Ok? ==> forall k :: k in r.value ==> k in found && coerce(k, found[k]) == Ok(r.value[k])
    ensures r.Err? ==> exists i :: 0 <= i < |fields| && !FieldReads(fields[i], found, coerce)
                                  && r.error == FieldError(fields[i], found, coerce)
                                  && forall j :: 0 <= j < i ==> FieldReads(fields[j], found, coerce)
  {
    if fields == [] then Ok(map[])
    else
      var front := fields[..|fields| - 1];
      var k := fields[|fields| - 1];
      assert forall j :: 0 <= j < |front| ==> front[j] == fields[j];
      var m :- ReadFields(front, found, coerce);
      if k !in found then Err(MissingField(k))
      else
        var v :- coerce(k, found[k]);
        Ok(m[k := v])
  }

  /** The coercion of `parse_csynth` as a field reader. */
  function EstimateCoercion(k: string, text: string): Result<Value> {
    Ok(CoerceEstimate(text))
  }

  /** The coercion of `parse_export` as a field reader. */
  function ExportCoercion(clockOf: string -> real): (string, string) -> Result<Value> {
    (k, text) => CoerceExport(k, text, clockOf)
  }

  /** The record `parse_csynth` returns: it fails only when an XPath found
      nothing, and otherwise holds the ten fields, coerced. */
  lemma EstimateRecordShape(found: map<string, string>)
    ensures var r := ReadFields(EstimateFields, found, EstimateCoercion);
      && (r.Ok? <==> forall k :: k in EstimateFields ==> k in found)
      && (r.Err? ==> r.error.MissingField? && r.error.name in EstimateFields && r.error.name !in found)
      && (r.Ok? ==> r.value.Keys == set j | 0 <= j < |EstimateFields| :: EstimateFields[j])
      && (r.Ok? ==> forall k :: k in r.value ==> r.value[k] == CoerceEstimate(found[k]))
  {
  }

  /** The record `parse_export` returns: the clock periods come from
      `clockOf`, every other field is the integer its text denotes, and a
      text that is not an integer is an error. */
  lemma ExportRecordShape(found: map<string, string>, clockOf: string -> real)
    ensures var r := ReadFields(ExportFields, found, ExportCoercion(clockOf));
      && (r.Ok? <==> forall k :: k in ExportFields ==> k in found && (IsClockField(k) || ParseInt(found[k]).Some?))
      && (r.Ok? ==> forall k :: k in r.value && IsClockField(k) ==> r.value[k] == VFloat(clockOf(found[k])))
      && (r.Ok? ==> forall k :: k in r.value && !IsClockField(k) ==> ParseInt(found[k]) == Some(r.value[k].i))
  {
    var coerce := ExportCoercion(clockOf);
    forall k | k in ExportFields
      ensures FieldReads(k, found, coerce) <==> k in found && (IsClockField(k) || ParseInt(found[k]).Some?)
    {
      ExportFieldReads(k, found, clockOf);
    }
    var r := ReadFields(ExportFields, found, coerce);
    if r.Ok? {
      forall k | k in r.value
        ensures IsClockField(k) ==> r.value[k] == VFloat(clockOf(found[k]))
        ensures !IsClockField(k) ==> ParseInt(found[k]) == Some(r.value[k].i)
      {
        ExportFieldReads(k, found, clockOf);
      }
    }
  }

  /** What one field of the export report reads as. */
  lemma ExportFieldReads(k: string, found: map<string, string>, clockOf: string -> real)
    ensures FieldReads(k, found, ExportCoercion(clockOf)) <==> k in found && (IsClockField(k) || ParseInt(found[k]).Some?)
    ensures k in found ==> var v := ExportCoercion(clockOf)(k, found[k]);
      && (IsClockField(k) ==> v == Ok(VFloat(clockOf(found[k]))))
      && (!IsClockField(k) && v.Ok? ==> ParseInt(found[k]) == Some(v.value.i))
  {
  }

  // ---------------------------------------------------------------------
  // The two parsers, filling their dict field by field

  /** `parse_csynth` after the XPath lookups. */
  method ParseEstimate(found: map<string, string>) returns (r: Result<Record>)
    ensures r == ReadFields(EstimateFields, found, EstimateCoercion)
  {
    r := FillFields(EstimateFields, found, EstimateCoercion);
  }

  /** `parse_export` after the XPath lookups; `clockOf` is `float()`. */
  method ParseExport(found: map<string, string>, clockOf: string -> real) returns (r: Result<Record>)
    ensures r == ReadFields(ExportFields, found, ExportCoercion(clockOf))
  {
    r := FillFields(ExportFields, found, ExportCoercion(clockOf));
  }

  /** The reading stops at the first field that does not read. */
  lemma {:induction false} FirstFieldError(fields: seq<string>, found: map<string, string>,
                                           coerce: (string, string) -> Result<Value>, i: nat)
    requires i < |fields| && !FieldReads(fields[i], found, coerce)
    requires forall j :: 0 <= j < i ==> FieldReads(fields[j], found, coerce)
    ensures ReadFields(fields, found, coerce) == Err(FieldError(fields[i], found, coerce))
  {
    var front := fields[..|fields| - 1];
    if i < |fields| - 1 {
      FirstFieldError(front, found, coerce, i);
    } else if front != [] {
      var m := ReadFields(front, found, coerce);
      assert m.Ok? by {
        forall j | 0 <= j < |front|
          ensures FieldReads(front[j], found, coerce)
        {
          assert front[j] == fields[j];
        }
      }
    }
  }

  /** The loop both parsers run: `r[k] = coerce(x)` for each field in turn. */
  method FillFields(fields: seq<string>, found: map<string, string>, coerce: (string, string) -> Result<Value>)
    returns (r: Result<Record>)
    ensures r == ReadFields(fields, found, coerce)
  {
    var m: Record := map[];
    var i := 0;
    while i < |fields|
      invariant 0 <= i <= |fields|
      invariant forall j :: 0 <= j < i ==> FieldReads(fields[j], found, coerce)
      invariant ReadFields(fields[..i], found, coerce) == Ok(m)
    {
      var k := fields[i];
      assert fields[..i + 1][..i] == fields[..i];
      if k !in found {
        FirstFieldError(fields, found, coerce, i);
        return Err(MissingField(k));
      }
      var v := coerce(k, found[k]);
      if v.Err? {
        FirstFieldError(fields, found, coerce, i);
        return Err(v.error);
      }
      m := m[k := v.value];
      i := i + 1;
    }
    assert fields[..i] == fields;
    return Ok(m);
  }

  // ---------------------------------------------------------------------
  // summarize

  /** A dict the source changes in place; `summarize` pops from it. */
  class Dict {
    var entries: Record

    constructor (m: Record)
      ensures entries == m
    {
      entries := m;
    }

    /** `d.pop(k)`: remove `k` and return its value; a KeyError if absent. */
    method Pop(k: string) returns (r: Result<Value>)
      modifies this
      ensures k in old(entries) ==> r == Ok(old(entries)[k]) && entries == old(entries) - {k}
      ensures k !in old(entries) ==> r == Err(MissingField(k)) && entries == old(entries)
    {
      if k in entries {
        r := Ok(entries[k]);
        entries := entries - {k};
      } else {
        r := Err(MissingField(k));
      }
    }
  }

  /** `m[k]`: the value, or a KeyError. */
  function Get(m: Record, k: string): (r: Result<Value>)
    ensures r.Ok? <==> k in m
    ensures r.Ok? ==> r.value == m[k]
    ensures r.Err? ==> r.error == MissingField(k)
  {
    if k in m then Ok(m[k]) else Err(MissingField(k))
  }

  /** The fields of a summary record. */
  const SummaryFields: set<string> :=
    {"Latency", "LUT", "DSP", "FF", "II", "BRAM18", "URAM", "pipeline",
     "target_clock_period", "actual_clock_period", "avail_LUT", "avail_DSP",
     "avail_FF", "avail_BRAM18", "avail_URAM"}

  /** The summary fields copied unchanged from the export record. */
  const CopiedExportFields: set<string> :=
    {"LUT", "DSP", "FF", "BRAM18", "URAM", "target_clock_period",
     "actual_clock_period", "avail_LUT", "avail_DSP", "avail_FF",
     "avail_BRAM18", "avail_URAM"}

  /** The estimate fields `summarize` pops. */
  const PoppedFields: set<string> :=
    {"best_latency", "best_II", "worst_latency", "worst_II", "pipeline"}

  /** The two best fields the agreement checks pop. */
  const BestFields: set<string> := {"best_latency", "best_II"}

  /** The two assertions of `summarize`: worst and best case latency agree,
      then worst and best case interval agree. The best fields are popped
      as they are compared; what is left of the estimate is the result. */
  function Agreement(estimate: Record): Result<Record> {
    var worstLatency :- Get(estimate, "worst_latency");
    var bestLatency :- Get(estimate, "best_latency");
    if !PyEq(worstLatency, bestLatency) then Err(InconsistentEstimate("latency")) else
    var worstII :- Get(estimate, "worst_II");
    var bestII :- Get(estimate, "best_II");
    if !PyEq(worstII, bestII) then Err(InconsistentEstimate("II")) else
    Ok(estimate - BestFields)
  }

  /** The dict display `summarize` returns, its entries evaluated in order:
      the worst cases and the pipeline type from the estimate, everything
      else from the export record. */
  function Assembled(estimate: Record, exported: Record): Result<Record> {
    var latency :- Get(estimate, "worst_latency");
    var lut :- Get(exported, "LUT");
    var dsp :- Get(exported, "DSP");
    var ff :- Get(exported, "FF");
    var ii :- Get(estimate, "worst_II");
    var bram :- Get(exported, "BRAM18");
    var uram :- Get(exported, "URAM");
    var pipeline :- Get(estimate, "pipeline");
    var target :- Get(exported, "target_clock_period");
    var actual :- Get(exported, "actual_clock_period");
    var availLut :- Get(exported, "avail_LUT");
    var availDsp :- Get(exported, "avail_DSP");
    var availFf :- Get(exported, "avail_FF");
    var availBram :- Get(exported, "avail_BRAM18");
    var availUram :- Get(exported, "avail_URAM");
    Ok(map["Latency" := latency, "LUT" := lut, "DSP" := dsp, "FF" := ff,
           "II" := ii, "BRAM18" := bram, "URAM" := uram, "pipeline" := pipeline,
           "target_clock_period" := target, "actual_clock_period" := actual,
           "avail_LUT" := availLut, "avail_DSP" := availDsp, "avail_FF" := availFf,
           "avail_BRAM18" := availBram, "avail_URAM" := availUram])
  }

  /** What `summarize` returns for the estimate and export records, with its
      failures in the order the source runs into them. */
  function Summary(estimate: Record, exported: Record): Result<Record> {
    var rest :- Agreement(estimate);
    Assembled(rest, exported)
  }

  /** `summarize` succeeds only if best and worst case latency agree, and
      best and worst case interval agree. */
  lemma SummaryNeedsAgreement(estimate: Record, exported: Record)
    ensures Summary(estimate, exported).Ok? ==>
      && "worst_latency" in estimate && "best_latency" in estimate
      && PyEq(estimate["worst_latency"], estimate["best_latency"])
      && "worst_II" in estimate && "best_II" in estimate
      && PyEq(estimate["worst_II"], estimate["best_II"])
  {
  }

  /** A latency disagreement is reported before anything else is looked at. */
  lemma SummaryRejectsLatencyMismatch(estimate: Record, exported: Record)
    requires "worst_latency" in estimate && "best_latency" in estimate
    requires !PyEq(estimate["worst_latency"], estimate["best_latency"])
    ensures Summary(estimate, exported) == Err(InconsistentEstimate("latency"))
  {
  }

  /** With every field it reads present and both agreements holding,
      `summarize` succeeds. */
  lemma SummarySucceeds(estimate: Record, exported: Record)
    requires forall k :: k in PoppedFields ==> k in estimate
    requires forall k :: k in CopiedExportFields ==> k in exported
    requires PyEq(estimate["worst_latency"], estimate["best_latency"])
    requires PyEq(estimate["worst_II"], estimate["best_II"])
    ensures Summary(estimate, exported).Ok?
  {
  }

  /** The summary record has exactly the fifteen fields (the export
      report's CLB is dropped). */
  lemma SummaryFieldNames(estimate: Record, exported: Record)
    requires Summary(estimate, exported).Ok?
    ensures Summary(estimate, exported).value.Keys == SummaryFields
    ensures "CLB" !in Summary(estimate, exported).value
  {
  }

  /** Latency, II and pipeline come from the estimate record. */
  lemma SummaryFromEstimate(estimate: Record, exported: Record)
    requires Summary(estimate, exported).Ok?
    ensures var rec := Summary(estimate, exported).value;
      && rec["Latency"] == estimate["worst_latency"]
      && rec["II"] == estimate["worst_II"]
      && rec["pipeline"] == estimate["pipeline"]
  {
    var rest := Agreement(estimate).value;
    assert Summary(estimate, exported) == Assembled(rest, exported);
    AssembledFromEstimate(rest, exported);
  }

  lemma AssembledFromEstimate(estimate: Record, exported: Record)
    requires Assembled(estimate, exported).Ok?
    ensures var rec := Assembled(estimate, exported).value;
      && rec["Latency"] == estimate["worst_latency"]
      && rec["II"] == estimate["worst_II"]
      && rec["pipeline"] == estimate["pipeline"]
  {
  }

  /** Every resource count, the avail_* capacities and both clock periods are
      copied from the export record. */
  lemma SummaryFromExport(estimate: Record, exported: Record)
    requires Summary(estimate, exported).Ok?
    ensures forall k :: k in CopiedExportFields ==> k in exported && Summary(estimate, exported).value[k] == exported[k]
  {
    var rest := Agreement(estimate).value;
    var rec := Assembled(rest, exported).value;
    assert Summary(estimate, exported) == Ok(rec);
    forall k | k in CopiedExportFields
      ensures k in exported && rec[k] == exported[k]
    {
    }
  }

  /** `after` is `before` with some of the popped fields removed and
      nothing else changed. */
  predicate PoppedOnly(before: Record, after: Record) {
    && after.Keys <= before.Keys
    && (forall k :: k in before && k !in PoppedFields ==> k in after)
    && (forall k :: k in after ==> after[k] == before[k])
  }

  lemma PopKeeps(before: Record, after: Record, k: string)
    requires PoppedOnly(before, after) && k in PoppedFields
    ensures PoppedOnly(before, after - {k})
  {
  }

  /** The two assertions, popping the best fields from `csynth`. */
  method CheckAgreement(csynth: Dict) returns (r: Result<Record>)
    modifies csynth
    ensures r == Agreement(old(csynth.entries))
    ensures r.Ok? ==> csynth.entries == r.value
    ensures PoppedOnly(old(csynth.entries), csynth.entries)
  {
    ghost var before := csynth.entries;
    var worstLatency :- Get(csynth.entries, "worst_latency");
    PopKeeps(before, csynth.entries, "best_latency");
    var bestLatency :- csynth.Pop("best_latency");
    if !PyEq(worstLatency, bestLatency) {
      return Err(InconsistentEstimate("latency"));
    }
    var worstII :- Get(csynth.entries, "worst_II");
    PopKeeps(before, csynth.entries, "best_II");
    var bestII :- csynth.Pop("best_II");
    if !PyEq(worstII, bestII) {
      return Err(InconsistentEstimate("II"));
    }
    assert csynth.entries == before - BestFields;
    return Ok(csynth.entries);
  }

  /** The returned dict display, popping the worst cases and the pipeline
      type from `csynth`. */
  method Assemble(csynth: Dict, exported: Record) returns (r: Result<Record>)
    modifies csynth
    ensures r == Assembled(old(csynth.entries), exported)
    ensures r.Ok? ==> csynth.entries == old(csynth.entries) - {"worst_latency", "worst_II", "pipeline"}
    ensures PoppedOnly(old(csynth.entries), csynth.entries)
  {
    ghost var before := csynth.entries;
    PopKeeps(before, csynth.entries, "worst_latency");
    var latency :- csynth.Pop("worst_latency");
    var lut :- Get(exported, "LUT");
    var dsp :- Get(exported, "DSP");
    var ff :- Get(exported, "FF");
    PopKeeps(before, csynth.entries, "worst_II");
    var ii :- csynth.Pop("worst_II");
    var bram :- Get(exported, "BRAM18");
    var uram :- Get(exported, "URAM");
    PopKeeps(before, csynth.entries, "pipeline");
    var pipeline :- csynth.Pop("pipeline");
    var target :- Get(exported, "target_clock_period");
    var actual :- Get(exported, "actual_clock_period");
    var availLut :- Get(exported, "avail_LUT");
    var availDsp :- Get(exported, "avail_DSP");
    var availFf :- Get(exported, "avail_FF");
    var availBram :- Get(exported, "avail_BRAM18");
    var availUram :- Get(exported, "avail_URAM");
    r := Ok(map["Latency" := latency, "LUT" := lut, "DSP" := dsp, "FF" := ff,
                "II" := ii, "BRAM18" := bram, "URAM" := uram, "pipeline" := pipeline,
                "target_clock_period" := target, "actual_clock_period" := actual,
                "avail_LUT" := availLut, "avail_DSP" := availDsp, "avail_FF" := availFf,
                "avail_BRAM18" := availBram, "avail_URAM" := availUram]);
  }

  /** Popping twice from the popped fields is popping from them. */
  lemma PoppedOnlyTrans(a: Record, b: Record, c: Record)
    requires PoppedOnly(a, b) && PoppedOnly(b, c)
    ensures PoppedOnly(a, c)
  {
  }

  /** `summarize(csynth, export)`: checks that best and worst case agree,
      builds the summary record and pops the five consumed estimate fields
      from `csynth`. A failure leaves `csynth` with some of them popped. */
  method Summarize(csynth: Dict, exported: Record) returns (r: Result<Record>)
    modifies csynth
    ensures r == Summary(old(csynth.entries), exported)
    ensures r.Ok? ==> csynth.entries == old(csynth.entries) - PoppedFields
    ensures PoppedOnly(old(csynth.entries), csynth.entries)
  {
    ghost var before := csynth.entries;
    var rest := CheckAgreement(csynth);
    if rest.Err? {
      return Err(rest.error);
    }
    ghost var middle := csynth.entries;
    r := Assemble(csynth, exported);
    PoppedOnlyTrans(before, middle, csynth.entries);
  }
}
