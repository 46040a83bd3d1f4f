/** The merge loops of the main block (report_hls.py:253-266): settings read
    from each directory's name fill in fields a record lacks, and the
    entries of an extra-info JSON file, keyed by training epoch, overwrite
    fields of the record with that epoch.

    The records are values here: each loop returns the new list of records
    instead of changing the dicts in place. The JSON file is given as the
    sequence of its top-level entries, each an object of scalar fields. */
module Merge {
  import opened Results
  import opened Text
  import opened Values
  import opened Annotate

  // ---------------------------------------------------------------------
  // Settings from directory names

  /** `val.setdefault(k, v)` for every entry of `d`: the record keeps every
      field it has and gains the ones it lacks. */
  function WithDefaults(val: Record, d: Record): (r: Record)
    ensures r.Keys == val.Keys + d.Keys
    ensures forall k :: k in val ==> r[k] == val[k]
    ensures forall k :: k in d && k !in val ==> r[k] == d[k]
  {
    d + val
  }

  /** The `setdefault` loop over one directory's settings. */
  method SetDefaults(val: Record, d: Record) returns (r: Record)
    ensures r == WithDefaults(val, d)
  {
    r := val;
    var todo := d.Keys;
    while todo != {}
      invariant todo <= d.Keys
      invariant r.Keys == val.Keys + (d.Keys - todo)
      invariant forall k :: k in val ==> r[k] == val[k]
      invariant forall k :: k in d && k !in todo && k !in val ==> r[k] == d[k]
      decreases todo
    {
      var k :| k in todo;
      if k !in r {
        r := r[k := d[k]];
      }
      todo := todo - {k};
    }
    assert r == WithDefaults(val, d);
  }

  /** What the first merge loop makes of the records loaded from `paths`. */
  function NamedRecords(paths: seq<string>, vals: seq<Record>): (r: seq<Record>)
    requires |paths| == |vals|
    ensures |r| == |vals|
    ensures forall i :: 0 <= i < |vals| ==> r[i] == WithDefaults(vals[i], NameInfo(PathName(paths[i])))
  {
    seq(|vals|, i requires 0 <= i < |vals| => WithDefaults(vals[i], NameInfo(PathName(paths[i]))))
  }

  /** The loop over `zip(args.paths, vals)`. */
  method AddNameSettings(paths: seq<string>, vals: seq<Record>) returns (r: seq<Record>)
    requires |paths| == |vals|
    ensures r == NamedRecords(paths, vals)
  {
    r := [];
    var i := 0;
    while i < |vals|
      invariant 0 <= i <= |vals|
      invariant |r| == i
      invariant forall k :: 0 <= k < i ==> r[k] == WithDefaults(vals[k], NameInfo(PathName(paths[k])))
    {
      var d := ExtraInfoFromName(PathName(paths[i]));
      var val := SetDefaults(vals[i], d);
      r := r + [val];
      i := i + 1;
    }
  }

  // ---------------------------------------------------------------------
  // The extra-info file

  /** The epoch an extra-info key names: the integer after the first `=` of
      the text before its first `-`. A key without that `=`, or whose text
      there is not an integer, makes the run fail. */
  function ExtraEpoch(k: string): (r: Result<int>)
    ensures r.Err? ==> r.error == BadExtraKey(k)
    ensures r.Ok? <==> '=' in Before(k, '-') && ParseInt(ValueOf(Before(k, '-'))).Some?
    ensures r.Ok? ==> ParseInt(ValueOf(Before(k, '-'))) == Some(r.value)
  {
    var head := Before(k, '-');
    if '=' !in head then Err(BadExtraKey(k))
    else match ParseInt(ValueOf(head))
      case None => Err(BadExtraKey(k))
      case Some(n) => Ok(n)
  }

  /** A key written as `name=N`, optionally followed by `-` and anything,
      names epoch `N`. */
  lemma ExtraEpochReadsBack(name: string, n: nat, rest: string)
    requires '=' !in name && '-' !in name
    requires rest == [] || rest[0] == '-'
    ensures ExtraEpoch(name + "=" + NatToString(n) + rest) == Ok(n)
  {
    var digits := NatToString(n);
    var head := name + "=" + digits;
    var k := head + rest;
    assert forall j :: 0 <= j < |head| ==> k[j] != '-' by {
      forall j | 0 <= j < |head|
        ensures k[j] != '-'
      {
        if j > |name| {
          assert k[j] == digits[j - |name| - 1];
        }
      }
    }
    assert FindAny(k, {'-'}) == |head| by {
      if rest != [] {
        assert k[|head|] == '-';
      }
    }
    assert k[..|head|] == head;
    assert head[|name|] == '=';
    assert ValueOf(head) == digits;
    ParseIntRoundTrip(n);
  }

  /** The dict from epoch to extra fields, read entry by entry: the first bad
      key fails the run, and a later entry for the same epoch replaces an
      earlier one. */
  function ExtraTable(extra: seq<(string, Record)>): Result<map<int, Record>> {
    if extra == [] then Ok(map[])
    else
      var table :- ExtraTable(extra[..|extra| - 1]);
      var n :- ExtraEpoch(extra[|extra| - 1].0);
      Ok(table[n := extra[|extra| - 1].1])
  }

  /** The table fails exactly when some key names no epoch. */
  lemma {:induction false} ExtraTableFails(extra: seq<(string, Record)>)
    ensures ExtraTable(extra).Err? <==> exists i :: 0 <= i < |extra| && ExtraEpoch(extra[i].0).Err?
  {
    if extra != [] {
      ExtraTableFails(extra[..|extra| - 1]);
      BadKeySplit(extra);
    }
  }

  /** A bad key is in the entries before the last one, or is the last one. */
  lemma BadKeySplit(extra: seq<(string, Record)>)
    requires extra != []
    ensures var front := extra[..|extra| - 1];
      (exists i :: 0 <= i < |extra| && ExtraEpoch(extra[i].0).Err?) <==>
      (exists i :: 0 <= i < |front| && ExtraEpoch(front[i].0).Err?) || ExtraEpoch(extra[|extra| - 1].0).Err?
  {
    var front := extra[..|extra| - 1];
    if exists i :: 0 <= i < |extra| && ExtraEpoch(extra[i].0).Err? {
      var i :| 0 <= i < |extra| && ExtraEpoch(extra[i].0).Err?;
      if i < |front| {
        assert front[i] == extra[i];
      }
    }
    if exists i :: 0 <= i < |front| && ExtraEpoch(front[i].0).Err? {
      var i :| 0 <= i < |front| && ExtraEpoch(front[i].0).Err?;
      assert extra[i] == front[i];
    }
  }

  /** The fields of an epoch are those of the last entry naming it. */
  lemma {:induction false} ExtraTableLastWins(extra: seq<(string, Record)>, i: nat)
    requires ExtraTable(extra).Ok? && i < |extra|
    requires forall j :: i < j < |extra| ==> ExtraEpoch(extra[j].0) != ExtraEpoch(extra[i].0)
    ensures ExtraEpoch(extra[i].0).Ok?
    ensures ExtraEpoch(extra[i].0).value in ExtraTable(extra).value
    ensures ExtraTable(extra).value[ExtraEpoch(extra[i].0).value] == extra[i].1
  {
    var front := extra[..|extra| - 1];
    if i < |front| {
      assert front[i] == extra[i];
      ExtraTableLastWins(front, i);
    }
  }

  // ---------------------------------------------------------------------
  // Updating records by epoch

  /** The integer key of the entries table an epoch finds: an integer, or a
      float equal to one. A string or a fractional float finds none. */
  function EpochKey(e: KeyClass): (r: Option<int>)
    ensures r.Some? <==> e.NumberKey? && e.r == e.r.Floor as real
    ensures r.Some? ==> e == DictKey(VInt(r.value))
  {
    if e.NumberKey? && e.r == e.r.Floor as real then Some(e.r.Floor) else None
  }

  /** The records before `end` all have an epoch. */
  predicate EpochsBefore(vals: seq<Record>, end: nat) {
    end <= |vals| && forall i :: 0 <= i < end ==> "epoch" in vals[i]
  }

  predicate HasEpochs(vals: seq<Record>) {
    EpochsBefore(vals, |vals|)
  }

  /** The dict key the epoch of record `i` is filed under. */
  function Epoch(vals: seq<Record>, i: nat): KeyClass
    requires i < |vals| && "epoch" in vals[i]
  {
    DictKey(vals[i]["epoch"])
  }

  /** No record after `i` and before `end` has the epoch of record `i`. */
  predicate LastBefore(vals: seq<Record>, i: nat, end: nat)
    requires EpochsBefore(vals, end) && i < end
  {
    forall j :: i < j < end ==> Epoch(vals, j) != Epoch(vals, i)
  }

  /** Record `i` is the one `{a['epoch']: a for a in vals}` keeps for its
      epoch: the last record with that epoch. */
  predicate IsLastOfEpoch(vals: seq<Record>, i: nat)
    requires HasEpochs(vals) && i < |vals|
  {
    LastBefore(vals, i, |vals|)
  }

  /** Every record's epoch has an entry in the table. */
  predicate EpochsCovered(vals: seq<Record>, table: map<int, Record>)
    requires HasEpochs(vals)
  {
    forall i :: 0 <= i < |vals| ==> EpochKey(Epoch(vals, i)).Some? && EpochKey(Epoch(vals, i)).value in table
  }

  /** What the extra-info step makes of the records: every record needs an
      epoch, every key of the file must name one, and every epoch needs an
      entry; then the record kept for each epoch takes that entry's fields,
      overwriting its own. */
  function MergedExtra(vals: seq<Record>, extra: seq<(string, Record)>): Result<seq<Record>> {
    if !HasEpochs(vals) then Err(MissingField("epoch"))
    else
      var table :- ExtraTable(extra);
      if !EpochsCovered(vals, table) then Err(MissingExtra)
      else Ok(seq(|vals|, i requires 0 <= i < |vals| =>
        if IsLastOfEpoch(vals, i) then vals[i] + table[EpochKey(Epoch(vals, i)).value] else vals[i]))
  }

  /** `byEpoch` is `{a['epoch']: a for a in vals[:end]}`, holding the index
      of each record: every epoch seen so far, filed under its dict key, to
      the last record before `end` with that epoch. */
  predicate ByEpochUpTo(vals: seq<Record>, byEpoch: map<KeyClass, nat>, end: nat)
    requires EpochsBefore(vals, end)
  {
    && (forall j :: 0 <= j < end ==> Epoch(vals, j) in byEpoch)
    && (forall k :: k in byEpoch ==>
          byEpoch[k] < end && Epoch(vals, byEpoch[k]) == k && LastBefore(vals, byEpoch[k], end))
  }

  /** Filing record `i` under its epoch keeps the dict as described. */
  lemma FileStep(vals: seq<Record>, byEpoch: map<KeyClass, nat>, i: nat)
    requires EpochsBefore(vals, i + 1)
    requires EpochsBefore(vals, i) && ByEpochUpTo(vals, byEpoch, i)
    ensures ByEpochUpTo(vals, byEpoch[Epoch(vals, i) := i], i + 1)
  {
    var next := byEpoch[Epoch(vals, i) := i];
    forall k | k in next
      ensures next[k] < i + 1 && Epoch(vals, next[k]) == k && LastBefore(vals, next[k], i + 1)
    {
      if k != Epoch(vals, i) {
        assert LastBefore(vals, byEpoch[k], i);
      }
    }
  }

  /** Once every record is filed, the dict holds exactly the last record of
      each epoch. */
  lemma FiledAreLast(vals: seq<Record>, byEpoch: map<KeyClass, nat>)
    requires HasEpochs(vals) && ByEpochUpTo(vals, byEpoch, |vals|)
    ensures forall j :: 0 <= j < |vals| ==> (byEpoch[Epoch(vals, j)] == j <==> IsLastOfEpoch(vals, j))
  {
    forall j | 0 <= j < |vals|
      ensures byEpoch[Epoch(vals, j)] == j <==> IsLastOfEpoch(vals, j)
    {
      var m := byEpoch[Epoch(vals, j)];
      assert LastBefore(vals, m, |vals|);
      if m != j {
        assert m > j ==> !IsLastOfEpoch(vals, j);
      }
    }
  }

  /** The dict of records by epoch, built record by record; it fails on the
      first record without an epoch. */
  method FileByEpoch(vals: seq<Record>) returns (r: Option<map<KeyClass, nat>>)
    ensures r.None? <==> !HasEpochs(vals)
    ensures r.Some? ==> HasEpochs(vals) && ByEpochUpTo(vals, r.value, |vals|)
  {
    var byEpoch: map<KeyClass, nat> := map[];
    var i := 0;
    while i < |vals|
      invariant 0 <= i <= |vals|
      invariant EpochsBefore(vals, i)
      invariant ByEpochUpTo(vals, byEpoch, i)
    {
      if "epoch" !in vals[i] {
        return None;
      }
      assert EpochsBefore(vals, i + 1);
      FileStep(vals, byEpoch, i);
      byEpoch := byEpoch[Epoch(vals, i) := i];
      i := i + 1;
    }
    return Some(byEpoch);
  }

  /** The dict of entries by epoch, read entry by entry. */
  method ReadExtra(extra: seq<(string, Record)>) returns (r: Result<map<int, Record>>)
    ensures r == ExtraTable(extra)
  {
    var table: map<int, Record> := map[];
    var t := 0;
    while t < |extra|
      invariant 0 <= t <= |extra|
      invariant ExtraTable(extra[..t]) == Ok(table)
    {
      assert extra[..t + 1][..t] == extra[..t];
      var n := ExtraEpoch(extra[t].0);
      if n.Err? {
        ExtraPrefixFails(extra, t + 1);
        return n.PropagateFailure();
      }
      table := table[n.value := extra[t].1];
      t := t + 1;
    }
    assert extra[..t] == extra;
    return Ok(table);
  }

  /** A bad key in a prefix of the file fails the whole table. */
  lemma {:induction false} ExtraPrefixFails(extra: seq<(string, Record)>, t: nat)
    requires t <= |extra| && ExtraTable(extra[..t]).Err?
    ensures ExtraTable(extra) == ExtraTable(extra[..t])
    decreases |extra| - t
  {
    if t < |extra| {
      assert extra[..t + 1][..t] == extra[..t];
      ExtraPrefixFails(extra, t + 1);
    } else {
      assert extra[..t] == extra;
    }
  }

  /** `out` is `vals` with the kept record of every epoch outside `todo`
      updated from the table, and every epoch outside `todo` has an entry. */
  predicate UpdatedOutside(vals: seq<Record>, byEpoch: map<KeyClass, nat>, table: map<int, Record>,
                           out: seq<Record>, todo: set<KeyClass>)
    requires HasEpochs(vals) && ByEpochUpTo(vals, byEpoch, |vals|)
  {
    && |out| == |vals|
    && (forall k :: k in byEpoch && k !in todo ==> EpochKey(k).Some? && EpochKey(k).value in table)
    && (forall j :: 0 <= j < |vals| ==>
          out[j] == if Epoch(vals, j) !in todo && byEpoch[Epoch(vals, j)] == j
                    then vals[j] + table[EpochKey(Epoch(vals, j)).value] else vals[j])
  }

  /** Updating the kept record of epoch `k` takes `k` out of `todo`. */
  lemma UpdateStep(vals: seq<Record>, byEpoch: map<KeyClass, nat>, table: map<int, Record>,
                   out: seq<Record>, todo: set<KeyClass>, k: KeyClass)
    requires HasEpochs(vals) && ByEpochUpTo(vals, byEpoch, |vals|)
    requires UpdatedOutside(vals, byEpoch, table, out, todo)
    requires k in todo && k in byEpoch && EpochKey(k).Some? && EpochKey(k).value in table
    ensures UpdatedOutside(vals, byEpoch, table,
                           out[byEpoch[k] := vals[byEpoch[k]] + table[EpochKey(k).value]], todo - {k})
  {
    var a := byEpoch[k];
    var next := out[a := vals[a] + table[EpochKey(k).value]];
    forall j | 0 <= j < |vals|
      ensures next[j] == if Epoch(vals, j) !in todo - {k} && byEpoch[Epoch(vals, j)] == j
                         then vals[j] + table[EpochKey(Epoch(vals, j)).value] else vals[j]
    {
      if j == a {
        assert Epoch(vals, j) == k;
      }
    }
  }

  /** The `update` loop over the epochs of the records: it fails on the
      first epoch without an entry, and otherwise updates the kept record
      of every epoch. */
  method ApplyEntries(vals: seq<Record>, byEpoch: map<KeyClass, nat>, table: map<int, Record>)
    returns (r: Option<seq<Record>>)
    requires HasEpochs(vals) && ByEpochUpTo(vals, byEpoch, |vals|)
    ensures r.None? <==> !EpochsCovered(vals, table)
    ensures r.Some? ==> |r.value| == |vals| && forall j :: 0 <= j < |vals| ==>
      r.value[j] == if byEpoch[Epoch(vals, j)] == j then vals[j] + table[EpochKey(Epoch(vals, j)).value] else vals[j]
  {
    var out := vals;
    var todo := byEpoch.Keys;
    while todo != {}
      invariant todo <= byEpoch.Keys
      invariant UpdatedOutside(vals, byEpoch, table, out, todo)
      decreases todo
    {
      var k :| k in todo;
      var key := EpochKey(k);
      if key.None? || key.value !in table {
        assert !EpochsCovered(vals, table) by {
          assert Epoch(vals, byEpoch[k]) == k;
        }
        return None;
      }
      UpdateStep(vals, byEpoch, table, out, todo, k);
      out := out[byEpoch[k] := vals[byEpoch[k]] + table[key.value]];
      todo := todo - {k};
    }
    return Some(out);
  }

  /** The extra-info step as the source runs it: the dict of records by
      epoch, then the dict of entries by epoch, then one `update` per
      epoch. */
  method MergeExtra(vals: seq<Record>, extra: seq<(string, Record)>) returns (r: Result<seq<Record>>)
    ensures r == MergedExtra(vals, extra)
  {
    var filed := FileByEpoch(vals);
    if filed.None? {
      return Err(MissingField("epoch"));
    }
    var byEpoch := filed.value;
    FiledAreLast(vals, byEpoch);
    var table :- ReadExtra(extra);
    var applied := ApplyEntries(vals, byEpoch, table);
    if applied.None? {
      return Err(MissingExtra);
    }
    MergedIs(vals, extra, table, byEpoch, applied.value);
    r := Ok(applied.value);
  }

  /** The records after every kept record has been updated are what
      `MergedExtra` describes. */
  lemma MergedIs(vals: seq<Record>, extra: seq<(string, Record)>, table: map<int, Record>,
                 byEpoch: map<KeyClass, nat>, out: seq<Record>)
    requires HasEpochs(vals) && ExtraTable(extra) == Ok(table) && EpochsCovered(vals, table)
    requires forall j :: 0 <= j < |vals| ==> Epoch(vals, j) in byEpoch
    requires forall j :: 0 <= j < |vals| ==> (byEpoch[Epoch(vals, j)] == j <==> IsLastOfEpoch(vals, j))
    requires |out| == |vals|
    requires forall j :: 0 <= j < |vals| ==>
      out[j] == if byEpoch[Epoch(vals, j)] == j then vals[j] + table[EpochKey(Epoch(vals, j)).value] else vals[j]
    ensures MergedExtra(vals, extra) == Ok(out)
  {
    var want := seq(|vals|, i requires 0 <= i < |vals| =>
      if IsLastOfEpoch(vals, i) then vals[i] + table[EpochKey(Epoch(vals, i)).value] else vals[i]);
    assert MergedExtra(vals, extra) == Ok(want);
    forall j | 0 <= j < |vals|
      ensures want[j] == out[j]
    {
    }
    assert want == out;
  }

  // ---------------------------------------------------------------------
  // Properties of the extra-info step

  /** The step succeeds only if every record has an epoch with an entry and
      every key of the file names an epoch. */
  lemma MergedNeedsEntries(vals: seq<Record>, extra: seq<(string, Record)>)
    ensures MergedExtra(vals, extra).Ok? <==>
      HasEpochs(vals) && ExtraTable(extra).Ok? && EpochsCovered(vals, ExtraTable(extra).value)
  {
  }

  /** The record kept for an epoch takes every field of its entry,
      overwriting its own, and keeps its other fields; any other record is
      left as it was. */
  lemma MergedOverwrites(vals: seq<Record>, extra: seq<(string, Record)>, i: nat)
    requires MergedExtra(vals, extra).Ok? && i < |vals|
    ensures var r := MergedExtra(vals, extra).value;
      var entry := ExtraTable(extra).value[EpochKey(Epoch(vals, i)).value];
      && |r| == |vals|
      && (IsLastOfEpoch(vals, i) ==>
            && r[i].Keys == vals[i].Keys + entry.Keys
            && (forall k :: k in entry ==> r[i][k] == entry[k])
            && (forall k :: k in vals[i] && k !in entry ==> r[i][k] == vals[i][k]))
      && (!IsLastOfEpoch(vals, i) ==> r[i] == vals[i])
  {
  }

  /** Of two records with the same epoch, only the later one is updated. */
  lemma EarlierTwinUnchanged(vals: seq<Record>, extra: seq<(string, Record)>, i: nat, j: nat)
    requires MergedExtra(vals, extra).Ok? && i < j < |vals|
    requires PyEq(vals[j]["epoch"], vals[i]["epoch"])
    ensures MergedExtra(vals, extra).value[i] == vals[i]
  {
    assert Epoch(vals, j) == Epoch(vals, i);
    assert !IsLastOfEpoch(vals, i);
  }
}
