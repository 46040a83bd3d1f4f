/** The table the main block builds from the records (report_hls.py:268-274),
    the column projection of `--columns` (report_hls.py:296-298) and the mask
    that hides the `avail_*` columns on the terminal (report_hls.py:300-303). */
module Tables {
  import opened Results
  import opened Text
  import opened Values

  /** `arr`: the header row of column names, then one row per record. */
  datatype Table = Table(header: seq<string>, rows: seq<seq<Value>>)

  /** Every row has one cell per column. */
  predicate Rectangular(t: Table) {
    forall i :: 0 <= i < |t.rows| ==> |t.rows[i]| == |t.header|
  }

  // ---------------------------------------------------------------------
  // The header: the sorted union of the record keys

  predicate StrictlySorted(s: seq<string>) {
    forall i, j :: 0 <= i < j < |s| ==> StrLess(s[i], s[j])
  }

  /** Every key of every record. */
  function AllKeys(vals: seq<Record>): set<string> {
    if vals == [] then {} else AllKeys(vals[..|vals| - 1]) + vals[|vals| - 1].Keys
  }

  lemma {:induction false} AllKeysMeaning(vals: seq<Record>)
    ensures forall k :: k in AllKeys(vals) <==> exists i :: 0 <= i < |vals| && k in vals[i]
  {
    if vals != [] {
      var front := vals[..|vals| - 1];
      AllKeysMeaning(front);
      forall k | k in AllKeys(vals)
        ensures exists i :: 0 <= i < |vals| && k in vals[i]
      {
        if k in AllKeys(front) {
          var i :| 0 <= i < |front| && k in front[i];
          assert vals[i] == front[i];
        }
      }
      forall k | exists i :: 0 <= i < |vals| && k in vals[i]
        ensures k in AllKeys(vals)
      {
        var i :| 0 <= i < |vals| && k in vals[i];
        if i < |front| {
          assert front[i] == vals[i];
        }
      }
    }
  }

  /** `s` with `x` put in its place in code-point order. */
  function Insert(s: seq<string>, x: string): (r: seq<string>)
    requires StrictlySorted(s) && x !in s
    ensures StrictlySorted(r)
    ensures multiset(r) == multiset(s) + multiset{x}
    ensures |r| == |s| + 1
  {
    if s == [] then [x]
    else if StrLess(x, s[0]) then
      assert forall j :: 0 <= j < |s| ==> StrLess(x, s[j]) by {
        forall j | 0 <= j < |s|
          ensures StrLess(x, s[j])
        {
          if j > 0 {
            StrLessTransitive(x, s[0], s[j]);
          }
        }
      }
      [x] + s
    else
      StrLessTotal(x, s[0]);
      assert s == [s[0]] + s[1..];
      var rest := Insert(s[1..], x);
      assert forall j :: 0 <= j < |rest| ==> StrLess(s[0], rest[j]) by {
        forall j | 0 <= j < |rest|
          ensures StrLess(s[0], rest[j])
        {
          assert rest[j] in multiset(rest);
        }
      }
      [s[0]] + rest
  }

  /** `sorted(attrs)` after `attrs.update(v.keys())` for every record: the
      keys of all records, each once, in code-point order. */
  method SortedKeys(vals: seq<Record>) returns (attrs: seq<string>)
    ensures StrictlySorted(attrs)
    ensures forall k :: k in attrs <==> k in AllKeys(vals)
  {
    var keys: set<string> := {};
    var i := 0;
    while i < |vals|
      invariant 0 <= i <= |vals|
      invariant keys == AllKeys(vals[..i])
    {
      assert vals[..i + 1][..i] == vals[..i];
      keys := keys + vals[i].Keys;
      i := i + 1;
    }
    assert vals[..i] == vals;
    attrs := [];
    var todo := keys;
    while todo != {}
      invariant todo <= keys
      invariant StrictlySorted(attrs)
      invariant forall k :: k in attrs <==> k in keys - todo
      decreases todo
    {
      var k :| k in todo;
      var before := attrs;
      assert forall x :: x in before <==> x in multiset(before);
      attrs := Insert(attrs, k);
      assert forall x :: x in attrs <==> x in multiset(attrs);
      assert forall x :: x in attrs <==> x in before || x == k;
      todo := todo - {k};
    }
  }

  /** Two strictly sorted sequences with the same elements are equal: the
      header is determined by the set of keys. */
  lemma {:induction false} SortedUnique(a: seq<string>, b: seq<string>)
    requires StrictlySorted(a) && StrictlySorted(b)
    requires forall k :: k in a <==> k in b
    ensures a == b
  {
    assert a != [] ==> a[0] in a;
    assert b != [] ==> b[0] in b;
    if a != [] && b != [] {
      assert a[0] in b && b[0] in a;
      if a[0] != b[0] {
        var i :| 0 <= i < |b| && b[i] == a[0];
        var j :| 0 <= j < |a| && a[j] == b[0];
        assert i > 0 && j > 0;
        StrLessTransitive(a[0], b[0], a[0]);
        StrLessIrreflexive(a[0]);
      }
      forall k
        ensures k in a[1..] <==> k in b[1..]
      {
        if k in a[1..] {
          var i :| 1 <= i < |a| && a[i] == k;
          StrLessIrreflexive(k);
          assert k in a;
          var m :| 0 <= m < |b| && b[m] == k;
          assert m != 0;
          assert b[1..][m - 1] == k;
        }
        if k in b[1..] {
          var i :| 1 <= i < |b| && b[i] == k;
          StrLessIrreflexive(k);
          assert k in b;
          var m :| 0 <= m < |a| && a[m] == k;
          assert m != 0;
          assert a[1..][m - 1] == k;
        }
      }
      SortedUnique(a[1..], b[1..]);
      assert a == [a[0]] + a[1..] && b == [b[0]] + b[1..];
    }
  }

  /** Every finite set of names has a least one in code-point order. */
  lemma {:induction false} HasLeast(keys: set<string>)
    requires keys != {}
    ensures exists m :: m in keys && forall k :: k in keys && k != m ==> StrLess(m, k)
  {
    var x :| x in keys;
    var rest := keys - {x};
    if rest == {} {
      assert keys == {x};
    } else {
      HasLeast(rest);
      var m :| m in rest && forall k :: k in rest && k != m ==> StrLess(m, k);
      StrLessTotal(x, m);
      var least := if StrLess(x, m) then x else m;
      forall k | k in keys && k != least
        ensures StrLess(least, k)
      {
        if least == x {
          if k != m {
            assert k in rest;
            StrLessTransitive(x, m, k);
          }
        } else if k != x {
          assert k in rest;
        }
      }
      assert least in keys;
    }
  }

  /** `sorted(keys)`: the names of a set in code-point order. */
  ghost function SortedKeysOf(keys: set<string>): (s: seq<string>)
    ensures StrictlySorted(s)
    ensures forall k :: k in s <==> k in keys
    decreases keys
  {
    if keys == {} then []
    else
      HasLeast(keys);
      var m :| m in keys && forall k :: k in keys && k != m ==> StrLess(m, k);
      var rest := SortedKeysOf(keys - {m});
      assert forall j :: 0 <= j < |rest| ==> StrLess(m, rest[j]) by {
        forall j | 0 <= j < |rest|
          ensures StrLess(m, rest[j])
        {
          assert rest[j] in rest;
        }
      }
      [m] + rest
  }

  // ---------------------------------------------------------------------
  // The rows

  /** `v.get(a, '')`. */
  function Cell(v: Record, a: string): Value {
    if a in v then v[a] else VStr("")
  }

  /** The row of one record: its value for each column, or an empty
      string. */
  function RowOf(v: Record, attrs: seq<string>): (row: seq<Value>)
    ensures |row| == |attrs|
    ensures forall j :: 0 <= j < |attrs| ==> row[j] == Cell(v, attrs[j])
  {
    seq(|attrs|, j requires 0 <= j < |attrs| => Cell(v, attrs[j]))
  }

  /** `arr` as a value: the sorted keys, then one row of cells per record. */
  ghost function Tabulated(vals: seq<Record>): Table {
    var attrs := SortedKeysOf(AllKeys(vals));
    Table(attrs, seq(|vals|, i requires 0 <= i < |vals| => RowOf(vals[i], attrs)))
  }

  /** `[v.get(a, '') for a in attrs]`, cell by cell. */
  method RecordRow(v: Record, attrs: seq<string>) returns (row: seq<Value>)
    ensures row == RowOf(v, attrs)
  {
    row := [];
    var j := 0;
    while j < |attrs|
      invariant 0 <= j <= |attrs|
      invariant |row| == j
      invariant forall c :: 0 <= c < j ==> row[c] == Cell(v, attrs[c])
    {
      row := row + [Cell(v, attrs[j])];
      j := j + 1;
    }
  }

  /** The table of the records: the sorted union of their keys as the
      header, and one row per record, in order, holding the record's value
      for each column or an empty string. */
  method BuildTable(vals: seq<Record>) returns (t: Table)
    ensures t == Tabulated(vals)
    ensures StrictlySorted(t.header)
    ensures forall k :: k in t.header <==> exists i :: 0 <= i < |vals| && k in vals[i]
    ensures |t.rows| == |vals|
    ensures Rectangular(t)
    ensures forall i, j :: 0 <= i < |vals| && 0 <= j < |t.header| ==> t.rows[i][j] == Cell(vals[i], t.header[j])
  {
    var attrs := SortedKeys(vals);
    AllKeysMeaning(vals);
    var rows: seq<seq<Value>> := [];
    var i := 0;
    while i < |vals|
      invariant 0 <= i <= |vals|
      invariant |rows| == i
      invariant forall r :: 0 <= r < i ==> rows[r] == RowOf(vals[r], attrs)
    {
      var row := RecordRow(vals[i], attrs);
      rows := rows + [row];
      i := i + 1;
    }
    t := Table(attrs, rows);
    SortedUnique(attrs, SortedKeysOf(AllKeys(vals)));
  }

  // ---------------------------------------------------------------------
  // Looking up columns

  /** `attrs.index(name)`: the first position of `name`, if any. */
  function IndexOf(attrs: seq<string>, name: string): (r: Option<nat>)
    ensures r.Some? ==> r.value < |attrs| && attrs[r.value] == name
    ensures r.Some? ==> forall j :: 0 <= j < r.value ==> attrs[j] != name
    ensures r.None? <==> name !in attrs
  {
    if attrs == [] then None
    else if attrs[0] == name then Some(0)
    else match IndexOf(attrs[1..], name)
      case None => None
      case Some(i) => Some(i + 1)
  }

  /** `[attrs.index(c) for c in columns]`: fails on the first unknown name. */
  function ColumnIndices(attrs: seq<string>, columns: seq<string>): (r: Result<seq<nat>>)
    ensures r.Ok? <==> forall c :: c in columns ==> c in attrs
    ensures r.Ok? ==> |r.value| == |columns|
    ensures r.Ok? ==> forall j :: 0 <= j < |columns| ==> r.value[j] < |attrs| && attrs[r.value[j]] == columns[j]
    ensures r.Err? ==> exists j :: 0 <= j < |columns| && columns[j] !in attrs && r.error == UnknownColumn(columns[j])
                                  && forall i :: 0 <= i < j ==> columns[i] in attrs
  {
    if columns == [] then Ok([])
    else
      match IndexOf(attrs, columns[0])
      case None => Err(UnknownColumn(columns[0]))
      case Some(i) =>
        match ColumnIndices(attrs, columns[1..])
        case Err(e) =>
          assert forall c :: c in columns[1..] ==> c in columns;
          Err(e)
        case Ok(rest) =>
          assert forall c :: c in columns ==> c == columns[0] || c in columns[1..];
          Ok([i] + rest)
  }

  /** The cells of `row` at the positions `idx`, in that order. */
  function Pick<T>(row: seq<T>, idx: seq<nat>): (r: seq<T>)
    requires forall j :: 0 <= j < |idx| ==> idx[j] < |row|
    ensures |r| == |idx|
    ensures forall j :: 0 <= j < |idx| ==> r[j] == row[idx[j]]
  {
    seq(|idx|, j requires 0 <= j < |idx| => row[idx[j]])
  }

  /** Every row of a table cut down to the positions `idx`. */
  function PickRows(t: Table, idx: seq<nat>): (rows: seq<seq<Value>>)
    requires Rectangular(t)
    requires forall j :: 0 <= j < |idx| ==> idx[j] < |t.header|
    ensures |rows| == |t.rows|
    ensures forall i :: 0 <= i < |t.rows| ==> rows[i] == Pick(t.rows[i], idx)
  {
    seq(|t.rows|, i requires 0 <= i < |t.rows| => Pick(t.rows[i], idx))
  }

  /** `--columns`: every row, header included, cut down to the requested
      columns in the requested order (a column may be asked for twice). */
  function Project(t: Table, columns: seq<string>): Result<Table>
    requires Rectangular(t)
  {
    var idx :- ColumnIndices(t.header, columns);
    Ok(Table(Pick(t.header, idx), PickRows(t, idx)))
  }

  /** The projection fails exactly on an unknown column; otherwise its
      header is the requested columns and each row holds the cells of the
      same row under those columns. */
  lemma ProjectMeaning(t: Table, columns: seq<string>)
    requires Rectangular(t)
    ensures Project(t, columns).Ok? <==> forall c :: c in columns ==> c in t.header
    ensures Project(t, columns).Err? ==> Project(t, columns).error.UnknownColumn?
    ensures Project(t, columns).Ok? ==>
      var p := Project(t, columns).value;
      && p.header == columns
      && Rectangular(p)
      && |p.rows| == |t.rows|
      && forall i, j :: 0 <= i < |t.rows| && 0 <= j < |columns| ==>
           exists c :: 0 <= c < |t.header| && t.header[c] == columns[j] && p.rows[i][j] == t.rows[i][c]
  {
    var r := ColumnIndices(t.header, columns);
    if r.Ok? {
      var p := Project(t, columns).value;
      assert p.header == columns;
      forall i, j | 0 <= i < |t.rows| && 0 <= j < |columns|
        ensures exists c :: 0 <= c < |t.header| && t.header[c] == columns[j] && p.rows[i][j] == t.rows[i][c]
      {
        var c := r.value[j];
        assert t.header[c] == columns[j] && p.rows[i][j] == t.rows[i][c];
      }
    }
  }

  // ---------------------------------------------------------------------
  // Hiding the capacity columns

  predicate IsCapacity(name: string) {
    StartsWith(name, "avail_")
  }

  /** The positions of the columns the mask keeps, in order. */
  function Unmasked(header: seq<string>): (idx: seq<nat>)
    ensures forall j :: 0 <= j < |idx| ==> idx[j] < |header| && !IsCapacity(header[idx[j]])
    ensures forall j, k :: 0 <= j < k < |idx| ==> idx[j] < idx[k]
    ensures forall c :: 0 <= c < |header| && !IsCapacity(header[c]) ==> c in idx
  {
    if header == [] then []
    else
      var front := Unmasked(header[..|header| - 1]);
      if IsCapacity(header[|header| - 1]) then front else front + [|header| - 1]
  }

  /** The header with the capacity columns left out, in order. */
  function WithoutCapacity(header: seq<string>): seq<string> {
    if header == [] then []
    else
      var front := WithoutCapacity(header[..|header| - 1]);
      if IsCapacity(header[|header| - 1]) then front else front + [header[|header| - 1]]
  }

  /** The mask applied to every row, header included. */
  function Mask(t: Table): Table
    requires Rectangular(t)
  {
    var idx := Unmasked(t.header);
    Table(Pick(t.header, idx), PickRows(t, idx))
  }

  lemma {:induction false} UnmaskedHeader(header: seq<string>)
    ensures Pick(header, Unmasked(header)) == WithoutCapacity(header)
  {
    if header != [] {
      var front := header[..|header| - 1];
      UnmaskedHeader(front);
      assert Pick(header, Unmasked(front)) == Pick(front, Unmasked(front));
    }
  }

  /** Every column the mask keeps is not a capacity column, and every other
      column is kept. */
  lemma MaskHeader(t: Table)
    requires Rectangular(t)
    ensures forall j :: 0 <= j < |Mask(t).header| ==> !IsCapacity(Mask(t).header[j])
    ensures forall c :: 0 <= c < |t.header| && !IsCapacity(t.header[c]) ==> t.header[c] in Mask(t).header
  {
    var idx := Unmasked(t.header);
    var h := Pick(t.header, idx);
    forall c | 0 <= c < |t.header| && !IsCapacity(t.header[c])
      ensures t.header[c] in h
    {
      var j :| 0 <= j < |idx| && idx[j] == c;
      assert h[j] == t.header[c];
    }
  }

  /** Each kept cell is the cell of the same row under the same column. */
  lemma MaskCells(t: Table)
    requires Rectangular(t)
    ensures Rectangular(Mask(t)) && |Mask(t).rows| == |t.rows|
    ensures forall i, j :: 0 <= i < |t.rows| && 0 <= j < |Mask(t).header| ==>
      exists c :: 0 <= c < |t.header| && Mask(t).header[j] == t.header[c] && Mask(t).rows[i][j] == t.rows[i][c]
  {
    var idx := Unmasked(t.header);
    var m := Mask(t);
    forall i, j | 0 <= i < |t.rows| && 0 <= j < |m.header|
      ensures exists c :: 0 <= c < |t.header| && m.header[j] == t.header[c] && m.rows[i][j] == t.rows[i][c]
    {
      assert m.header[j] == t.header[idx[j]] && m.rows[i][j] == t.rows[i][idx[j]];
    }
  }

  /** The mask removes exactly the columns whose name starts with `avail_`:
      the header loses those names and keeps the rest in order, and every
      row keeps the cells under the kept columns. */
  lemma MaskMeaning(t: Table)
    requires Rectangular(t)
    ensures Mask(t).header == WithoutCapacity(t.header)
    ensures forall j :: 0 <= j < |Mask(t).header| ==> !IsCapacity(Mask(t).header[j])
    ensures forall c :: 0 <= c < |t.header| && !IsCapacity(t.header[c]) ==> t.header[c] in Mask(t).header
    ensures Rectangular(Mask(t)) && |Mask(t).rows| == |t.rows|
    ensures forall i, j :: 0 <= i < |t.rows| && 0 <= j < |Mask(t).header| ==>
      exists c :: 0 <= c < |t.header| && Mask(t).header[j] == t.header[c] && Mask(t).rows[i][j] == t.rows[i][c]
  {
    UnmaskedHeader(t.header);
    MaskHeader(t);
    MaskCells(t);
  }
}
