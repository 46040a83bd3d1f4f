/** `--sort-by` (report_hls.py:276-294): each key names a column, ascending,
    or descending with a leading `_`; rows are ordered by the tuple of
    per-column keys with Python's stable `sorted`. */
module Sorting {
  import opened Results
  import opened Text
  import opened Values
  import opened Tables

  /** A component of a row's sort key: a number, or one of the infinities
      that non-numeric cells are mapped to. */
  datatype KeyElem = NegInf | Fin(x: real) | PosInf

  function Rank(e: KeyElem): nat {
    match e
    case NegInf => 0
    case Fin(_) => 1
    case PosInf => 2
  }

  /** The order of floats on these values. */
  predicate ElemLess(a: KeyElem, b: KeyElem) {
    Rank(a) < Rank(b) || (a.Fin? && b.Fin? && a.x < b.x)
  }

  /** Python's tuple order: the first differing component decides, and a
      proper prefix comes first. */
  predicate LexLess(a: seq<KeyElem>, b: seq<KeyElem>)
    decreases |a|
  {
    if a == [] then b != []
    else if b == [] then false
    else ElemLess(a[0], b[0]) || (a[0] == b[0] && LexLess(a[1..], b[1..]))
  }

  lemma {:induction false} LexIrreflexive(a: seq<KeyElem>)
    ensures !LexLess(a, a)
    decreases |a|
  {
    if a != [] {
      LexIrreflexive(a[1..]);
    }
  }

  lemma {:induction false} LexTransitive(a: seq<KeyElem>, b: seq<KeyElem>, c: seq<KeyElem>)
    requires LexLess(a, b) && LexLess(b, c)
    ensures LexLess(a, c)
    decreases |a|
  {
    if a != [] && b != [] && c != [] && a[0] == b[0] && b[0] == c[0] {
      LexTransitive(a[1..], b[1..], c[1..]);
    }
  }

  lemma {:induction false} LexTotal(a: seq<KeyElem>, b: seq<KeyElem>)
    ensures a == b || LexLess(a, b) || LexLess(b, a)
    decreases |a|
  {
    if a != [] && b != [] && a[0] == b[0] {
      LexTotal(a[1..], b[1..]);
      if a[1..] == b[1..] {
        assert a == [a[0]] + a[1..] && b == [b[0]] + b[1..];
      }
    }
  }

  /** Not-after is transitive. */
  lemma LexNotAfter(a: seq<KeyElem>, b: seq<KeyElem>, c: seq<KeyElem>)
    requires !LexLess(b, a) && !LexLess(c, b)
    ensures !LexLess(c, a)
  {
    LexTotal(a, b);
    LexTotal(b, c);
    if LexLess(c, a) {
      if a != b && b != c {
        LexTransitive(a, b, c);
        LexTransitive(a, c, a);
        LexIrreflexive(a);
      } else if a != b {
        LexTransitive(a, b, a);
        LexIrreflexive(a);
      } else if b != c {
        LexTransitive(b, c, b);
        LexIrreflexive(b);
      } else {
        LexIrreflexive(a);
      }
    }
  }

  // ---------------------------------------------------------------------
  // Sort keys

  /** One `--sort-by` entry resolved: a column position and a sign. */
  datatype SortSpec = SortSpec(column: nat, sign: int)

  predicate Descending(key: string) {
    StartsWith(key, "_")
  }

  /** The column a key names: the key without its leading `_`. */
  function ColumnName(key: string): string {
    if Descending(key) then key[1..] else key
  }

  function ColumnNames(keys: seq<string>): (names: seq<string>)
    ensures |names| == |keys|
    ensures forall j :: 0 <= j < |keys| ==> names[j] == ColumnName(keys[j])
  {
    seq(|keys|, j requires 0 <= j < |keys| => ColumnName(keys[j]))
  }

  /** `sort_indices` and `signs`: fails with the first key whose column is
      not in the header. */
  function ParseSortKeys(attrs: seq<string>, keys: seq<string>): Result<seq<SortSpec>> {
    var idx :- ColumnIndices(attrs, ColumnNames(keys));
    Ok(seq(|keys|, j requires 0 <= j < |keys| => SortSpec(idx[j], if Descending(keys[j]) then -1 else 1)))
  }

  /** Parsing succeeds exactly when every key names a column; each entry
      then points at that column and is descending exactly when the key
      starts with `_`. */
  lemma ParseSortKeysMeaning(attrs: seq<string>, keys: seq<string>)
    ensures ParseSortKeys(attrs, keys).Ok? <==> forall j :: 0 <= j < |keys| ==> ColumnName(keys[j]) in attrs
    ensures ParseSortKeys(attrs, keys).Err? ==> ParseSortKeys(attrs, keys).error.UnknownColumn?
    ensures ParseSortKeys(attrs, keys).Ok? ==>
      var specs := ParseSortKeys(attrs, keys).value;
      && |specs| == |keys|
      && forall j :: 0 <= j < |keys| ==>
           && specs[j].column < |attrs|
           && attrs[specs[j].column] == ColumnName(keys[j])
           && (specs[j].sign == -1 <==> Descending(keys[j]))
           && (specs[j].sign == 1 <==> !Descending(keys[j]))
  {
    var names := ColumnNames(keys);
    if ColumnIndices(attrs, names).Ok? {
      forall j | 0 <= j < |keys|
        ensures ColumnName(keys[j]) in attrs
      {
        assert names[j] in names;
      }
    }
  }

  /** `s * (x if x >= 0 else -100 * x)` for a number, `s * -inf` for
      anything else. */
  function CellKey(v: Value, sign: int): KeyElem {
    if IsNumeric(v) then
      var x := AsReal(v);
      Fin(sign as real * (if x >= 0.0 then x else -100.0 * x))
    else if sign > 0 then NegInf
    else PosInf
  }

  /** Non-numeric cells sort before every number in an ascending column
      and after every number in a descending one. */
  lemma NonNumericPlacement(v: Value, w: Value)
    requires !IsNumeric(v) && IsNumeric(w)
    ensures ElemLess(CellKey(v, 1), CellKey(w, 1))
    ensures ElemLess(CellKey(w, -1), CellKey(v, -1))
  {}

  /** A negative number ranks like a positive one a hundred times its size. */
  lemma NegativeWeighsHundredfold(x: real, sign: int)
    requires x > 0.0
    ensures CellKey(VFloat(-x), sign) == CellKey(VFloat(100.0 * x), sign)
  {}

  predicate Indexes(specs: seq<SortSpec>, n: nat) {
    forall j :: 0 <= j < |specs| ==> specs[j].column < n
  }

  predicate AllIndexed(rows: seq<seq<Value>>, specs: seq<SortSpec>) {
    forall i :: 0 <= i < |rows| ==> Indexes(specs, |rows[i]|)
  }

  /** The key tuple of a row. */
  function RowKey(row: seq<Value>, specs: seq<SortSpec>): (k: seq<KeyElem>)
    requires Indexes(specs, |row|)
    ensures |k| == |specs|
    ensures forall j :: 0 <= j < |specs| ==> k[j] == CellKey(row[specs[j].column], specs[j].sign)
  {
    seq(|specs|, j requires 0 <= j < |specs| => CellKey(row[specs[j].column], specs[j].sign))
  }

  // ---------------------------------------------------------------------
  // The stable sort

  /** `x` put in front of the first row whose key is not smaller. */
  function InsertRow(x: seq<Value>, s: seq<seq<Value>>, specs: seq<SortSpec>): (r: seq<seq<Value>>)
    requires Indexes(specs, |x|) && AllIndexed(s, specs)
    ensures AllIndexed(r, specs)
    ensures multiset(r) == multiset(s) + multiset{x}
    ensures |r| == |s| + 1
  {
    if s == [] || !LexLess(RowKey(s[0], specs), RowKey(x, specs)) then [x] + s
    else
      assert s == [s[0]] + s[1..];
      [s[0]] + InsertRow(x, s[1..], specs)
  }

  /** Python's `sorted` with the row key: an insertion sort that puts each
      row before the later rows whose key is not smaller. */
  function SortRows(rows: seq<seq<Value>>, specs: seq<SortSpec>): (r: seq<seq<Value>>)
    requires AllIndexed(rows, specs)
    ensures AllIndexed(r, specs)
    ensures multiset(r) == multiset(rows)
    ensures |r| == |rows|
  {
    if rows == [] then []
    else
      assert rows == [rows[0]] + rows[1..];
      InsertRow(rows[0], SortRows(rows[1..], specs), specs)
  }

  predicate Sorted(rows: seq<seq<Value>>, specs: seq<SortSpec>)
    requires AllIndexed(rows, specs)
  {
    forall i, j :: 0 <= i < j < |rows| ==> !LexLess(RowKey(rows[j], specs), RowKey(rows[i], specs))
  }

  /** Inserting at the front keeps the order when the first row's key is
      not smaller. */
  lemma InsertFrontSorted(x: seq<Value>, s: seq<seq<Value>>, specs: seq<SortSpec>)
    requires Indexes(specs, |x|) && AllIndexed(s, specs) && Sorted(s, specs)
    requires s != [] ==> !LexLess(RowKey(s[0], specs), RowKey(x, specs))
    ensures Sorted([x] + s, specs)
  {
    var r := [x] + s;
    forall i, j | 0 <= i < j < |r|
      ensures !LexLess(RowKey(r[j], specs), RowKey(r[i], specs))
    {
      if i == 0 && j > 1 {
        LexNotAfter(RowKey(x, specs), RowKey(s[0], specs), RowKey(s[j - 1], specs));
      }
    }
  }

  /** Putting a row in front of a sorted sequence none of whose keys is
      smaller keeps it sorted. */
  lemma ConsSorted(y: seq<Value>, rest: seq<seq<Value>>, specs: seq<SortSpec>)
    requires Indexes(specs, |y|) && AllIndexed(rest, specs) && Sorted(rest, specs)
    requires forall j :: 0 <= j < |rest| ==> !LexLess(RowKey(rest[j], specs), RowKey(y, specs))
    ensures Sorted([y] + rest, specs)
  {
    var r := [y] + rest;
    forall i, j | 0 <= i < j < |r|
      ensures !LexLess(RowKey(r[j], specs), RowKey(r[i], specs))
    {
      if i > 0 {
        assert r[i] == rest[i - 1] && r[j] == rest[j - 1];
      }
    }
  }

  lemma {:induction false} InsertSorted(x: seq<Value>, s: seq<seq<Value>>, specs: seq<SortSpec>)
    requires Indexes(specs, |x|) && AllIndexed(s, specs) && Sorted(s, specs)
    ensures Sorted(InsertRow(x, s, specs), specs)
  {
    if s == [] || !LexLess(RowKey(s[0], specs), RowKey(x, specs)) {
      InsertFrontSorted(x, s, specs);
    } else {
      var y := s[0];
      var tail := s[1..];
      assert Sorted(tail, specs) by {
        forall i, j | 0 <= i < j < |tail|
          ensures !LexLess(RowKey(tail[j], specs), RowKey(tail[i], specs))
        {
          assert tail[i] == s[i + 1] && tail[j] == s[j + 1];
        }
      }
      var rest := InsertRow(x, tail, specs);
      InsertSorted(x, tail, specs);
      forall j | 0 <= j < |rest|
        ensures !LexLess(RowKey(rest[j], specs), RowKey(y, specs))
      {
        assert rest[j] in multiset(tail) + multiset{x} by {
          assert rest[j] in multiset(rest);
        }
        if rest[j] == x {
          LexTotal(RowKey(y, specs), RowKey(x, specs));
          if LexLess(RowKey(x, specs), RowKey(y, specs)) {
            LexTransitive(RowKey(x, specs), RowKey(y, specs), RowKey(x, specs));
            LexIrreflexive(RowKey(x, specs));
          }
        } else {
          assert rest[j] in tail;
          var m :| 0 <= m < |tail| && tail[m] == rest[j];
          assert s[m + 1] == rest[j];
        }
      }
      ConsSorted(y, rest, specs);
    }
  }

  lemma {:induction false} SortSorted(rows: seq<seq<Value>>, specs: seq<SortSpec>)
    requires AllIndexed(rows, specs)
    ensures Sorted(SortRows(rows, specs), specs)
  {
    if rows != [] {
      SortSorted(rows[1..], specs);
      InsertSorted(rows[0], SortRows(rows[1..], specs), specs);
    }
  }

  /** The rows whose key equals `k`, in order. */
  function WithKey(rows: seq<seq<Value>>, specs: seq<SortSpec>, k: seq<KeyElem>): seq<seq<Value>>
    requires AllIndexed(rows, specs)
  {
    if rows == [] then []
    else (if RowKey(rows[0], specs) == k then [rows[0]] else []) + WithKey(rows[1..], specs, k)
  }

  lemma {:induction false} InsertWithKey(x: seq<Value>, s: seq<seq<Value>>, specs: seq<SortSpec>, k: seq<KeyElem>)
    requires Indexes(specs, |x|) && AllIndexed(s, specs)
    ensures WithKey(InsertRow(x, s, specs), specs, k)
         == (if RowKey(x, specs) == k then [x] else []) + WithKey(s, specs, k)
  {
    var r := InsertRow(x, s, specs);
    assert r[1..] == (if s == [] || !LexLess(RowKey(s[0], specs), RowKey(x, specs)) then s else InsertRow(x, s[1..], specs));
    if s != [] && LexLess(RowKey(s[0], specs), RowKey(x, specs)) {
      InsertWithKey(x, s[1..], specs, k);
      LexIrreflexive(RowKey(x, specs));
    }
  }

  /** Ties keep their input order: the rows of any one key value come out
      in the order they went in. */
  lemma {:induction false} SortStable(rows: seq<seq<Value>>, specs: seq<SortSpec>, k: seq<KeyElem>)
    requires AllIndexed(rows, specs)
    ensures WithKey(SortRows(rows, specs), specs, k) == WithKey(rows, specs, k)
  {
    if rows != [] {
      SortStable(rows[1..], specs, k);
      InsertWithKey(rows[0], SortRows(rows[1..], specs), specs, k);
    }
  }

  // ---------------------------------------------------------------------
  // The sorting stage

  /** The table after `--sort-by`: unchanged with no keys, otherwise the
      header unchanged and the data rows sorted. */
  function SortTable(t: Table, keys: seq<string>): (r: Result<Table>)
    requires Rectangular(t)
    ensures r.Ok? ==> Rectangular(r.value) && r.value.header == t.header && |r.value.rows| == |t.rows|
  {
    if keys == [] then Ok(t)
    else
      var specs :- ParseSortKeys(t.header, keys);
      ParseSortKeysMeaning(t.header, keys);
      var rows := SortRows(t.rows, specs);
      assert forall i :: 0 <= i < |rows| ==> |rows[i]| == |t.header| by {
        forall i | 0 <= i < |rows|
          ensures |rows[i]| == |t.header|
        {
          assert rows[i] in multiset(t.rows) by {
            assert rows[i] in multiset(rows);
          }
        }
      }
      Ok(Table(t.header, rows))
  }

  /** The sorting stage fails exactly on a key naming no column; otherwise
      the header stays first, the rows are a permutation of the input rows
      in non-decreasing key order, and rows with equal keys keep their
      relative order. */
  lemma SortTableMeaning(t: Table, keys: seq<string>)
    requires Rectangular(t) && keys != []
    ensures SortTable(t, keys).Ok? <==> forall j :: 0 <= j < |keys| ==> ColumnName(keys[j]) in t.header
    ensures SortTable(t, keys).Err? ==> SortTable(t, keys).error.UnknownColumn?
    ensures SortTable(t, keys).Ok? ==>
      var specs := ParseSortKeys(t.header, keys).value;
      var s := SortTable(t, keys).value;
      && AllIndexed(t.rows, specs)
      && s.header == t.header
      && multiset(s.rows) == multiset(t.rows)
      && Sorted(s.rows, specs)
      && forall k :: WithKey(s.rows, specs, k) == WithKey(t.rows, specs, k)
  {
    ParseSortKeysMeaning(t.header, keys);
    var p := ParseSortKeys(t.header, keys);
    if p.Ok? {
      var specs := p.value;
      SortSorted(t.rows, specs);
      forall k {
        SortStable(t.rows, specs, k);
      }
    }
  }
}
