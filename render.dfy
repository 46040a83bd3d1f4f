/** `pretty_print` (report_hls.py:166-215): a fixed-width text table with a
    header line, a dashed separator and one line per data row, its column
    widths negotiated against the terminal width. */
module Render {
  import opened Results
  import opened Text
  import opened Values
  import opened Tables

  /** The float operations the layout uses, as parameters: `show` is `str`
      of a float, `digits(x)` is `ceil(log10(abs(x) + 1))`, `round(x, k)` is
      Python's `round` to `k` decimals, and `fixed(x, p)` is the `{:.pf}`
      text of `x`. */
  datatype FloatFormat = FloatFormat(
    show: real -> string,
    digits: real -> nat,
    round: (real, int) -> real,
    fixed: (real, nat) -> string)

  function Max(a: int, b: int): int { if a >= b then a else b }
  function Min(a: int, b: int): int { if a <= b then a else b }

  function Sum(ws: seq<nat>): nat {
    if ws == [] then 0 else ws[0] + Sum(ws[1..])
  }

  // ---------------------------------------------------------------------
  // Widths

  /** The width a cell asks for: its text, but at most 6 for a float. */
  function CellWidth(v: Value, fmt: FloatFormat): nat {
    if v.VFloat? then Min(6, |fmt.show(v.x)|) else |Show(v, fmt.show)|
  }

  /** The widest cell of column `j` over some rows. */
  function RowsWidth(rows: seq<seq<Value>>, j: nat, fmt: FloatFormat): (w: nat)
    requires forall i :: 0 <= i < |rows| ==> j < |rows[i]|
    ensures forall i :: 0 <= i < |rows| ==> CellWidth(rows[i][j], fmt) <= w
    ensures rows != [] ==> exists i :: 0 <= i < |rows| && CellWidth(rows[i][j], fmt) == w
    ensures rows == [] ==> w == 0
  {
    if rows == [] then 0
    else
      var rest := RowsWidth(rows[1..], j, fmt);
      assert forall i :: 1 <= i < |rows| ==> rows[i] == rows[1..][i - 1];
      Max(CellWidth(rows[0][j], fmt), rest)
  }

  /** The natural width of each column: the widest of its header and its
      cells. */
  function NaturalWidths(t: Table, fmt: FloatFormat): (ws: seq<nat>)
    requires Rectangular(t)
    ensures |ws| == |t.header|
  {
    seq(|t.header|, j requires 0 <= j < |t.header| => Max(|t.header[j]|, RowsWidth(t.rows, j, fmt)))
  }

  /** A natural width is the width of the widest entry of its column:
      no narrower than any of them, and equal to one of them. */
  lemma NaturalWidthIsWidest(t: Table, fmt: FloatFormat, j: nat)
    requires Rectangular(t) && j < |t.header|
    ensures |t.header[j]| <= NaturalWidths(t, fmt)[j]
    ensures forall i :: 0 <= i < |t.rows| ==> CellWidth(t.rows[i][j], fmt) <= NaturalWidths(t, fmt)[j]
    ensures NaturalWidths(t, fmt)[j] == |t.header[j]|
         || exists i :: 0 <= i < |t.rows| && NaturalWidths(t, fmt)[j] == CellWidth(t.rows[i][j], fmt)
  {
    var w := RowsWidth(t.rows, j, fmt);
    assert NaturalWidths(t, fmt)[j] == Max(|t.header[j]|, w);
  }

  /** The common width of shrunk columns: `max(8, (tw - 2n - 1) // n)`. */
  function Threshold(n: nat, tw: nat): nat
    requires n > 0
  {
    Max(8, (tw - 2 * n - 1) / n)
  }

  /** The fit test: keep the natural widths if they fit the budget
      `sum + 2n + 1`, otherwise cap every column at the threshold; with no
      columns the threshold divides by zero. */
  function ColumnWidths(natural: seq<nat>, tw: nat): (r: Result<seq<nat>>)
    ensures r.Ok? ==> |r.value| == |natural|
  {
    var n := |natural|;
    if Sum(natural) + 2 * n + 1 <= tw then Ok(natural)
    else if n == 0 then Err(ZeroDivision)
    else Ok(seq(n, j requires 0 <= j < n => Min(natural[j], Threshold(n, tw))))
  }

  /** The widths fail only for an empty header on a terminal without
      columns; they never exceed the natural widths; they are the natural
      widths when those fit; otherwise every column that is cut is cut to
      one common width of at least 8, the largest width of all. */
  lemma ColumnWidthsMeaning(natural: seq<nat>, tw: nat)
    ensures ColumnWidths(natural, tw).Err? <==> natural == [] && tw == 0
    ensures ColumnWidths(natural, tw).Err? ==> ColumnWidths(natural, tw).error == ZeroDivision
    ensures ColumnWidths(natural, tw).Ok? ==>
      var ws := ColumnWidths(natural, tw).value;
      && |ws| == |natural|
      && (forall j :: 0 <= j < |ws| ==> ws[j] <= natural[j])
      && (Sum(natural) + 2 * |natural| + 1 <= tw ==> ws == natural)
      && (forall j, k :: 0 <= j < |ws| && 0 <= k < |ws| && ws[j] < natural[j] ==> 8 <= ws[j] && ws[k] <= ws[j])
  {}

  lemma {:induction false} SumCapped(natural: seq<nat>, ws: seq<nat>, th: nat)
    requires |ws| == |natural|
    requires forall j :: 0 <= j < |ws| ==> ws[j] <= th
    ensures Sum(ws) <= |ws| * th
  {
    if ws != [] {
      SumCapped(natural[1..], ws[1..], th);
    }
  }

  /** On a terminal of at least `10n + 1` columns the chosen widths keep to
      the budget `sum + 2n + 1` of the fit test. */
  lemma WidthsWithinBudget(natural: seq<nat>, tw: nat)
    requires natural != [] && tw >= 10 * |natural| + 1
    ensures ColumnWidths(natural, tw).Ok?
    ensures Sum(ColumnWidths(natural, tw).value) + 2 * |natural| + 1 <= tw
  {
    var n := |natural|;
    if Sum(natural) + 2 * n + 1 > tw {
      var th := Threshold(n, tw);
      var ws := ColumnWidths(natural, tw).value;
      assert th == (tw - 2 * n - 1) / n by {
        assert (tw - 2 * n - 1) >= 8 * n;
        DivAtLeast(tw - 2 * n - 1, n, 8);
      }
      SumCapped(natural, ws, th);
      DivTimes(tw - 2 * n - 1, n);
      assert n * th == th * n;
    }
  }

  lemma DivAtLeast(a: int, n: int, k: int)
    requires n > 0 && a >= k * n
    ensures a / n >= k
  {
    var q := a / n;
    assert a == q * n + a % n;
    if q < k {
      MulMonotone(q + 1, k, n);
    }
  }

  lemma {:induction false} MulMonotone(x: int, y: int, n: nat)
    requires x <= y
    ensures x * n <= y * n
  {
    if n > 0 {
      MulMonotone(x, y, n - 1);
      assert x * n == x * (n - 1) + x;
      assert y * n == y * (n - 1) + y;
    }
  }

  lemma DivTimes(a: int, n: int)
    requires n > 0
    ensures (a / n) * n <= a
  {}

  // ---------------------------------------------------------------------
  // Lines

  /** `' | '.join(cells)` between `| ` and ` |`. */
  function Framed(cells: seq<string>): string {
    "| " + Join(" | ", cells) + " |"
  }

  function HeaderCells(header: seq<string>, ws: seq<nat>): (cells: seq<string>)
    requires |ws| == |header|
    ensures |cells| == |header|
    ensures forall j :: 0 <= j < |cells| ==> cells[j] == Fit(header[j], ws[j])
  {
    seq(|header|, j requires 0 <= j < |header| => Fit(header[j], ws[j]))
  }

  function Dashes(ws: seq<nat>): (cells: seq<string>)
    ensures |cells| == |ws|
    ensures forall j :: 0 <= j < |cells| ==> cells[j] == Repeat('-', ws[j])
  {
    seq(|ws|, j requires 0 <= j < |ws| => Repeat('-', ws[j]))
  }

  /** The dashed line under the header. */
  function Separator(ws: seq<nat>): string {
    "|-" + Join("-|-", Dashes(ws)) + "-|"
  }

  /** The integer digits `pretty_print` counts for a float: `digits` of it,
      or 1 for zero (`1 + (v < 0)`, and zero is not negative). */
  function IntDigits(x: real, fmt: FloatFormat): nat {
    if x == 0.0 then 1 else fmt.digits(x)
  }

  /** A data cell. A float is rounded to `10 - n` decimals, `n` its integer
      digits; its `str` is kept when it fits the width, and otherwise it is
      written with `w - n - 1` decimals, which raises a ValueError when that
      precision is negative. Either text is padded to at least the width.
      Any other cell is padded or cut to exactly the width. */
  function CellText(v: Value, w: nat, fmt: FloatFormat): Result<string> {
    if v.VFloat? then
      var n := IntDigits(v.x, fmt);
      var rounded := fmt.round(v.x, 10 - n);
      var s := fmt.show(rounded);
      if |s| <= w then Ok(LJust(s, w))
      else if w - n - 1 < 0 then Err(NegativePrecision)
      else Ok(LJust(fmt.fixed(rounded, w - n - 1), w))
    else
      Ok(Fit(Show(v, fmt.show), w))
  }

  /** The cells of a data row; the row fails when one of its cells does. */
  function RowCells(row: seq<Value>, ws: seq<nat>, fmt: FloatFormat): (r: Result<seq<string>>)
    requires |ws| == |row|
    ensures r.Ok? <==> forall j :: 0 <= j < |row| ==> CellText(row[j], ws[j], fmt).Ok?
    ensures r.Ok? ==> |r.value| == |row|
    ensures r.Ok? ==> forall j :: 0 <= j < |row| ==> r.value[j] == CellText(row[j], ws[j], fmt).value
    ensures r.Err? ==> r.error == NegativePrecision
  {
    if row == [] then Ok([])
    else
      var first := CellText(row[0], ws[0], fmt);
      var rest := RowCells(row[1..], ws[1..], fmt);
      assert forall j :: 1 <= j < |row| ==> row[j] == row[1..][j - 1] && ws[j] == ws[1..][j - 1];
      if first.Err? then Err(first.error)
      else if rest.Err? then Err(rest.error)
      else
        var cells := [first.value] + rest.value;
        assert forall j :: 1 <= j < |row| ==> cells[j] == rest.value[j - 1];
        Ok(cells)
  }

  /** The framed data lines; they fail when some row does, and every
      failure is the same ValueError, so which row fails first does not
      matter. */
  function RowLines(rows: seq<seq<Value>>, ws: seq<nat>, fmt: FloatFormat): (r: Result<seq<string>>)
    requires forall i :: 0 <= i < |rows| ==> |rows[i]| == |ws|
    ensures r.Ok? <==> forall i :: 0 <= i < |rows| ==> RowCells(rows[i], ws, fmt).Ok?
    ensures r.Ok? ==> |r.value| == |rows|
    ensures r.Ok? ==> forall i :: 0 <= i < |rows| ==> r.value[i] == Framed(RowCells(rows[i], ws, fmt).value)
    ensures r.Err? ==> r.error == NegativePrecision
  {
    if forall i :: 0 <= i < |rows| ==> RowCells(rows[i], ws, fmt).Ok? then
      Ok(seq(|rows|, i requires 0 <= i < |rows| && RowCells(rows[i], ws, fmt).Ok? =>
        Framed(RowCells(rows[i], ws, fmt).value)))
    else
      Err(NegativePrecision)
  }

  /** The lines `pretty_print` prints, one after the other. */
  function Rendered(t: Table, fmt: FloatFormat, tw: nat): Result<seq<string>>
    requires Rectangular(t)
  {
    var ws :- ColumnWidths(NaturalWidths(t, fmt), tw);
    var content :- RowLines(t.rows, ws, fmt);
    Ok([Framed(HeaderCells(t.header, ws)), Separator(ws)] + content)
  }

  /** The text printed: the lines joined by newlines. */
  function RenderedText(t: Table, fmt: FloatFormat, tw: nat): Result<string>
    requires Rectangular(t)
  {
    var lines :- Rendered(t, fmt, tw);
    Ok(Join("\n", lines))
  }

  /** The cells of one data row, built one by one as `_row` is. */
  method FormatRow(row: seq<Value>, ws: seq<nat>, fmt: FloatFormat) returns (r: Result<seq<string>>)
    requires |ws| == |row|
    ensures r == RowCells(row, ws, fmt)
  {
    var cells := [];
    var j := 0;
    while j < |row|
      invariant 0 <= j <= |row|
      invariant |cells| == j
      invariant forall c :: 0 <= c < j ==> CellText(row[c], ws[c], fmt) == Ok(cells[c])
    {
      var w := ws[j];
      var v := row[j];
      var text;
      if v.VFloat? {
        var n := if v.x == 0.0 then 1 else fmt.digits(v.x);
        var rounded := fmt.round(v.x, 10 - n);
        text := fmt.show(rounded);
        if |text| > w {
          if w - n - 1 < 0 {
            assert CellText(row[j], ws[j], fmt).Err?;
            return Err(NegativePrecision);
          }
          text := LJust(fmt.fixed(rounded, w - n - 1), w);
        } else {
          text := LJust(text, w);
        }
      } else {
        text := Fit(Show(v, fmt.show), w);
      }
      cells := cells + [text];
      j := j + 1;
    }
    r := Ok(cells);
    assert RowCells(row, ws, fmt).value == cells;
  }

  /** The data lines, one row after the other. */
  method FormatRows(rows: seq<seq<Value>>, ws: seq<nat>, fmt: FloatFormat) returns (r: Result<seq<string>>)
    requires forall i :: 0 <= i < |rows| ==> |rows[i]| == |ws|
    ensures r == RowLines(rows, ws, fmt)
  {
    var content := [];
    var i := 0;
    while i < |rows|
      invariant 0 <= i <= |rows|
      invariant |content| == i
      invariant LinesUpTo(rows, ws, fmt, content)
    {
      var cells := FormatRow(rows[i], ws, fmt);
      if cells.Err? {
        RowLinesFailAt(rows, ws, fmt, i);
        return Err(NegativePrecision);
      }
      LinesUpToStep(rows, ws, fmt, content, cells.value);
      content := content + [Framed(cells.value)];
      i := i + 1;
    }
    RowLinesAllOk(rows, ws, fmt, content);
    r := Ok(content);
  }

  /** `content` holds the framed lines of the first `|content|` rows, none
      of which fails. */
  ghost predicate LinesUpTo(rows: seq<seq<Value>>, ws: seq<nat>, fmt: FloatFormat, content: seq<string>)
    requires forall i :: 0 <= i < |rows| ==> |rows[i]| == |ws|
  {
    && |content| <= |rows|
    && (forall k :: 0 <= k < |content| ==> RowCells(rows[k], ws, fmt).Ok?)
    && (forall k :: 0 <= k < |content| ==> content[k] == Framed(RowCells(rows[k], ws, fmt).value))
  }

  lemma LinesUpToStep(rows: seq<seq<Value>>, ws: seq<nat>, fmt: FloatFormat, content: seq<string>, cells: seq<string>)
    requires forall i :: 0 <= i < |rows| ==> |rows[i]| == |ws|
    requires LinesUpTo(rows, ws, fmt, content) && |content| < |rows|
    requires RowCells(rows[|content|], ws, fmt) == Ok(cells)
    ensures LinesUpTo(rows, ws, fmt, content + [Framed(cells)])
  {
    var more := content + [Framed(cells)];
    forall k | 0 <= k < |more|
      ensures RowCells(rows[k], ws, fmt).Ok? && more[k] == Framed(RowCells(rows[k], ws, fmt).value)
    {
      if k < |content| {
        assert more[k] == content[k];
      }
    }
  }

  lemma RowLinesFailAt(rows: seq<seq<Value>>, ws: seq<nat>, fmt: FloatFormat, i: nat)
    requires forall i :: 0 <= i < |rows| ==> |rows[i]| == |ws|
    requires i < |rows| && RowCells(rows[i], ws, fmt).Err?
    ensures RowLines(rows, ws, fmt) == Err(NegativePrecision)
  {}

  lemma RowLinesAllOk(rows: seq<seq<Value>>, ws: seq<nat>, fmt: FloatFormat, content: seq<string>)
    requires forall i :: 0 <= i < |rows| ==> |rows[i]| == |ws|
    requires |content| == |rows| && LinesUpTo(rows, ws, fmt, content)
    ensures RowLines(rows, ws, fmt) == Ok(content)
  {
    assert RowLines(rows, ws, fmt).value == content;
  }

  /** Builds the header and separator, then each row cell by cell, as
      `pretty_print` does, and returns the text it prints. */
  method PrettyPrint(t: Table, fmt: FloatFormat, tw: nat) returns (r: Result<string>)
    requires Rectangular(t)
    ensures r == RenderedText(t, fmt, tw)
  {
    var natural := NaturalWidths(t, fmt);
    var widths := ColumnWidths(natural, tw);
    if widths.Err? {
      return Err(widths.error);
    }
    var ws := widths.value;
    var header := [Framed(HeaderCells(t.header, ws)), Separator(ws)];
    var content := FormatRows(t.rows, ws, fmt);
    if content.Err? {
      return Err(content.error);
    }
    assert Rendered(t, fmt, tw) == Ok(header + content.value);
    r := Ok(Join("\n", header + content.value));
  }

  /** A cell fails exactly when it holds a float whose rounded text is wider
      than its column and the column is too narrow for the float's integer
      digits and a point, so that the precision `w - n - 1` is negative. */
  lemma CellTextFails(v: Value, w: nat, fmt: FloatFormat)
    ensures CellText(v, w, fmt).Err? <==>
      && v.VFloat?
      && |fmt.show(fmt.round(v.x, 10 - IntDigits(v.x, fmt)))| > w
      && w < IntDigits(v.x, fmt) + 1
    ensures CellText(v, w, fmt).Err? ==> CellText(v, w, fmt).error == NegativePrecision
  {}

  /** Printing fails exactly when the widths do, or when, with the chosen
      widths, some cell does. */
  lemma RenderedFails(t: Table, fmt: FloatFormat, tw: nat)
    requires Rectangular(t)
    ensures ColumnWidths(NaturalWidths(t, fmt), tw).Err? ==>
      Rendered(t, fmt, tw) == Err(ColumnWidths(NaturalWidths(t, fmt), tw).error)
    ensures ColumnWidths(NaturalWidths(t, fmt), tw).Ok? ==>
      var ws := ColumnWidths(NaturalWidths(t, fmt), tw).value;
      (Rendered(t, fmt, tw).Err? <==>
         exists i, j :: 0 <= i < |t.rows| && 0 <= j < |ws| && CellText(t.rows[i][j], ws[j], fmt).Err?)
  {
    var widths := ColumnWidths(NaturalWidths(t, fmt), tw);
    if widths.Ok? {
      var ws := widths.value;
      assert Rendered(t, fmt, tw).Err? <==> RowLines(t.rows, ws, fmt).Err?;
      RowLinesFail(t.rows, ws, fmt);
    }
  }

  lemma RowLinesFail(rows: seq<seq<Value>>, ws: seq<nat>, fmt: FloatFormat)
    requires forall i :: 0 <= i < |rows| ==> |rows[i]| == |ws|
    ensures RowLines(rows, ws, fmt).Err? <==>
      exists i, j :: 0 <= i < |rows| && 0 <= j < |ws| && CellText(rows[i][j], ws[j], fmt).Err?
  {
    if RowLines(rows, ws, fmt).Err? {
      var i :| 0 <= i < |rows| && RowCells(rows[i], ws, fmt).Err?;
      var j :| 0 <= j < |ws| && CellText(rows[i][j], ws[j], fmt).Err?;
    }
  }

  /** A float cell too wide for its column fails: `lr=12345678.5` gives a
      column of width 6 (the header `lr`, and a float counts as at most 6),
      the value has 8 integer digits, its rounded text has 10 characters, and
      the precision `6 - 8 - 1` is negative. */
  lemma WideFloatFails(fmt: FloatFormat)
    requires fmt.show(12345678.5) == "12345678.5"
    requires fmt.digits(12345678.5) == 8
    requires fmt.round(12345678.5, 2) == 12345678.5
    ensures RenderedText(Table(["lr"], [[VFloat(12345678.5)]]), fmt, 80) == Err(NegativePrecision)
  {
    var t := Table(["lr"], [[VFloat(12345678.5)]]);
    assert CellWidth(VFloat(12345678.5), fmt) == 6;
    assert RowsWidth(t.rows, 0, fmt) == 6;
    assert NaturalWidths(t, fmt) == [6];
    assert Sum([6]) == 6;
    assert ColumnWidths([6], 80) == Ok([6]);
    assert CellText(VFloat(12345678.5), 6, fmt) == Err(NegativePrecision);
    assert RowCells(t.rows[0], [6], fmt).Err?;
  }

  // ---------------------------------------------------------------------
  // Line lengths

  lemma {:induction false} SumOfWidths(cells: seq<string>, ws: seq<nat>)
    requires |cells| == |ws|
    requires forall j :: 0 <= j < |ws| ==> |cells[j]| == ws[j]
    ensures SumLengths(cells) == Sum(ws)
  {
    if ws != [] {
      SumOfWidths(cells[1..], ws[1..]);
    }
  }

  /** A framed line of cells of exactly the column widths is
      `sum + 3n + 1` characters long. */
  lemma FramedLength(cells: seq<string>, ws: seq<nat>)
    requires |cells| == |ws| && ws != []
    requires forall j :: 0 <= j < |ws| ==> |cells[j]| == ws[j]
    ensures |Framed(cells)| == Sum(ws) + 3 * |ws| + 1
  {
    JoinLength(" | ", cells);
    SumOfWidths(cells, ws);
  }

  lemma SeparatorLength(ws: seq<nat>)
    requires ws != []
    ensures |Separator(ws)| == Sum(ws) + 3 * |ws| + 1
  {
    JoinLength("-|-", Dashes(ws));
    SumOfWidths(Dashes(ws), ws);
  }

  /** A cell is exactly as wide as its column unless it holds a float,
      which is never narrower. */
  lemma CellTextWidth(v: Value, w: nat, fmt: FloatFormat)
    ensures CellText(v, w, fmt).Ok? ==> |CellText(v, w, fmt).value| >= w
    ensures !v.VFloat? ==> CellText(v, w, fmt).Ok? && |CellText(v, w, fmt).value| == w
  {}

  lemma RowLineLength(row: seq<Value>, ws: seq<nat>, fmt: FloatFormat)
    requires |row| == |ws| && ws != []
    requires forall j :: 0 <= j < |row| ==> !row[j].VFloat?
    ensures RowCells(row, ws, fmt).Ok?
    ensures |Framed(RowCells(row, ws, fmt).value)| == Sum(ws) + 3 * |ws| + 1
  {
    forall j | 0 <= j < |ws|
      ensures CellText(row[j], ws[j], fmt).Ok?
    {
      CellTextWidth(row[j], ws[j], fmt);
    }
    var cells := RowCells(row, ws, fmt).value;
    forall j | 0 <= j < |ws|
      ensures |cells[j]| == ws[j]
    {
      CellTextWidth(row[j], ws[j], fmt);
    }
    FramedLength(cells, ws);
  }

  /** With at least one column, the header line, the separator and every
      row without a float are each `sum(widths) + 3n + 1` characters long. */
  lemma LineLengths(t: Table, fmt: FloatFormat, tw: nat)
    requires Rectangular(t) && t.header != []
    requires Rendered(t, fmt, tw).Ok?
    ensures var lines := Rendered(t, fmt, tw).value;
      var ws := ColumnWidths(NaturalWidths(t, fmt), tw).value;
      var len := Sum(ws) + 3 * |t.header| + 1;
      && |lines| == |t.rows| + 2
      && |lines[0]| == len
      && |lines[1]| == len
      && (forall i :: 0 <= i < |t.rows| && (forall j :: 0 <= j < |t.header| ==> !t.rows[i][j].VFloat?) ==> |lines[i + 2]| == len)
  {
    var ws := ColumnWidths(NaturalWidths(t, fmt), tw).value;
    RenderedLines(t, fmt, tw);
    var content := RowLines(t.rows, ws, fmt).value;
    FramedLength(HeaderCells(t.header, ws), ws);
    SeparatorLength(ws);
    RowLinesLength(t, ws, fmt);
    TwoThenRest(Framed(HeaderCells(t.header, ws)), Separator(ws), content);
  }

  /** A successful print is the header line, the rule and the data lines. */
  lemma RenderedLines(t: Table, fmt: FloatFormat, tw: nat)
    requires Rectangular(t) && Rendered(t, fmt, tw).Ok?
    ensures ColumnWidths(NaturalWidths(t, fmt), tw).Ok?
    ensures var ws := ColumnWidths(NaturalWidths(t, fmt), tw).value;
      && RowLines(t.rows, ws, fmt).Ok?
      && Rendered(t, fmt, tw).value
         == [Framed(HeaderCells(t.header, ws)), Separator(ws)] + RowLines(t.rows, ws, fmt).value
  {}

  lemma TwoThenRest<T>(a: T, b: T, rest: seq<T>)
    ensures |[a, b] + rest| == |rest| + 2
    ensures ([a, b] + rest)[0] == a && ([a, b] + rest)[1] == b
    ensures forall i :: 0 <= i < |rest| ==> ([a, b] + rest)[i + 2] == rest[i]
  {}

  lemma RowLinesLength(t: Table, ws: seq<nat>, fmt: FloatFormat)
    requires Rectangular(t) && |ws| == |t.header| && ws != []
    requires RowLines(t.rows, ws, fmt).Ok?
    ensures forall i :: 0 <= i < |t.rows| && (forall j :: 0 <= j < |t.header| ==> !t.rows[i][j].VFloat?) ==>
      |RowLines(t.rows, ws, fmt).value[i]| == Sum(ws) + 3 * |ws| + 1
  {
    forall i | 0 <= i < |t.rows| && (forall j :: 0 <= j < |t.header| ==> !t.rows[i][j].VFloat?)
      ensures |RowLines(t.rows, ws, fmt).value[i]| == Sum(ws) + 3 * |ws| + 1
    {
      RowLineLength(t.rows[i], ws, fmt);
    }
  }

  /** The fit test counts two frame characters per column where a line has
      three: a single column `abcde` on an 8-column terminal keeps its
      natural width 5, and the header line is 9 characters long. */
  lemma FitTestUndercounts(fmt: FloatFormat)
    ensures Rendered(Table(["abcde"], []), fmt, 8) == Ok(["| abcde |", "|-------|"])
  {
    var t := Table(["abcde"], []);
    assert NaturalWidths(t, fmt) == [5];
    assert Sum([5]) == 5;
    assert ColumnWidths([5], 8) == Ok([5]);
    assert HeaderCells(["abcde"], [5]) == ["abcde"];
    assert Join(" | ", ["abcde"]) == "abcde";
    assert Repeat('-', 5) == "-----";
    assert Dashes([5]) == ["-----"];
    assert Join("-|-", ["-----"]) == "-----";
    assert RowLines(t.rows, [5], fmt) == Ok([]);
    assert Framed(HeaderCells(["abcde"], [5])) == "| abcde |";
    assert Separator([5]) == "|-------|";
    assert Rendered(t, fmt, 8) == Ok([Framed(HeaderCells(["abcde"], [5])), Separator([5])] + []);
    assert [Framed(HeaderCells(["abcde"], [5])), Separator([5])] + [] == ["| abcde |", "|-------|"];
  }
}
