/** Writing the table to a file (report_hls.py:307-332): the format follows
    the output path's suffix; `.json` dumps the records themselves, `.csv`,
    `.tsv`, `.md` and `.html` write the table line by line, and any other
    suffix is an error. */
module Export {
  import opened Results
  import opened Text
  import opened Values
  import opened Tables
  import opened Annotate
  import opened Render

  // ---------------------------------------------------------------------
  // The suffix

  /** `Path(path).suffix`: the name from its last `.`, when that dot is
      neither its first nor its last character; otherwise empty. */
  function Suffix(path: string): (ext: string)
    ensures ext == "" || (|ext| >= 2 && ext[0] == '.')
    ensures forall j :: 1 <= j < |ext| ==> ext[j] != '.' && ext[j] != '/'
  {
    var name := PathName(path);
    match LastIndex(name, '.')
    case None => ""
    case Some(i) => if 0 < i < |name| - 1 then name[i..] else ""
  }

  lemma NameSuffix(base: string, e: string)
    requires base != "" && e != ""
    requires forall j :: 0 <= j < |base| ==> base[j] != '/'
    requires forall j :: 0 <= j < |e| ==> e[j] != '/' && e[j] != '.'
    ensures LastIndex(base + "." + e, '.') == Some(|base|)
  {
    var front := base + ".";
    assert front[|front| - 1] == '.';
    LastIndexAfter(front, e, '.');
  }

  /** A file name `base.e` is its own `Path.name` and has suffix `.e`. */
  lemma SuffixOfName(name: string, base: string, e: string)
    requires name == base + "." + e
    requires base != "" && e != ""
    requires forall j :: 0 <= j < |base| ==> base[j] != '/'
    requires forall j :: 0 <= j < |e| ==> e[j] != '/' && e[j] != '.'
    ensures PathName(name) == name
    ensures Suffix(name) == "." + e
  {
    NameSuffix(base, e);
    assert name[|base|..] == "." + e;
    forall j | 0 <= j < |name|
      ensures name[j] != '/'
    {
      if j < |base| {
        assert name[j] == base[j];
      } else if j > |base| {
        assert name[j] == e[j - |base| - 1];
      }
    }
    assert LastIndex(name, '/') == None;
  }

  /** A file `base.e` has the suffix `.e`, whether or not a directory is
      named before it; `base` may itself hold dots. */
  lemma SuffixOfFile(dir: string, base: string, e: string)
    requires base != "" && e != ""
    requires forall j :: 0 <= j < |base| ==> base[j] != '/'
    requires forall j :: 0 <= j < |e| ==> e[j] != '/' && e[j] != '.'
    ensures Suffix(base + "." + e) == "." + e
    ensures Suffix(dir + "/" + base + "." + e) == "." + e
  {
    var name := base + "." + e;
    SuffixOfName(name, base, e);
    PathNameOfChild(dir, name);
    assert dir + "/" + base + "." + e == dir + "/" + name;
    assert Suffix(dir + "/" + name) == Suffix(name);
  }

  /** A name whose only dot comes first, like `.csv`, has no suffix. */
  lemma HiddenFileHasNoSuffix()
    ensures Suffix(".csv") == ""
  {
    assert LastIndex(".csv", '/') == None;
    LastIndexAfter(".", "csv", '.');
    assert "." + "csv" == ".csv";
  }

  // ---------------------------------------------------------------------
  // The formats

  datatype Format = Json | Csv | Tsv | Markdown | Html

  function FormatOf(ext: string): Result<Format> {
    if ext == ".json" then Ok(Json)
    else if ext == ".tsv" then Ok(Tsv)
    else if ext == ".csv" then Ok(Csv)
    else if ext == ".md" then Ok(Markdown)
    else if ext == ".html" then Ok(Html)
    else Err(UnsupportedFormat(ext))
  }

  /** The text of every entry: the header's names, then `str` of each cell. */
  function TextRows(t: Table, showFloat: real -> string): (rows: seq<seq<string>>)
    ensures |rows| == |t.rows| + 1 && rows[0] == t.header
    ensures forall i :: 0 <= i < |t.rows| ==> |rows[i + 1]| == |t.rows[i]|
    ensures forall i, j :: 0 <= i < |t.rows| && 0 <= j < |t.rows[i]| ==> rows[i + 1][j] == Show(t.rows[i][j], showFloat)
  {
    [t.header] + seq(|t.rows|, i requires 0 <= i < |t.rows| =>
                       seq(|t.rows[i]|, j requires 0 <= j < |t.rows[i]| => Show(t.rows[i][j], showFloat)))
  }

  /** A CSV field: quoted when it holds a comma, with no escaping. */
  function CsvField(s: string): string {
    if ',' in s then "\"" + s + "\"" else s
  }

  function CsvFields(cells: seq<string>): (fields: seq<string>)
    ensures |fields| == |cells|
    ensures forall j :: 0 <= j < |cells| ==> fields[j] == CsvField(cells[j])
  {
    seq(|cells|, j requires 0 <= j < |cells| => CsvField(cells[j]))
  }

  /** A line of CSV or TSV. */
  function DelimitedLine(f: Format, cells: seq<string>): string
    requires f == Csv || f == Tsv
  {
    if f == Csv then Join(",", CsvFields(cells)) else Join("\t", cells)
  }

  function Tagged(open: string, close: string, cells: seq<string>): string {
    if cells == [] then "" else open + cells[0] + close + Tagged(open, close, cells[1..])
  }

  /** The lines written for one of the table formats, each to be followed
      by a newline. */
  function Lines(f: Format, rows: seq<seq<string>>): (lines: seq<string>)
    requires f != Json && rows != []
  {
    match f
    case Csv => seq(|rows|, i requires 0 <= i < |rows| => DelimitedLine(f, rows[i]))
    case Tsv => seq(|rows|, i requires 0 <= i < |rows| => DelimitedLine(f, rows[i]))
    case Markdown =>
      [Framed(rows[0]), "|" + Join("|", seq(|rows[0]|, _ => "---")) + "|"]
      + seq(|rows| - 1, i requires 0 <= i < |rows| - 1 => Framed(rows[i + 1]))
    case Html =>
      ["<table>", "  <tr>" + Tagged("<th>", "</th>", rows[0]) + "</tr>"]
      + seq(|rows| - 1, i requires 0 <= i < |rows| - 1 => "  <tr>" + Tagged("<td>", "</td>", rows[i + 1]) + "</tr>")
      + ["</table>"]
  }

  /** What ends up in the output file. */
  datatype Written = RecordsAsJson | Text(text: string)

  /** The export: fails on an unknown suffix; a `.json` file receives the
      records (their serialisation is not modelled); the other formats
      receive the table's lines, each ended by a newline. */
  function Exported(t: Table, path: string, showFloat: real -> string): Result<Written> {
    var f :- FormatOf(Suffix(path));
    if f == Json then Ok(RecordsAsJson)
    else Ok(Text(Terminated(Lines(f, TextRows(t, showFloat)))))
  }

  lemma {:induction false} TerminatedAppend(lines: seq<string>, line: string)
    ensures Terminated(lines + [line]) == Terminated(lines) + line + "\n"
  {
    if lines != [] {
      assert (lines + [line])[1..] == lines[1..] + [line];
      TerminatedAppend(lines[1..], line);
    } else {
      assert [] + [line] == [line];
    }
  }

  /** `f.write(line + '\n')` for each line in turn. */
  method WriteLines(lines: seq<string>) returns (out: string)
    ensures out == Terminated(lines)
  {
    out := "";
    var k := 0;
    while k < |lines|
      invariant 0 <= k <= |lines|
      invariant out == Terminated(lines[..k])
    {
      TerminatedAppend(lines[..k], lines[k]);
      assert lines[..k + 1] == lines[..k] + [lines[k]];
      out := out + lines[k] + "\n";
      k := k + 1;
    }
    assert lines[..k] == lines;
  }

  /** Writes the file, as the export does. */
  method WriteTable(t: Table, path: string, showFloat: real -> string) returns (r: Result<Written>)
    ensures r == Exported(t, path, showFloat)
  {
    var ext := Suffix(path);
    var format := FormatOf(ext);
    if format.Err? {
      return Err(format.error);
    }
    var f := format.value;
    if f == Json {
      return Ok(RecordsAsJson);
    }
    var out := WriteLines(Lines(f, TextRows(t, showFloat)));
    r := Ok(Text(out));
  }

  // ---------------------------------------------------------------------
  // Properties of the written text

  /** The export fails exactly on a suffix other than the five known ones,
      and names that suffix. */
  lemma ExportedFailsOnUnknownSuffix(t: Table, path: string, showFloat: real -> string)
    ensures Exported(t, path, showFloat).Err? <==> Suffix(path) !in {".json", ".tsv", ".csv", ".md", ".html"}
    ensures Exported(t, path, showFloat).Err? ==> Exported(t, path, showFloat).error == UnsupportedFormat(Suffix(path))
    ensures Exported(t, path, showFloat) == Ok(RecordsAsJson) <==> Suffix(path) == ".json"
  {}

  predicate FreeOf(rows: seq<seq<string>>, c: char) {
    forall i, j, k :: 0 <= i < |rows| && 0 <= j < |rows[i]| && 0 <= k < |rows[i][j]| ==> rows[i][j][k] != c
  }

  /** The CSV and TSV writers lose nothing: when no entry holds a newline
      or the separator, splitting the text at newlines gives one line per
      table row (header first) and an empty remainder, and splitting each
      line at the separator gives that row's entries back. */
  lemma DelimitedRoundTrip(t: Table, f: Format, showFloat: real -> string)
    requires f == Csv || f == Tsv
    requires Rectangular(t) && t.header != []
    requires var sep := if f == Csv then ',' else '\t';
      FreeOf(TextRows(t, showFloat), '\n') && FreeOf(TextRows(t, showFloat), sep)
    ensures var rows := TextRows(t, showFloat);
      var sep := if f == Csv then ',' else '\t';
      var lines := SplitOn(Terminated(Lines(f, rows)), '\n');
      && |lines| == |rows| + 1
      && lines[|rows|] == ""
      && forall i :: 0 <= i < |rows| ==> SplitOn(lines[i], sep) == rows[i]
  {
    var rows := TextRows(t, showFloat);
    var sep := if f == Csv then ',' else '\t';
    var ls := Lines(f, rows);
    forall i, k | 0 <= i < |ls| && 0 <= k < |ls[i]|
      ensures ls[i][k] != '\n'
    {
      RowFieldsFree(rows[i], f, '\n');
      JoinFree(if f == Csv then "," else "\t", if f == Csv then CsvFields(rows[i]) else rows[i], '\n');
    }
    SplitTerminated(ls);
    assert SplitOn(Terminated(ls), '\n') == ls + [""];
    forall i | 0 <= i < |rows|
      ensures SplitOn(ls[i], sep) == rows[i]
    {
      assert |rows[i]| == |t.header| by {
        if i > 0 {
          assert |rows[i]| == |t.rows[i - 1]|;
        }
      }
      if f == Csv {
        assert CsvFields(rows[i]) == rows[i];
        assert Join(",", rows[i]) == Join([','], rows[i]);
      } else {
        assert Join("\t", rows[i]) == Join(['\t'], rows[i]);
      }
      SplitOnJoin(rows[i], sep);
    }
  }

  lemma RowFieldsFree(cells: seq<string>, f: Format, c: char)
    requires f == Csv || f == Tsv
    requires c != '"'
    requires forall j, k :: 0 <= j < |cells| && 0 <= k < |cells[j]| ==> cells[j][k] != c
    ensures forall j, k :: 0 <= j < |cells| && 0 <= k < |CsvFields(cells)[j]| ==> CsvFields(cells)[j][k] != c
  {
    forall j, k | 0 <= j < |cells| && 0 <= k < |CsvFields(cells)[j]|
      ensures CsvFields(cells)[j][k] != c
    {
      if ',' in cells[j] && 0 < k <= |cells[j]| {
        assert CsvFields(cells)[j][k] == cells[j][k - 1];
      }
    }
  }

  lemma {:induction false} JoinFree(sep: string, parts: seq<string>, c: char)
    requires forall k :: 0 <= k < |sep| ==> sep[k] != c
    requires forall j, k :: 0 <= j < |parts| && 0 <= k < |parts[j]| ==> parts[j][k] != c
    ensures forall k :: 0 <= k < |Join(sep, parts)| ==> Join(sep, parts)[k] != c
  {
    if |parts| > 1 {
      JoinFree(sep, parts[1..], c);
      var rest := Join(sep, parts[1..]);
      var s := parts[0] + sep + rest;
      forall k | 0 <= k < |s|
        ensures s[k] != c
      {
        if k < |parts[0]| {
          assert s[k] == parts[0][k];
        } else if k < |parts[0]| + |sep| {
          assert s[k] == sep[k - |parts[0]|];
        } else {
          assert s[k] == rest[k - |parts[0]| - |sep|];
        }
      }
    }
  }

  /** A field holding a comma is wrapped in quotes, any other is written as
      it is. */
  lemma CsvQuoting(s: string)
    ensures CsvField(s) == s <==> ',' !in s
    ensures ',' in s ==> (&& |CsvField(s)| == |s| + 2
                          && CsvField(s)[0] == '"' && CsvField(s)[|s| + 1] == '"'
                          && CsvField(s)[1..|s| + 1] == s)
  {}

  /** With quotes left unescaped, two different rows can give the same CSV
      line: the two entries `"a` and `b"` and the single entry `a,b`. */
  lemma CsvAmbiguous()
    ensures DelimitedLine(Csv, ["\"a", "b\""]) == DelimitedLine(Csv, ["a,b"])
  {
    assert CsvFields(["\"a", "b\""]) == ["\"a", "b\""];
    assert "a,b"[1] == ',';
    assert CsvField("a,b") == "\"a,b\"";
    assert CsvFields(["a,b"]) == ["\"a,b\""];
  }

  /** Every Markdown line has one `|` more than the table has columns, as
      long as no entry holds a `|`; splitting the header line or a row's
      line at its pipes gives back that row's entries, each with a space on
      either side. */
  lemma MarkdownPipes(t: Table, showFloat: real -> string)
    requires Rectangular(t) && t.header != []
    requires FreeOf(TextRows(t, showFloat), '|')
    ensures var lines := Lines(Markdown, TextRows(t, showFloat));
      && |lines| == |t.rows| + 2
      && (forall i :: 0 <= i < |lines| ==> Count(lines[i], '|') == |t.header| + 1)
      && SplitOn(lines[0], '|') == [""] + Padded(t.header) + [""]
      && forall i :: 2 <= i < |lines| ==> SplitOn(lines[i], '|') == [""] + Padded(TextRows(t, showFloat)[i - 1]) + [""]
  {
    var rows := TextRows(t, showFloat);
    forall i | 0 <= i < |rows|
      ensures |rows[i]| == |t.header|
    {
      if i > 0 {
        assert |rows[i]| == |t.rows[i - 1]|;
      }
    }
    MarkdownLinePipes(rows, |t.header|);
  }

  /** Every Markdown line of rows of `n` cells free of `|` has `n + 1`
      pipes, and the header line and each row's line split at the pipes
      into that row's cells, padded by a space on either side. */
  lemma MarkdownLinePipes(rows: seq<seq<string>>, n: nat)
    requires rows != [] && n > 0
    requires forall i :: 0 <= i < |rows| ==> |rows[i]| == n
    requires FreeOf(rows, '|')
    ensures var lines := Lines(Markdown, rows);
      && |lines| == |rows| + 1
      && (forall i :: 0 <= i < |lines| ==> Count(lines[i], '|') == n + 1)
      && SplitOn(lines[0], '|') == [""] + Padded(rows[0]) + [""]
      && forall i :: 2 <= i < |lines| ==> SplitOn(lines[i], '|') == [""] + Padded(rows[i - 1]) + [""]
  {
    var lines := Lines(Markdown, rows);
    forall i | 0 <= i < |rows|
      ensures Count(Framed(rows[i]), '|') == n + 1
      ensures SplitOn(Framed(rows[i]), '|') == [""] + Padded(rows[i]) + [""]
    {
      FramedPipes(rows[i]);
      FramedSplit(rows[i]);
    }
    RulePipes(n);
    forall i | 0 <= i < |lines|
      ensures Count(lines[i], '|') == n + 1
    {
      if i >= 2 {
        assert lines[i] == Framed(rows[i - 1]);
      }
    }
    forall i | 2 <= i < |lines|
      ensures SplitOn(lines[i], '|') == [""] + Padded(rows[i - 1]) + [""]
    {
      assert lines[i] == Framed(rows[i - 1]);
    }
  }

  /** Each entry as it stands between two pipes: a space on either side. */
  function Padded(cells: seq<string>): (r: seq<string>)
    ensures |r| == |cells|
    ensures forall j :: 0 <= j < |cells| ==> r[j] == " " + cells[j] + " "
  {
    seq(|cells|, j requires 0 <= j < |cells| => " " + cells[j] + " ")
  }

  lemma {:induction false} PaddedSplit(cells: seq<string>)
    requires cells != []
    requires forall j, k :: 0 <= j < |cells| && 0 <= k < |cells[j]| ==> cells[j][k] != '|'
    ensures SplitOn(" " + Join(" | ", cells) + " |", '|') == Padded(cells) + [""]
  {
    var p := " " + cells[0] + " ";
    assert forall k :: 0 <= k < |p| ==> p[k] != '|' by {
      forall k | 0 <= k < |p|
        ensures p[k] != '|'
      {
        if 0 < k <= |cells[0]| {
          assert p[k] == cells[0][k - 1];
        }
      }
    }
    if |cells| == 1 {
      assert " " + Join(" | ", cells) + " |" == p + (['|'] + "");
      SplitOnPiece(p, "", '|');
      assert Padded(cells) == [p];
    } else {
      var rest := cells[1..];
      var y := " " + Join(" | ", rest) + " |";
      assert " " + Join(" | ", cells) + " |" == p + (['|'] + y);
      PaddedSplit(rest);
      SplitOnPiece(p, y, '|');
      assert Padded(cells) == [p] + Padded(rest);
    }
  }

  /** Splitting a framed line at its pipes gives its entries back, padded,
      between two empty ends. */
  lemma FramedSplit(cells: seq<string>)
    requires cells != []
    requires forall j, k :: 0 <= j < |cells| && 0 <= k < |cells[j]| ==> cells[j][k] != '|'
    ensures SplitOn(Framed(cells), '|') == [""] + Padded(cells) + [""]
  {
    var x := " " + Join(" | ", cells) + " |";
    assert Framed(cells) == ['|'] + x;
    SplitOnLead(x, '|');
    PaddedSplit(cells);
  }

  /** The `|---|---|` rule has one `|` more than it has columns. */
  lemma RulePipes(n: nat)
    requires n > 0
    ensures Count("|" + Join("|", seq(n, _ => "---")) + "|", '|') == n + 1
  {
    var dashes := seq(n, _ => "---");
    assert Count("|", '|') == 1;
    forall j, k | 0 <= j < |dashes| && 0 <= k < |dashes[j]|
      ensures dashes[j][k] != '|'
    {
      assert dashes[j] == "---";
    }
    CountJoin("|", dashes, '|');
    CountAppend("|", Join("|", dashes), '|');
    CountAppend("|" + Join("|", dashes), "|", '|');
  }

  lemma FramedPipes(cells: seq<string>)
    requires cells != []
    requires forall j, k :: 0 <= j < |cells| && 0 <= k < |cells[j]| ==> cells[j][k] != '|'
    ensures Count(Framed(cells), '|') == |cells| + 1
  {
    assert Count(" | ", '|') == 1;
    assert Count("| ", '|') == 1;
    assert Count(" |", '|') == 1;
    CountJoin(" | ", cells, '|');
    CountAppend("| ", Join(" | ", cells), '|');
    CountAppend("| " + Join(" | ", cells), " |", '|');
  }

  /** The HTML text opens and closes the table on lines of their own, with
      one `<tr>` line for the header and one for each row between them.
      When no entry holds a `<`, splitting a `<tr>` line at `<` gives back
      its entries, each after its `th>` or `td>`, in order. */
  lemma HtmlShape(t: Table, showFloat: real -> string)
    ensures var lines := Lines(Html, TextRows(t, showFloat));
      && |lines| == |t.rows| + 3
      && lines[0] == "<table>" && lines[|lines| - 1] == "</table>"
      && (forall i :: 1 <= i < |lines| - 1 ==> StartsWith(lines[i], "  <tr>"))
      && (FreeOf(TextRows(t, showFloat), '<') ==>
            && SplitOn(lines[1], '<') == ["  ", "tr>"] + TagPieces("th", t.header) + ["/tr>"]
            && forall i :: 2 <= i < |lines| - 1 ==>
                 SplitOn(lines[i], '<') == ["  ", "tr>"] + TagPieces("td", TextRows(t, showFloat)[i - 1]) + ["/tr>"])
  {
    var rows := TextRows(t, showFloat);
    HtmlLinesOpen(rows);
    if FreeOf(rows, '<') {
      HtmlLinesSplit(rows);
    }
  }

  /** Every line between `<table>` and `</table>` opens a row. */
  lemma HtmlLinesOpen(rows: seq<seq<string>>)
    requires rows != []
    ensures var lines := Lines(Html, rows);
      forall i :: 1 <= i < |lines| - 1 ==> StartsWith(lines[i], "  <tr>")
  {
    var lines := Lines(Html, rows);
    forall i | 1 <= i < |lines| - 1
      ensures StartsWith(lines[i], "  <tr>")
    {
      assert lines[i][..6] == "  <tr>";
    }
  }

  /** Split at `<`, the header line gives the `th` pieces of the header and
      every later row line the `td` pieces of its row. */
  lemma HtmlLinesSplit(rows: seq<seq<string>>)
    requires rows != [] && FreeOf(rows, '<')
    ensures var lines := Lines(Html, rows);
      && SplitOn(lines[1], '<') == ["  ", "tr>"] + TagPieces("th", rows[0]) + ["/tr>"]
      && forall i :: 2 <= i < |lines| - 1 ==>
           SplitOn(lines[i], '<') == ["  ", "tr>"] + TagPieces("td", rows[i - 1]) + ["/tr>"]
  {
    var lines := Lines(Html, rows);
    TagNames();
    HtmlRowSplit("th", rows[0]);
    forall i | 2 <= i < |lines| - 1
      ensures SplitOn(lines[i], '<') == ["  ", "tr>"] + TagPieces("td", rows[i - 1]) + ["/tr>"]
    {
      assert lines[i] == "  <tr>" + Tagged("<td>", "</td>", rows[i - 1]) + "</tr>";
      HtmlRowSplit("td", rows[i - 1]);
    }
  }

  lemma TagNames()
    ensures "<" + "th" + ">" == "<th>" && "</" + "th" + ">" == "</th>"
    ensures "<" + "td" + ">" == "<td>" && "</" + "td" + ">" == "</td>"
  {
  }

  /** The pieces a run of `<name>entry</name>` splits into at `<`: for each
      entry, `name>` and the entry, then `/name>`. */
  function TagPieces(name: string, cells: seq<string>): (r: seq<string>)
    ensures |r| == 2 * |cells|
    ensures forall j :: 0 <= j < |cells| ==> r[2 * j] == name + ">" + cells[j] && r[2 * j + 1] == "/" + name + ">"
  {
    if cells == [] then []
    else
      var rest := TagPieces(name, cells[1..]);
      assert forall j :: 1 <= j < |cells| ==> cells[j] == cells[1..][j - 1];
      [name + ">" + cells[0], "/" + name + ">"] + rest
  }

  /** One tagged entry, seen as the two pieces it gives at `<`; neither
      piece holds a `<`. */
  lemma TaggedEntry(name: string, cell: string, r: string)
    requires '<' !in name && '<' !in cell
    ensures ("<" + name + ">") + cell + ("</" + name + ">") + r
         == ['<'] + ((name + ">" + cell) + (['<'] + (("/" + name + ">") + r)))
    ensures '<' !in name + ">" + cell && '<' !in "/" + name + ">"
  {
    var a := name + ">" + cell;
    var b := "/" + name + ">";
    assert "<" + name + ">" + cell == ['<'] + a;
    assert "</" + name + ">" == ['<'] + b;
  }

  lemma Regroup<T>(x: T, a: T, b: T, rest: seq<T>, more: seq<T>)
    ensures [x, a, b] + (rest + more) == [x] + ([a, b] + rest) + more
  {
    assert [x] + ([a, b] + rest) == [x, a, b] + rest;
  }

  lemma {:induction false} TaggedSplit(name: string, cells: seq<string>, tail: string)
    requires '<' !in name
    requires forall j, k :: 0 <= j < |cells| && 0 <= k < |cells[j]| ==> cells[j][k] != '<'
    requires tail == [] || tail[0] == '<'
    ensures SplitOn(Tagged("<" + name + ">", "</" + name + ">", cells) + tail, '<')
         == [""] + TagPieces(name, cells) + SplitOn(tail, '<')[1..]
  {
    if cells == [] {
      assert Tagged("<" + name + ">", "</" + name + ">", cells) + tail == tail;
      assert TagPieces(name, cells) == [];
      if tail == [] {
        assert SplitOn(tail, '<') == [""];
      } else {
        assert tail == ['<'] + tail[1..];
        SplitOnLead(tail[1..], '<');
      }
    } else {
      TaggedSplit(name, cells[1..], tail);
      assert '<' !in cells[0] by {
        forall k | 0 <= k < |cells[0]| ensures cells[0][k] != '<' { }
      }
      TaggedSplitStep(name, cells, tail, SplitOn(tail, '<')[1..]);
    }
  }

  /** The step of `TaggedSplit`: one more entry in front adds its two pieces. */
  lemma TaggedSplitStep(name: string, cells: seq<string>, tail: string, more: seq<string>)
    requires cells != [] && '<' !in name && '<' !in cells[0]
    requires SplitOn(Tagged("<" + name + ">", "</" + name + ">", cells[1..]) + tail, '<')
          == [""] + TagPieces(name, cells[1..]) + more
    ensures SplitOn(Tagged("<" + name + ">", "</" + name + ">", cells) + tail, '<')
         == [""] + TagPieces(name, cells) + more
  {
    var open := "<" + name + ">";
    var close := "</" + name + ">";
    var r := Tagged(open, close, cells[1..]) + tail;
    var rest := TagPieces(name, cells[1..]);
    var a := name + ">" + cells[0];
    var b := "/" + name + ">";
    TaggedEntry(name, cells[0], r);
    var whole := Tagged(open, close, cells) + tail;
    assert whole == open + cells[0] + close + r;
    assert whole == ['<'] + (a + (['<'] + (b + r)));
    TwoPiecesInFront(a, b, r, rest, more);
    assert TagPieces(name, cells) == [a, b] + rest;
  }

  /** Two `<`-free pieces, each after a `<`, in front of a text whose split
      starts with an empty piece. */
  lemma TwoPiecesInFront(a: string, b: string, r: string, rest: seq<string>, more: seq<string>)
    requires '<' !in a && '<' !in b
    requires SplitOn(r, '<') == [""] + rest + more
    ensures SplitOn(['<'] + (a + (['<'] + (b + r))), '<') == [""] + ([a, b] + rest) + more
  {
    SplitOnTwoPieces(a, b, r, '<');
    assert SplitOn(r, '<')[1..] == rest + more;
    Regroup("", a, b, rest, more);
  }

  /** A `<tr>` line split at `<`. */
  lemma HtmlRowSplit(name: string, cells: seq<string>)
    requires '<' !in name
    requires forall j, k :: 0 <= j < |cells| && 0 <= k < |cells[j]| ==> cells[j][k] != '<'
    ensures SplitOn("  <tr>" + Tagged("<" + name + ">", "</" + name + ">", cells) + "</tr>", '<')
         == ["  ", "tr>"] + TagPieces(name, cells) + ["/tr>"]
  {
    var tg := Tagged("<" + name + ">", "</" + name + ">", cells);
    var pieces := TagPieces(name, cells);
    TaggedSplit(name, cells, "</tr>");
    EndTagSplit();
    Grouped([""], pieces, ["/tr>"]);
    Grouped("  <tr>", tg, "</tr>");
    RowOpenSplit(tg + "</tr>", pieces + ["/tr>"]);
    Grouped(["  ", "tr>"], pieces, ["/tr>"]);
  }

  lemma Grouped<T>(x: seq<T>, y: seq<T>, z: seq<T>)
    ensures x + y + z == x + (y + z)
  {
  }

  /** `</tr>` splits at `<` into an empty piece and `/tr>`. */
  lemma EndTagSplit()
    ensures SplitOn("</tr>", '<') == ["", "/tr>"]
  {
    assert "</tr>" == ['<'] + "/tr>";
    SplitOnLead("/tr>", '<');
    SplitOnFree("/tr>", '<');
  }

  /** The indent and `<tr>` in front of a text whose split starts with an
      empty piece. */
  lemma RowOpenSplit(u: string, pieces: seq<string>)
    requires SplitOn(u, '<') == [""] + pieces
    ensures SplitOn("  <tr>" + u, '<') == ["  ", "tr>"] + pieces
  {
    var v := "tr>" + u;
    SplitOnPrefix("tr>", u, '<');
    assert "tr>" + "" == "tr>";
    assert SplitOn(v, '<') == ["tr>"] + pieces;
    SplitOnPiece("  ", v, '<');
    assert "  <tr>" + u == "  " + (['<'] + v);
  }
}
