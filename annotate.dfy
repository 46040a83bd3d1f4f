/** `extra_info_from_fname` (report_hls.py:141-163): the `key=value`
    settings written into a build directory's name, and `Path(p).name`,
    which picks that name out of a command-line path. */
module Annotate {
  import opened Results
  import opened Text
  import opened Values

  // ---------------------------------------------------------------------
  // Splitting the name

  /** Position `i` holds a hyphen the name is split at: one that does not
      follow an `e` (an exponent such as `1e-3`) or an `=` (a negative value
      such as `x=-1`), and is not followed by a digit. */
  predicate IsCut(s: string, i: nat)
    requires i < |s|
  {
    && s[i] == '-'
    && (i == 0 || (s[i - 1] != 'e' && s[i - 1] != '='))
    && (i + 1 == |s| || !IsDigit(s[i + 1]))
  }

  /** The first cut at or after `i`, or `|s|` if there is none. */
  function NextCut(s: string, i: nat): (c: nat)
    requires i <= |s|
    ensures i <= c <= |s|
    ensures c < |s| ==> IsCut(s, c)
    ensures forall j :: i <= j < c ==> !IsCut(s, j)
    decreases |s| - i
  {
    if i == |s| then i
    else if IsCut(s, i) then i
    else NextCut(s, i + 1)
  }

  /** The first cut at or after `i` is the next cut the scan meets. */
  lemma {:induction false} NextCutIs(s: string, i: nat, c: nat)
    requires i <= c <= |s|
    requires c < |s| ==> IsCut(s, c)
    requires forall j :: i <= j < c ==> !IsCut(s, j)
    ensures NextCut(s, i) == c
    decreases c - i
  {
    if i < c {
      NextCutIs(s, i + 1, c);
    }
  }

  /** The pieces of `s` between its cuts, as `re.split` returns them. */
  function Split(s: string): (parts: seq<string>)
    ensures |parts| >= 1
    decreases |s|
  {
    var c := NextCut(s, 0);
    if c == |s| then [s] else [s[..c]] + Split(s[c + 1..])
  }

  /** A piece of `s` that ends before a cut has the same cuts as `s` there:
      the character after it is a hyphen, not a digit. */
  lemma CutsOfPrefix(s: string, c: nat, i: nat)
    requires c <= |s| && i < c
    requires c < |s| ==> s[c] == '-'
    ensures IsCut(s[..c], i) <==> IsCut(s, i)
  {
  }

  /** A hyphen that ends a piece leaves the next piece's cuts where they
      were in `s`. */
  lemma CutsOfSuffix(s: string, c: nat, j: nat)
    requires c < |s| && IsCut(s, c) && c + 1 + j < |s|
    ensures IsCut(s[c + 1..], j) <==> IsCut(s, c + 1 + j)
  {
  }

  /** Joining the pieces with hyphens gives the name back. */
  lemma {:induction false} SplitJoin(s: string)
    ensures Join("-", Split(s)) == s
    decreases |s|
  {
    var c := NextCut(s, 0);
    if c < |s| {
      SplitJoin(s[c + 1..]);
      assert Split(s) == [s[..c]] + Split(s[c + 1..]);
      assert s == s[..c] + "-" + s[c + 1..];
    }
  }

  /** No piece holds a cut of its own, and every hyphen between two pieces
      is a cut of the name: the split is exactly at the cuts. */
  lemma {:induction false} SplitPiecesUncut(s: string)
    ensures forall p, i :: p in Split(s) && 0 <= i < |p| ==> !IsCut(p, i)
    ensures forall k :: 1 <= k < |Split(s)| ==>
      |Join("-", Split(s)[..k])| < |s| && IsCut(s, |Join("-", Split(s)[..k])|)
    decreases |s|
  {
    SplitSeparatorsAreCuts(s);
    var c := NextCut(s, 0);
    forall i | 0 <= i < c
      ensures !IsCut(s[..c], i)
    {
      CutsOfPrefix(s, c, i);
    }
    if c < |s| {
      SplitPiecesUncut(s[c + 1..]);
      assert Split(s) == [s[..c]] + Split(s[c + 1..]);
    } else {
      assert s[..c] == s;
    }
  }

  /** Every hyphen between two pieces is a cut: the split is no finer than
      the rule allows. Together with `SplitJoin` and `SplitPiecesUncut`
      this pins the pieces down. */
  lemma {:induction false} SplitSeparatorsAreCuts(s: string)
    ensures forall k :: 1 <= k < |Split(s)| ==>
      |Join("-", Split(s)[..k])| < |s| && IsCut(s, |Join("-", Split(s)[..k])|)
    decreases |s|
  {
    var parts := Split(s);
    var c := NextCut(s, 0);
    if c < |s| {
      var t := s[c + 1..];
      var rest := Split(t);
      assert parts == [s[..c]] + rest;
      SplitSeparatorsAreCuts(t);
      forall k | 1 <= k < |parts|
        ensures |Join("-", parts[..k])| < |s| && IsCut(s, |Join("-", parts[..k])|)
      {
        if k == 1 {
          assert parts[..1] == [s[..c]];
        } else {
          assert parts[..k][1..] == rest[..k - 1];
          var o := |Join("-", rest[..k - 1])|;
          assert |Join("-", parts[..k])| == c + 1 + o;
          CutsOfSuffix(s, c, o);
        }
      }
    }
  }

  // ---------------------------------------------------------------------
  // Reading one setting

  /** The key of a `key=value` piece: the text before its first `=`. */
  function KeyOf(p: string): string {
    Before(p, '=')
  }

  /** The value of a `key=value` piece: the text after its first `=`. */
  function ValueOf(p: string): string
    requires '=' in p
  {
    p[FindAny(p, {'='}) + 1..]
  }

  /** A value with a `.` becomes a float if `float()` reads it, any other
      value an integer if `int()` reads it; what neither reads stays text. */
  function CoerceToken(v: string): (r: Value)
    ensures '.' in v ==> (r.VFloat? <==> ParseFloat(v).Some?) && !r.VInt?
    ensures '.' !in v ==> (r.VInt? <==> ParseInt(v).Some?) && !r.VFloat?
    ensures r.VFloat? ==> ParseFloat(v) == Some(r.x)
    ensures r.VInt? ==> ParseInt(v) == Some(r.i)
    ensures r.VStr? ==> r.s == v
  {
    if '.' in v then
      match ParseFloat(v)
      case Some(x) => VFloat(x)
      case None => VStr(v)
    else
      match ParseInt(v)
      case Some(n) => VInt(n)
      case None => VStr(v)
  }

  /** What the loop has collected after reading `parts` in order: pieces
      without `=` are skipped and a later key overwrites an earlier one. */
  function InfoOf(parts: seq<string>): Record {
    if parts == [] then map[]
    else
      var d := InfoOf(parts[..|parts| - 1]);
      var p := parts[|parts| - 1];
      if '=' in p then d[KeyOf(p) := CoerceToken(ValueOf(p))] else d
  }

  /** `extra_info_from_fname(fname)`. */
  function NameInfo(fname: string): Record {
    InfoOf(Split(fname))
  }

  /** `extra_info_from_fname`, filling its dict one piece at a time. */
  method ExtraInfoFromName(fname: string) returns (d: Record)
    ensures d == NameInfo(fname)
  {
    var parts := Split(fname);
    d := map[];
    var i := 0;
    while i < |parts|
      invariant 0 <= i <= |parts|
      invariant d == InfoOf(parts[..i])
    {
      var part := parts[i];
      assert parts[..i + 1][..i] == parts[..i];
      i := i + 1;
      if '=' !in part {
        continue;
      }
      var k, v := KeyOf(part), ValueOf(part);
      if '.' in v {
        var x := ParseFloat(v);
        if x.Some? {
          d := d[k := VFloat(x.value)];
          continue;
        }
      } else {
        var n := ParseInt(v);
        if n.Some? {
          d := d[k := VInt(n.value)];
          continue;
        }
      }
      d := d[k := VStr(v)];
    }
    assert parts[..i] == parts;
  }

  /** The keys are exactly the keys of the pieces that hold an `=`. */
  lemma {:induction false} InfoKeys(parts: seq<string>)
    ensures forall k :: k in InfoOf(parts) <==>
      exists i :: 0 <= i < |parts| && '=' in parts[i] && KeyOf(parts[i]) == k
  {
    if parts != [] {
      var front := parts[..|parts| - 1];
      InfoKeys(front);
      forall k | k in InfoOf(parts)
        ensures exists i :: 0 <= i < |parts| && '=' in parts[i] && KeyOf(parts[i]) == k
      {
        if k in InfoOf(front) {
          var i :| 0 <= i < |front| && '=' in front[i] && KeyOf(front[i]) == k;
          assert parts[i] == front[i];
        }
      }
      forall k | exists i :: 0 <= i < |parts| && '=' in parts[i] && KeyOf(parts[i]) == k
        ensures k in InfoOf(parts)
      {
        var i :| 0 <= i < |parts| && '=' in parts[i] && KeyOf(parts[i]) == k;
        if i < |front| {
          assert front[i] == parts[i];
        }
      }
    }
  }

  /** The value of a key is read from the last piece with that key. */
  lemma {:induction false} InfoLastWins(parts: seq<string>, i: nat)
    requires i < |parts| && '=' in parts[i]
    requires forall j :: i < j < |parts| && '=' in parts[j] ==> KeyOf(parts[j]) != KeyOf(parts[i])
    ensures KeyOf(parts[i]) in InfoOf(parts)
    ensures InfoOf(parts)[KeyOf(parts[i])] == CoerceToken(ValueOf(parts[i]))
  {
    if i < |parts| - 1 {
      var front := parts[..|parts| - 1];
      assert front[i] == parts[i];
      InfoLastWins(front, i);
    }
  }

  lemma SettingsWithoutCut(s: string)
    requires forall j :: 0 <= j < |s| ==> s[j] != '-'
    ensures Split(s) == [s]
  {
    NextCutIs(s, 0, |s|);
  }

  lemma MixedSplitTail(s: string)
    requires s == "p=5.0-da=True"
    ensures Split(s) == ["p=5.0", "da=True"]
  {
    assert NextCut(s, 0) == 5 by {
      NextCutIs(s, 0, 5);
    }
    assert s[..5] == "p=5.0" && s[6..] == "da=True";
    SettingsWithoutCut(s[6..]);
  }

  /** The three settings of a worked name split apart. */
  lemma MixedSplit(s: string)
    requires s == "dc=2-p=5.0-da=True"
    ensures Split(s) == ["dc=2", "p=5.0", "da=True"]
  {
    assert NextCut(s, 0) == 4 by {
      NextCutIs(s, 0, 4);
    }
    assert s[..4] == "dc=2" && s[5..] == "p=5.0-da=True";
    MixedSplitTail(s[5..]);
  }

  lemma FivePointZero()
    ensures ParseFloat("5.0") == Some(5.0)
  {
    var s := "5.0";
    assert FindAny(s, {'e', 'E'}) == 3;
    assert s[..3] == s;
    assert FindAny(s, {'.'}) == 1;
    assert s[..1] == "5" && s[2..] == "0";
    assert "5" + "0" == "50";
    assert DigitsValue("50") == 50 by {
      assert "50"[..1] == "5";
      assert DigitsValue("5") == 5 by {
        assert "5"[..0] == "";
      }
    }
    assert Pow10(1) == 10;
    assert Scale(50 as real / 10 as real, 0) == 5.0;
  }

  /** The key and value of a piece whose first `=` is at `e`. */
  lemma PieceAt(p: string, e: nat)
    requires e < |p| && p[e] == '=' && forall j :: 0 <= j < e ==> p[j] != '='
    ensures '=' in p && KeyOf(p) == p[..e] && ValueOf(p) == p[e + 1..]
  {
    assert FindAny(p, {'='}) == e;
  }

  /** Reading one more `key=value` piece sets its key. */
  lemma InfoAppend(parts: seq<string>, p: string, v: Value)
    requires '=' in p && CoerceToken(ValueOf(p)) == v
    ensures InfoOf(parts + [p]) == InfoOf(parts)[KeyOf(p) := v]
  {
    assert (parts + [p])[..|parts|] == parts;
  }

  lemma TwoValue()
    ensures '=' in "dc=2" && KeyOf("dc=2") == "dc" && CoerceToken(ValueOf("dc=2")) == VInt(2)
  {
    PieceAt("dc=2", 2);
    assert "dc=2"[..2] == "dc" && "dc=2"[3..] == "2";
    assert '.' !in "2";
    assert DigitsValue("2") == 2 by {
      assert "2"[..0] == "";
    }
  }

  lemma FiveValue()
    ensures '=' in "p=5.0" && KeyOf("p=5.0") == "p" && CoerceToken(ValueOf("p=5.0")) == VFloat(5.0)
  {
    PieceAt("p=5.0", 1);
    assert "p=5.0"[..1] == "p" && "p=5.0"[2..] == "5.0";
    assert "5.0"[1] == '.';
    FivePointZero();
  }

  lemma TrueValue()
    ensures '=' in "da=True" && KeyOf("da=True") == "da" && CoerceToken(ValueOf("da=True")) == VStr("True")
  {
    PieceAt("da=True", 2);
    assert "da=True"[..2] == "da" && "da=True"[3..] == "True";
    assert '.' !in "True";
    assert !IsDigit("True"[0]);
  }

  lemma InfoTwo(a: string, b: string)
    requires '=' in a && '=' in b
    ensures InfoOf([a, b]) == map[KeyOf(a) := CoerceToken(ValueOf(a))][KeyOf(b) := CoerceToken(ValueOf(b))]
  {
    InfoAppend([], a, CoerceToken(ValueOf(a)));
    assert [] + [a] == [a];
    InfoAppend([a], b, CoerceToken(ValueOf(b)));
    assert [a] + [b] == [a, b];
  }

  lemma InfoThree(a: string, b: string, c: string)
    requires '=' in a && '=' in b && '=' in c
    ensures InfoOf([a, b, c]) == InfoOf([a, b])[KeyOf(c) := CoerceToken(ValueOf(c))]
  {
    InfoAppend([a, b], c, CoerceToken(ValueOf(c)));
    assert [a, b] + [c] == [a, b, c];
  }

  /** A worked name: integers, floats and text values, in that order. */
  lemma MixedSettings()
    ensures NameInfo("dc=2-p=5.0-da=True") == map["dc" := VInt(2), "p" := VFloat(5.0), "da" := VStr("True")]
  {
    MixedSplit("dc=2-p=5.0-da=True");
    TwoValue();
    FiveValue();
    TrueValue();
    InfoTwo("dc=2", "p=5.0");
    InfoThree("dc=2", "p=5.0", "da=True");
  }

  /** A worked name whose hyphens all stay inside its two settings. */
  lemma ExponentSplit(s: string)
    requires s == "lr=1e-3-x=-1"
    ensures Split(s) == ["lr=1e-3", "x=-1"]
  {
    assert NextCut(s, 0) == 7 by {
      assert !IsCut(s, 5);
      NextCutIs(s, 0, 7);
    }
    var s1 := s[8..];
    assert s[..7] == "lr=1e-3" && s1 == "x=-1";
    assert Split(s1) == ["x=-1"] by {
      assert !IsCut(s1, 2);
      NextCutIs(s1, 0, 4);
    }
  }

  lemma ExponentValue()
    ensures '=' in "lr=1e-3" && KeyOf("lr=1e-3") == "lr" && CoerceToken(ValueOf("lr=1e-3")) == VStr("1e-3")
  {
    PieceAt("lr=1e-3", 2);
    assert "lr=1e-3"[..2] == "lr" && "lr=1e-3"[3..] == "1e-3";
    assert !IsDigit("1e-3"[1]);
  }

  lemma NegativeValue()
    ensures '=' in "x=-1" && KeyOf("x=-1") == "x" && CoerceToken(ValueOf("x=-1")) == VInt(-1)
  {
    PieceAt("x=-1", 1);
    assert "x=-1"[..1] == "x" && "x=-1"[2..] == "-1";
    assert "-1"[1..] == "1";
    assert DigitsValue("1") == 1 by {
      assert "1"[..0] == "";
    }
  }

  /** Neither a hyphen after `e` nor one after `=` splits the name, and a
      number in exponent form without a `.` stays text, since `int()` does
      not read it. */
  lemma ExponentAndSign()
    ensures NameInfo("lr=1e-3-x=-1") == map["lr" := VStr("1e-3"), "x" := VInt(-1)]
  {
    ExponentSplit("lr=1e-3-x=-1");
    ExponentValue();
    NegativeValue();
    InfoTwo("lr=1e-3", "x=-1");
  }

  // ---------------------------------------------------------------------
  // Path(p).name

  /** `Path(p).name`: the last component of the path, skipping empty and
      `.` components; the empty string when there is none. */
  function PathName(p: string): (name: string)
    ensures forall j :: 0 <= j < |name| ==> name[j] != '/'
    ensures name != "."
    decreases |p|
  {
    match LastIndex(p, '/')
    case None => if p == "." then "" else p
    case Some(i) =>
      var last := p[i + 1..];
      if last == "" || last == "." then PathName(p[..i]) else last
  }

  /** The name of `dir/name` is `name` for a proper component, and trailing
      slashes do not change it. */
  lemma PathNameOfChild(dir: string, name: string)
    requires name != "" && name != "."
    requires forall j :: 0 <= j < |name| ==> name[j] != '/'
    ensures PathName(dir + "/" + name) == name
    ensures PathName(dir + "/" + name + "/") == name
  {
    var p := dir + "/" + name;
    assert p[|dir| + 1..] == name;
    assert LastIndex(p, '/') == Some(|dir|) by {
      LastIndexAfter(dir + "/", name, '/');
    }
    var q := p + "/";
    assert q[..|p|] == p;
  }
}
