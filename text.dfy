/** String and number helpers with the meaning Python gives them in the
    report aggregator: `str.isdigit`, `int()`, `float()` on decimal literals,
    `str(int)`, code-point ordering of strings (`sorted`), `strip`,
    `splitlines()[0]`, `ljust(w)[:w]` and `sep.join`. */
module Text {
  import opened Results

  // ---------------------------------------------------------------------
  // Digits and integers

  predicate IsDigit(c: char) {
    '0' <= c <= '9'
  }

  /** Every character is an ASCII digit (the empty string included). */
  predicate AllDigits(s: string) {
    forall i :: 0 <= i < |s| ==> IsDigit(s[i])
  }

  /** `s.isdigit()`, for ASCII digits: non-empty and all digits. */
  predicate IsDigits(s: string) {
    |s| > 0 && AllDigits(s)
  }

  function DigitValue(c: char): nat
    requires IsDigit(c)
  {
    c as int - '0' as int
  }

  function DigitChar(d: nat): (c: char)
    requires d < 10
    ensures IsDigit(c) && DigitValue(c) == d
  {
    ('0' as int + d) as char
  }

  /** The number written by a string of decimal digits, most significant first. */
  function DigitsValue(s: string): nat
    requires AllDigits(s)
  {
    if s == [] then 0 else DigitsValue(s[..|s| - 1]) * 10 + DigitValue(s[|s| - 1])
  }

  /** `str(n)` for a non-negative integer: its shortest decimal digits. */
  function NatToString(n: nat): (s: string)
    ensures IsDigits(s)
    ensures n != 0 ==> s[0] != '0'
  {
    if n < 10 then [DigitChar(n)] else NatToString(n / 10) + [DigitChar(n % 10)]
  }

  /** `str(n)` for any integer. */
  function IntToString(n: int): string {
    if n < 0 then "-" + NatToString(-n) else NatToString(n)
  }

  /** `int(s)`: an optional sign followed by at least one ASCII digit. */
  function ParseInt(s: string): Option<int> {
    if |s| > 0 && (s[0] == '+' || s[0] == '-') then
      if IsDigits(s[1..]) then
        Some(if s[0] == '-' then -(DigitsValue(s[1..]) as int) else DigitsValue(s[1..]))
      else None
    else if IsDigits(s) then Some(DigitsValue(s))
    else None
  }

  lemma {:induction false} NatToStringValue(n: nat)
    ensures DigitsValue(NatToString(n)) == n
  {
    if n >= 10 {
      var s := NatToString(n);
      assert s[..|s| - 1] == NatToString(n / 10);
      NatToStringValue(n / 10);
    }
  }

  /** `int(str(n)) == n`: reading back a printed integer gives it again. */
  lemma ParseIntRoundTrip(n: int)
    ensures ParseInt(IntToString(n)) == Some(n)
  {
    if n < 0 {
      var s := IntToString(n);
      assert s[1..] == NatToString(-n);
      NatToStringValue(-n);
    } else {
      NatToStringValue(n);
    }
  }

  /** A string that `isdigit()` accepts is read by `int()` as its digits' value. */
  lemma DigitsParse(s: string)
    requires IsDigits(s)
    ensures ParseInt(s) == Some(DigitsValue(s) as int)
  {
  }

  // ---------------------------------------------------------------------
  // Decimal floating-point literals

  function Pow10(e: nat): (p: nat)
    ensures p >= 1
  {
    if e == 0 then 1 else 10 * Pow10(e - 1)
  }

  /** `x * 10^e` for an integer exponent. */
  function Scale(x: real, e: int): real {
    if e >= 0 then x * Pow10(e) as real else x / Pow10(-e) as real
  }

  /** The first index of a character of `cs` in `s`, or `|s|` if there is none. */
  function FindAny(s: string, cs: set<char>): (i: nat)
    ensures i <= |s|
    ensures i < |s| ==> s[i] in cs
    ensures forall j :: 0 <= j < i ==> s[j] !in cs
  {
    if s == [] then 0
    else if s[0] in cs then 0
    else 1 + FindAny(s[1..], cs)
  }

  /** `float(s)` for a decimal literal: an optional sign, a mantissa `D+`,
      `D+.D*` or `.D+`, and an optional exponent `e`/`E` followed by an
      optionally signed `D+`. The value is the exact real the literal denotes. */
  function ParseFloat(s: string): Option<real> {
    var signed := |s| > 0 && (s[0] == '+' || s[0] == '-');
    var body := if signed then s[1..] else s;
    var e := FindAny(body, {'e', 'E'});
    var mantissa := body[..e];
    var d := FindAny(mantissa, {'.'});
    var whole := mantissa[..d];
    var frac := if d < |mantissa| then mantissa[d + 1..] else "";
    var exponent := if e < |body| then ParseInt(body[e + 1..]) else Some(0);
    if !AllDigits(whole) || !AllDigits(frac) || |whole| + |frac| == 0 || exponent.None? then None
    else
      var magnitude := Scale(DigitsValue(whole + frac) as real / Pow10(|frac|) as real, exponent.value);
      Some(if signed && s[0] == '-' then -magnitude else magnitude)
  }

  // ---------------------------------------------------------------------
  // Ordering of strings by code point, as Python's `sorted` compares them

  predicate StrLess(a: string, b: string) {
    if a == [] then b != []
    else b != [] && (a[0] < b[0] || (a[0] == b[0] && StrLess(a[1..], b[1..])))
  }

  lemma {:induction false} StrLessIrreflexive(a: string)
    ensures !StrLess(a, a)
  {
    if a != [] {
      StrLessIrreflexive(a[1..]);
    }
  }

  lemma {:induction false} StrLessTransitive(a: string, b: string, c: string)
    requires StrLess(a, b) && StrLess(b, c)
    ensures StrLess(a, c)
  {
    if a != [] && a[0] == b[0] && b[0] == c[0] {
      StrLessTransitive(a[1..], b[1..], c[1..]);
    }
  }

  lemma {:induction false} StrLessTotal(a: string, b: string)
    ensures a == b || StrLess(a, b) || StrLess(b, a)
  {
    if a != [] && b != [] && a[0] == b[0] {
      StrLessTotal(a[1..], b[1..]);
      if a[1..] == b[1..] {
        assert a == [a[0]] + a[1..] && b == [b[0]] + b[1..];
      }
    }
  }

  // ---------------------------------------------------------------------
  // Searching and cutting

  predicate StartsWith(s: string, prefix: string) {
    |prefix| <= |s| && s[..|prefix|] == prefix
  }

  /** `s.find(pat)`: the first index at which `pat` occurs, if any. */
  function Find(s: string, pat: string): (r: Option<nat>)
    ensures r.Some? ==> r.value + |pat| <= |s| && s[r.value..r.value + |pat|] == pat
    ensures r.Some? ==> forall j :: 0 <= j < r.value ==> !StartsWith(s[j..], pat)
    ensures r.None? ==> forall j :: 0 <= j <= |s| ==> !StartsWith(s[j..], pat)
  {
    if StartsWith(s, pat) then Some(0)
    else if s == [] then None
    else
      match Find(s[1..], pat)
      case None =>
        assert forall j :: 1 <= j <= |s| ==> s[j..] == s[1..][j - 1..];
        None
      case Some(i) =>
        assert forall j :: 1 <= j <= i ==> s[j..] == s[1..][j - 1..];
        Some(i + 1)
  }

  /** The text before the first occurrence of `c` (all of `s` if none):
      `s.split(c, 1)[0]`. */
  function Before(s: string, c: char): string {
    s[..FindAny(s, {c})]
  }

  /** Python's line boundaries for `str.splitlines`. */
  const LineBreaks: set<char> :=
    {'\n', '\r', '\U{000B}', '\U{000C}', '\U{001C}', '\U{001D}', '\U{001E}',
     '\U{0085}', '\U{2028}', '\U{2029}'}

  /** Python's whitespace for `str.strip()` with no argument. */
  const WhiteSpace: set<char> :=
    {'\t', '\n', '\U{000B}', '\U{000C}', '\r', '\U{001C}', '\U{001D}', '\U{001E}',
     '\U{001F}', ' ', '\U{0085}', '\U{00A0}', '\U{1680}', '\U{2000}', '\U{2001}',
     '\U{2002}', '\U{2003}', '\U{2004}', '\U{2005}', '\U{2006}', '\U{2007}',
     '\U{2008}', '\U{2009}', '\U{200A}', '\U{2028}', '\U{2029}', '\U{202F}',
     '\U{205F}', '\U{3000}'}

  /** `s.strip(chars)`: drop leading and trailing characters of `cs`. */
  function Strip(s: string, cs: set<char>): (r: string)
    ensures |r| <= |s|
    ensures r != [] ==> r[0] !in cs && r[|r| - 1] !in cs
    ensures s == [] || (s[0] !in cs && s[|s| - 1] !in cs) ==> r == s
    ensures forall i :: 0 <= i < |r| ==> r[i] in s
    decreases |s|
  {
    if s == [] then s
    else if s[0] in cs then Strip(s[1..], cs)
    else if s[|s| - 1] in cs then Strip(s[..|s| - 1], cs)
    else s
  }

  // ---------------------------------------------------------------------
  // Building text

  function Repeat(c: char, n: nat): (r: string)
    ensures |r| == n && forall i :: 0 <= i < n ==> r[i] == c
  {
    if n == 0 then [] else [c] + Repeat(c, n - 1)
  }

  /** `s.ljust(w)`: pad with spaces to at least `w` characters. */
  function LJust(s: string, w: nat): (r: string)
    ensures |r| == if |s| >= w then |s| else w
    ensures r[..|s|] == s
    ensures forall i :: |s| <= i < |r| ==> r[i] == ' '
  {
    if |s| >= w then s else s + Repeat(' ', w - |s|)
  }

  /** `s.ljust(w)[:w]`: pad with spaces or cut to exactly `w` characters. */
  function Fit(s: string, w: nat): (r: string)
    ensures |r| == w
    ensures |s| <= w ==> r[..|s|] == s
    ensures |s| >= w ==> r == s[..w]
  {
    LJust(s, w)[..w]
  }

  /** `sep.join(parts)`. */
  function Join(sep: string, parts: seq<string>): string {
    if parts == [] then ""
    else if |parts| == 1 then parts[0]
    else parts[0] + sep + Join(sep, parts[1..])
  }

  function SumLengths(parts: seq<string>): nat {
    if parts == [] then 0 else |parts[0]| + SumLengths(parts[1..])
  }

  lemma {:induction false} JoinLength(sep: string, parts: seq<string>)
    requires parts != []
    ensures |Join(sep, parts)| == SumLengths(parts) + (|parts| - 1) * |sep|
  {
    if |parts| > 1 {
      JoinLength(sep, parts[1..]);
    }
  }

  /** `s.rfind(c)`: the last position of `c`, if any. */
  function LastIndex(s: string, c: char): (r: Option<nat>)
    ensures r.Some? ==> r.value < |s| && s[r.value] == c && forall j :: r.value < j < |s| ==> s[j] != c
    ensures r.None? ==> forall j :: 0 <= j < |s| ==> s[j] != c
  {
    if s == [] then None
    else if s[|s| - 1] == c then Some(|s| - 1)
    else LastIndex(s[..|s| - 1], c)
  }

  /** The last `c` of `prefix + rest` is the one ending `prefix` when `rest`
      has none. */
  lemma {:induction false} LastIndexAfter(prefix: string, rest: string, c: char)
    requires prefix != [] && prefix[|prefix| - 1] == c
    requires forall j :: 0 <= j < |rest| ==> rest[j] != c
    ensures LastIndex(prefix + rest, c) == Some(|prefix| - 1)
    decreases |rest|
  {
    if rest != [] {
      var s := prefix + rest;
      assert s[..|s| - 1] == prefix + rest[..|rest| - 1];
      LastIndexAfter(prefix, rest[..|rest| - 1], c);
    } else {
      assert prefix + rest == prefix;
    }
  }

  /** `s.split(c)`: the pieces between the occurrences of `c`. */
  function SplitOn(s: string, c: char): (parts: seq<string>)
    ensures |parts| >= 1
  {
    if s == [] then [""]
    else
      var rest := SplitOn(s[1..], c);
      if s[0] == c then [""] + rest else [[s[0]] + rest[0]] + rest[1..]
  }

  lemma {:induction false} SplitOnPrefix(p: string, s: string, c: char)
    requires forall j :: 0 <= j < |p| ==> p[j] != c
    ensures SplitOn(p + s, c) == [p + SplitOn(s, c)[0]] + SplitOn(s, c)[1..]
  {
    if p == [] {
      assert p + s == s;
      var parts := SplitOn(s, c);
      assert parts == [parts[0]] + parts[1..];
      assert p + parts[0] == parts[0];
    } else {
      assert (p + s)[1..] == p[1..] + s;
      SplitOnPrefix(p[1..], s, c);
      assert [p[0]] + (p[1..] + SplitOn(s, c)[0]) == p + SplitOn(s, c)[0];
    }
  }

  /** A text that starts at a separator splits into an empty piece and
      the pieces of the rest. */
  lemma SplitOnLead(x: string, c: char)
    ensures SplitOn([c] + x, c) == [""] + SplitOn(x, c)
  {
    assert ([c] + x)[1..] == x;
  }

  /** A text free of `c` is a single piece. */
  lemma SplitOnFree(p: string, c: char)
    requires forall j :: 0 <= j < |p| ==> p[j] != c
    ensures SplitOn(p, c) == [p]
  {
    SplitOnPrefix(p, "", c);
    assert p + "" == p;
  }

  /** A piece free of `c`, then a separator: the piece comes off whole. */
  lemma SplitOnPiece(a: string, z: string, c: char)
    requires forall j :: 0 <= j < |a| ==> a[j] != c
    ensures SplitOn(a + ([c] + z), c) == [a] + SplitOn(z, c)
  {
    SplitOnPrefix(a, [c] + z, c);
    SplitOnLead(z, c);
    assert a + "" == a;
  }

  /** Two pieces, each after a `c`, in front of a text that starts a new piece. */
  lemma SplitOnTwoPieces(a: string, b: string, r: string, c: char)
    requires forall j :: 0 <= j < |a| ==> a[j] != c
    requires forall j :: 0 <= j < |b| ==> b[j] != c
    requires SplitOn(r, c)[0] == ""
    ensures SplitOn([c] + (a + ([c] + (b + r))), c) == ["", a, b] + SplitOn(r, c)[1..]
  {
    SplitOnLead(a + ([c] + (b + r)), c);
    SplitOnPiece(a, b + r, c);
    SplitOnPrefix(b, r, c);
    assert b + "" == b;
  }

  /** Splitting at `c` undoes joining with `c` when no part contains `c`. */
  lemma {:induction false} SplitOnJoin(parts: seq<string>, c: char)
    requires parts != []
    requires forall i, j :: 0 <= i < |parts| && 0 <= j < |parts[i]| ==> parts[i][j] != c
    ensures SplitOn(Join([c], parts), c) == parts
  {
    if |parts| == 1 {
      SplitOnPrefix(parts[0], "", c);
      assert parts[0] + "" == parts[0];
    } else {
      SplitOnJoin(parts[1..], c);
      var rest := Join([c], parts[1..]);
      assert parts[0] + [c] + rest == parts[0] + ([c] + rest);
      SplitOnPrefix(parts[0], [c] + rest, c);
      assert ([c] + rest)[1..] == rest;
      assert SplitOn([c] + rest, c) == [""] + SplitOn(rest, c);
      assert parts[0] + "" == parts[0];
      assert parts == [parts[0]] + parts[1..];
    }
  }

  /** Each line followed by a newline. */
  function Terminated(lines: seq<string>): string {
    if lines == [] then "" else lines[0] + "\n" + Terminated(lines[1..])
  }

  /** Splitting newline-terminated lines at the newlines gives the lines
      back, then the empty text after the last newline. */
  lemma {:induction false} SplitTerminated(lines: seq<string>)
    requires forall i, j :: 0 <= i < |lines| && 0 <= j < |lines[i]| ==> lines[i][j] != '\n'
    ensures SplitOn(Terminated(lines), '\n') == lines + [""]
  {
    if lines != [] {
      SplitTerminated(lines[1..]);
      var rest := Terminated(lines[1..]);
      assert lines[0] + "\n" + rest == lines[0] + ("\n" + rest);
      SplitOnPrefix(lines[0], "\n" + rest, '\n');
      assert ("\n" + rest)[1..] == rest;
      assert SplitOn("\n" + rest, '\n') == [""] + SplitOn(rest, '\n');
      assert lines[0] + "" == lines[0];
      assert lines == [lines[0]] + lines[1..];
    }
  }

  /** The number of occurrences of `c` in `s`. */
  function Count(s: string, c: char): nat {
    if s == [] then 0 else (if s[0] == c then 1 else 0) + Count(s[1..], c)
  }

  lemma {:induction false} CountAppend(a: string, b: string, c: char)
    ensures Count(a + b, c) == Count(a, c) + Count(b, c)
  {
    if a != [] {
      assert (a + b)[1..] == a[1..] + b;
      CountAppend(a[1..], b, c);
    } else {
      assert a + b == b;
    }
  }

  lemma {:induction false} CountNone(s: string, c: char)
    requires forall j :: 0 <= j < |s| ==> s[j] != c
    ensures Count(s, c) == 0
  {
    if s != [] {
      CountNone(s[1..], c);
    }
  }

  /** Joining parts free of `c` with a separator holding `c` once puts
      exactly one `c` between each two parts. */
  lemma {:induction false} CountJoin(sep: string, parts: seq<string>, c: char)
    requires parts != [] && Count(sep, c) == 1
    requires forall i, j :: 0 <= i < |parts| && 0 <= j < |parts[i]| ==> parts[i][j] != c
    ensures Count(Join(sep, parts), c) == |parts| - 1
  {
    CountNone(parts[0], c);
    if |parts| > 1 {
      CountJoin(sep, parts[1..], c);
      CountAppend(parts[0] + sep, Join(sep, parts[1..]), c);
      CountAppend(parts[0], sep, c);
    }
  }

  /** The concatenation of all parts. */
  function Concat(parts: seq<string>): string {
    if parts == [] then "" else parts[0] + Concat(parts[1..])
  }
}
