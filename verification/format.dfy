/**
  The formatter: each flattened variable becomes one POSIX shell line
  `KEY=value; export KEY`, where `KEY` is the key path joined with `_` and
  upper-cased, and `value` is the rendered scalar, unquoted.
 */
module Format {
  import opened Wrappers
  import opened Display
  import opened Flattener

  /** `join`: the segments with `sep` between consecutive ones; empty for no segments. */
  function Join(segs: seq<string>, sep: string): string
  {
    if segs == [] then ""
    else if |segs| == 1 then segs[0]
    else segs[0] + sep + Join(segs[1..], sep)
  }

  /**
    Splits at every occurrence of `c`. It inverts joining with `[c]` for a
    non-empty path in which no segment contains `c` (`SplitJoin`).
   */
  function Split(s: string, c: char): (r: seq<string>)
    ensures |r| >= 1
    ensures forall i :: 0 <= i < |r| ==> c !in r[i]
  {
    if s == [] then [[]]
    else
      var rest := Split(s[1..], c);
      if s[0] == c then [[]] + rest
      else [[s[0]] + rest[0]] + rest[1..]
  }

  predicate IsLower(c: char)
  {
    'a' <= c <= 'z'
  }

  /** ASCII upper-casing of one character; every other character is unchanged. */
  function UpperChar(c: char): char
  {
    if IsLower(c) then (c as int - 32) as char else c
  }

  /** `to_uppercase`, restricted to the ASCII letters. */
  function ToUpper(s: string): (r: string)
    ensures |r| == |s|
    ensures forall i :: 0 <= i < |r| ==> !IsLower(r[i])
    ensures forall i :: 0 <= i < |s| && !IsLower(s[i]) ==> r[i] == s[i]
    ensures forall i :: 0 <= i < |s| && IsLower(s[i]) ==> r[i] as int == s[i] as int - 32
  {
    seq(|s|, i requires 0 <= i < |s| => UpperChar(s[i]))
  }

  /** Upper-casing is character by character. */
  lemma ToUpperPointwise(s: string, u: string)
    requires |u| == |s|
    requires forall i :: 0 <= i < |s| ==> u[i] == UpperChar(s[i])
    ensures ToUpper(s) == u
  {
  }

  /** The environment variable name of a key path: `key.join("_").to_uppercase()`. */
  function EnvName(key: Path): string
  {
    ToUpper(Join(key, "_"))
  }

  const ExportMarker: string := "; export "

  /** `s[q..]` starts with `pat`. */
  predicate OccursAt(s: string, pat: string, q: int)
  {
    0 <= q && q + |pat| <= |s| && s[q..q + |pat|] == pat
  }

  /** The greatest position at most `q` where `pat` occurs in `s`, if any. */
  function SearchDown(s: string, pat: string, q: int): (r: Option<nat>)
    requires q + |pat| <= |s|
    ensures r.Some? ==> r.value <= q && OccursAt(s, pat, r.value)
    ensures r.Some? ==> forall q' :: r.value < q' <= q ==> !OccursAt(s, pat, q')
    ensures r.None? ==> forall q' :: 0 <= q' <= q ==> !OccursAt(s, pat, q')
    decreases q + 1
  {
    if q < 0 then None
    else if s[q..q + |pat|] == pat then Some(q)
    else SearchDown(s, pat, q - 1)
  }

  /** The position of the last occurrence of `pat` in `s`, if any. */
  function LastIndexOf(s: string, pat: string): (r: Option<nat>)
    ensures r.Some? ==> OccursAt(s, pat, r.value)
    ensures r.Some? ==> forall q :: r.value < q ==> !OccursAt(s, pat, q)
    ensures r.None? ==> forall q :: !OccursAt(s, pat, q)
  {
    if |pat| > |s| then None else SearchDown(s, pat, |s| - |pat|)
  }

  /**
    Reads a line of the form `NAME=value; export NAME` back into its name and
    value. The name is what follows the last `; export `; the value is what
    lies between the `=` after the leading name and that marker.
   */
  function ParseExport(line: string): Option<(string, string)>
  {
    match LastIndexOf(line, ExportMarker)
    case None => None
    case Some(m) =>
      var name := line[m + |ExportMarker|..];
      if |name| + 1 <= m && line[..|name|] == name && line[|name|] == '=' then
        Some((name, line[|name| + 1..m]))
      else
        None
  }

  /** The shape of an export line: `NAME=value; export NAME`. */
  function ExportLine(name: string, value: string): string
  {
    name + "=" + value + ExportMarker + name
  }

  /** `format_posix`: one export line for a variable. */
  function FormatPosix(v: Var): string
  {
    ExportLine(EnvName(v.key), Render(v.value))
  }

  /** `format_vars`: one line per variable, in the same order. */
  function FormatVars(vars: seq<Var>): (lines: seq<string>)
    ensures |lines| == |vars|
    ensures forall i :: 0 <= i < |vars| ==> lines[i] == FormatPosix(vars[i])
  {
    if vars == [] then [] else [FormatPosix(vars[0])] + FormatVars(vars[1..])
  }

  /** Past the marker it ends with, an export line holds no further marker. */
  lemma NoMarkerAfter(name: string, value: string, q: int)
    requires forall i :: 0 <= i < |name| ==> !IsLower(name[i])
    requires |name| + 1 + |value| < q
    ensures !OccursAt(ExportLine(name, value), ExportMarker, q)
  {
    var line := ExportLine(name, value);
    var m := |name| + 1 + |value|;
    var k := |ExportMarker|;
    if q + k <= |line| {
      if q < m + k {
        assert line[q..q + k][0] == line[q] == ExportMarker[q - m] != ';';
      } else {
        assert line[q..q + k][2] == line[q + 2] == name[q + 2 - m - k];
        assert !IsLower(line[q..q + k][2]);
      }
    }
  }

  /** The output of `format_vars` is fixed line by line: any list with the right lines is it. */
  lemma FormatVarsPointwise(vars: seq<Var>, lines: seq<string>)
    requires |lines| == |vars|
    requires forall i :: 0 <= i < |vars| ==> lines[i] == FormatPosix(vars[i])
    ensures FormatVars(vars) == lines
  {
  }

  /**
    A line built from an upper-case name and any value parses back to that
    name and value: the value may itself contain `; export `, but the name
    cannot, as it has no lower-case letter.
   */
  lemma ExportLineParses(name: string, value: string)
    requires forall i :: 0 <= i < |name| ==> !IsLower(name[i])
    ensures ParseExport(ExportLine(name, value)) == Some((name, value))
  {
    var line := ExportLine(name, value);
    var m := |name| + 1 + |value|;
    var k := |ExportMarker|;
    assert line[m..m + k] == ExportMarker;
    assert line[m + k..] == name;
    forall q | m < q
      ensures !OccursAt(line, ExportMarker, q)
    {
      NoMarkerAfter(name, value, q);
    }
    assert OccursAt(line, ExportMarker, m);
    assert LastIndexOf(line, ExportMarker) == Some(m);
    assert line[..|name|] == name;
    assert line[|name|] == '=';
    assert line[|name| + 1..m] == value;
  }

  /** Conversely, every line that parses has exactly the export shape. */
  lemma ParsedLineShape(line: string)
    requires ParseExport(line).Some?
    ensures
      var (name, value) := ParseExport(line).value;
      line == ExportLine(name, value)
  {
    var m := LastIndexOf(line, ExportMarker).value;
    var k := |ExportMarker|;
    var name := line[m + k..];
    var value := line[|name| + 1..m];
    assert line == line[..|name|] + [line[|name|]] + line[|name| + 1..m] + line[m..m + k] + line[m + k..];
  }

  /**
    A formatted line names the variable's upper-cased, `_`-joined key and
    carries its rendered value, and both can be read back from the line.
   */
  lemma FormatPosixRoundTrip(v: Var)
    ensures ParseExport(FormatPosix(v)) == Some((EnvName(v.key), Render(v.value)))
  {
    ExportLineParses(EnvName(v.key), Render(v.value));
  }

  /**
    Joining is associative along a path: the name of a nested key is the
    name of the enclosing tables' path, `_`, then the name of the rest.
   */
  lemma {:induction false} JoinAppend(a: seq<string>, b: seq<string>, sep: string)
    requires a != [] && b != []
    ensures Join(a + b, sep) == Join(a, sep) + sep + Join(b, sep)
  {
    assert (a + b)[0] == a[0];
    if |a| == 1 {
      assert (a + b)[1..] == b;
    } else {
      assert (a + b)[1..] == a[1..] + b;
      JoinAppend(a[1..], b, sep);
    }
  }

  lemma {:induction false} ToUpperAppend(a: string, b: string)
    ensures ToUpper(a + b) == ToUpper(a) + ToUpper(b)
  {
    if a == [] {
      assert a + b == b;
    } else {
      assert (a + b)[0] == a[0];
      assert (a + b)[1..] == a[1..] + b;
      ToUpperAppend(a[1..], b);
    }
  }

  /** The name of a nested key is the names of its two parts joined with `_`. */
  lemma EnvNameAppend(a: Path, b: Path)
    requires a != [] && b != []
    ensures EnvName(a + b) == EnvName(a) + "_" + EnvName(b)
  {
    JoinAppend(a, b, "_");
    ToUpperAppend(Join(a, "_") + "_", Join(b, "_"));
    ToUpperAppend(Join(a, "_"), "_");
  }

  lemma {:induction false} SplitPrefix(x: string, t: string, c: char)
    requires c !in x
    ensures Split(x + t, c) == [x + Split(t, c)[0]] + Split(t, c)[1..]
  {
    var st := Split(t, c);
    if x == [] {
      assert x + t == t;
      assert x + st[0] == st[0];
      assert st == [st[0]] + st[1..];
    } else {
      assert (x + t)[0] == x[0];
      assert (x + t)[1..] == x[1..] + t;
      SplitPrefix(x[1..], t, c);
      var rest := Split(x[1..] + t, c);
      assert rest[0] == x[1..] + Split(t, c)[0];
      assert rest[1..] == Split(t, c)[1..];
      assert [x[0]] + rest[0] == x + Split(t, c)[0];
    }
  }

  /**
    When no segment contains the separator, the joined key determines the
    path: splitting it gives the segments back.
   */
  lemma {:induction false} SplitJoin(segs: seq<string>, c: char)
    requires segs != []
    requires forall i :: 0 <= i < |segs| ==> c !in segs[i]
    ensures Split(Join(segs, [c]), c) == segs
  {
    if |segs| == 1 {
      SplitPrefix(segs[0], [], c);
      assert segs[0] + [] == segs[0];
    } else {
      var tail := Join(segs[1..], [c]);
      SplitJoin(segs[1..], c);
      assert Join(segs, [c]) == segs[0] + ([c] + tail);
      SplitPrefix(segs[0], [c] + tail, c);
      assert ([c] + tail)[0] == c;
      assert ([c] + tail)[1..] == tail;
      assert Split([c] + tail, c) == [[]] + segs[1..];
      assert segs[0] + [] == segs[0];
      assert Split(segs[0] + ([c] + tail), c) == [segs[0]] + segs[1..];
      assert segs == [segs[0]] + segs[1..];
    }
  }

  /**
    A segment that itself contains `_` makes two different paths share one
    name: `["a_b"]` and `["a", "b"]` both become `A_B`.
   */
  lemma EnvNameCollision()
    ensures EnvName(["a_b"]) == EnvName(["a", "b"]) == "A_B"
  {
    assert Join(["a", "b"], "_") == "a" + "_" + Join(["b"], "_");
    assert ToUpper("a_b") == [UpperChar('a')] + ToUpper("_b");
    assert ToUpper("_b") == [UpperChar('_')] + ToUpper("b");
  }
}
