/**
 * The path-string library: separator rewriting, the UNC test, and splitting a path into its
 * directory, its last component and that component's extension. Every operation is one
 * regular-expression `replace`, `split` or `test` in the source; here each regular expression is
 * written out over `seq<char>`. Both `/` and `\` are separators, and each separator character is
 * matched on its own: runs of separators are never collapsed.
 */
module Path {

  /** The characters of the separator class `[\\\/]`. */
  const Separators: set<char> := {'/', '\\'}

  /** The class `\.` that `extname` splits at. */
  const Dots: set<char> := {'.'}

  predicate IsSep(c: char) {
    c in Separators
  }

  /** No character of `s` is in `d`. */
  predicate NoneIn(s: string, d: set<char>) {
    forall i :: 0 <= i < |s| ==> s[i] !in d
  }

  function Last<T>(xs: seq<T>): T
    requires |xs| > 0
  {
    xs[|xs| - 1]
  }

  // ---------------------------------------------------------------------------------------------
  // The three regular-expression operations the library is built from
  // ---------------------------------------------------------------------------------------------

  /** `p.replace(/[\\\/]/g, c)`: each separator character, taken one at a time, becomes `c`. */
  function ReplaceSeps(p: string, c: char): (r: string)
    ensures |r| == |p|
    ensures forall i :: 0 <= i < |p| ==> r[i] == (if IsSep(p[i]) then c else p[i])
  {
    if p == [] then [] else [if IsSep(p[0]) then c else p[0]] + ReplaceSeps(p[1..], c)
  }

  /**
   * Length of the longest suffix of `s` whose characters are all in `d` (when `inside`) or all
   * outside `d` (when not): the part of `s` that `/[d]+$/` resp. `/[^d]+$/` matches.
   */
  function SuffixRun(s: string, d: set<char>, inside: bool): (n: nat)
    ensures n <= |s|
    ensures forall i :: |s| - n <= i < |s| ==> (s[i] in d) == inside
    ensures n < |s| ==> (s[|s| - n - 1] in d) != inside
    decreases |s|
  {
    if s == [] || (s[|s| - 1] in d) != inside then 0
    else SuffixRun(s[..|s| - 1], d, inside) + 1
  }

  /** A suffix run is determined by its two defining facts. */
  lemma {:induction false} SuffixRunUnique(s: string, d: set<char>, inside: bool, n: nat)
    requires n <= |s|
    requires forall i :: |s| - n <= i < |s| ==> (s[i] in d) == inside
    requires n < |s| ==> (s[|s| - n - 1] in d) != inside
    ensures SuffixRun(s, d, inside) == n
    decreases |s|
  {
    if n > 0 {
      var init := s[..|s| - 1];
      assert (s[|s| - 1] in d) == inside;
      assert forall i :: |init| - (n - 1) <= i < |init| ==> init[i] == s[i];
      if n - 1 < |init| { assert init[|init| - (n - 1) - 1] == s[|s| - n - 1]; }
      SuffixRunUnique(init, d, inside, n - 1);
    }
  }

  /** `s.replace(/[d]+$/, "")` (when `inside`) or `s.replace(/[^d]+$/g, "")` (when not). */
  function TrimEnd(s: string, d: set<char>, inside: bool): (r: string)
    ensures |r| <= |s| && r == s[..|r|]
    ensures forall i :: |r| <= i < |s| ==> (s[i] in d) == inside
    ensures r == [] || (r[|r| - 1] in d) != inside
  {
    s[..|s| - SuffixRun(s, d, inside)]
  }

  /**
   * `s.split(re)` where `re` matches exactly one character of `d`: the fields between the
   * matches, in order. A string without a match is a single field; `""` splits into `[""]`.
   */
  function Split(s: string, d: set<char>): (fields: seq<string>)
    ensures |fields| >= 1
    decreases |s|
  {
    if s == [] then [[]]
    else
      var init, c := s[..|s| - 1], s[|s| - 1];
      var fields := Split(init, d);
      if c in d then fields + [[]]
      else fields[..|fields| - 1] + [Last(fields) + [c]]
  }

  /** A split yields a single field exactly when there is nothing to split at. */
  lemma {:induction false} SplitSingleField(s: string, d: set<char>)
    ensures |Split(s, d)| == 1 <==> NoneIn(s, d)
    decreases |s|
  {
    if s != [] {
      var init, c := s[..|s| - 1], s[|s| - 1];
      SplitSingleField(init, d);
      if c !in d && NoneIn(init, d) {
        forall i | 0 <= i < |s| ensures s[i] !in d {
          if i < |init| { assert s[i] == init[i]; }
        }
      }
      if NoneIn(s, d) {
        assert c !in d;
        forall i | 0 <= i < |init| ensures init[i] !in d {
          assert init[i] == s[i];
        }
      }
    }
  }

  /** The last field of a split is the longest suffix free of the split characters. */
  lemma {:induction false} LastFieldIsTail(s: string, d: set<char>)
    ensures Last(Split(s, d)) == s[|s| - SuffixRun(s, d, false)..]
    decreases |s|
  {
    if s != [] && s[|s| - 1] !in d {
      var init := s[..|s| - 1];
      LastFieldIsTail(init, d);
      var k := SuffixRun(init, d, false);
      assert s[|s| - (k + 1)..] == init[|init| - k..] + [s[|s| - 1]];
    }
  }

  // ---------------------------------------------------------------------------------------------
  // The exported functions
  // ---------------------------------------------------------------------------------------------

  /**
   * `isUNC`: `/^\\\\{2}|^\/\/{2}/` asks for one backslash followed by two more, or one slash
   * followed by two more, so a path is UNC exactly when it starts with three equal separators.
   */
  function IsUNC(p: string): (r: bool)
    ensures r <==> |p| >= 3 && IsSep(p[0]) && p[1] == p[0] && p[2] == p[0]
  {
    StartsWith(p, "\\\\\\") || StartsWith(p, "///")
  }

  predicate StartsWith(p: string, prefix: string) {
    |prefix| <= |p| && p[..|prefix|] == prefix
  }

  /** `toSlashAll`: every separator becomes `/`, one for one; nothing else changes. */
  function ToSlashAll(p: string): (r: string)
    ensures |r| == |p|
    ensures forall i :: 0 <= i < |p| ==> (IsSep(r[i]) <==> IsSep(p[i]))
    ensures forall i :: 0 <= i < |p| && !IsSep(p[i]) ==> r[i] == p[i]
    ensures '\\' !in r
  {
    ReplaceSeps(p, '/')
  }

  /** `toBackslashAll`: every separator becomes `\`, one for one; nothing else changes. */
  function ToBackslashAll(p: string): (r: string)
    ensures |r| == |p|
    ensures forall i :: 0 <= i < |p| ==> (IsSep(r[i]) <==> IsSep(p[i]))
    ensures forall i :: 0 <= i < |p| && !IsSep(p[i]) ==> r[i] == p[i]
    ensures '/' !in r
  {
    ReplaceSeps(p, '\\')
  }

  /**
   * `basename`: the last field of splitting at every separator, which is the longest suffix of
   * the path without a separator: all of it when there is no separator, `""` when the path
   * ends in one.
   */
  function Basename(p: string): (r: string)
    ensures |r| <= |p| && r == p[|p| - |r|..]
    ensures NoneIn(r, Separators)
    ensures |r| < |p| ==> IsSep(p[|p| - |r| - 1])
    ensures NoneIn(p, Separators) ==> r == p
    ensures |p| > 0 && IsSep(p[|p| - 1]) ==> r == []
  {
    LastFieldIsTail(p, Separators);
    Last(Split(p, Separators))
  }

  /**
   * `extname`: `"."` followed by the last field of splitting the basename at every `.`, which is
   * the longest dot-free suffix of the basename.
   */
  function Extname(p: string): (r: string)
    ensures |r| >= 1 && r[0] == '.'
    ensures var b := Basename(p); r[1..] == b[|b| - SuffixRun(b, Dots, false)..]
  {
    var b := Basename(p);
    LastFieldIsTail(b, Dots);
    var e := Last(Split(b, Dots));
    assert ("." + e)[1..] == e;
    "." + e
  }

  /** A basename without a dot is its own extension; an empty basename, or one ending in `.`, gives `"."`. */
  lemma ExtnameCorners(p: string)
    ensures NoneIn(Basename(p), Dots) ==> Extname(p) == "." + Basename(p)
    ensures var b := Basename(p); (b == [] || b[|b| - 1] == '.') ==> Extname(p) == "."
  {
    var b, r := Basename(p), Extname(p);
    if NoneIn(b, Dots) {
      assert |r| - 1 == |b|;
      assert r == [r[0]] + r[1..];
    }
    if b == [] || b[|b| - 1] == '.' {
      assert |r| == 1;
    }
  }

  /**
   * `dirname`: drop the trailing run of non-separators, then the trailing run of separators.
   * The result is a prefix of the path that never ends in a separator, and is `""` when the
   * path has no separator.
   */
  function Dirname(p: string): (r: string)
    ensures |r| <= |p| && r == p[..|r|]
    ensures r == [] || !IsSep(r[|r| - 1])
    ensures NoneIn(p, Separators) ==> r == []
  {
    TrimEnd(TrimEnd(p, Separators, false), Separators, true)
  }

  // ---------------------------------------------------------------------------------------------
  // Properties relating the functions
  // ---------------------------------------------------------------------------------------------

  /** Rewriting to `/` twice is rewriting once. */
  lemma {:induction false} ToSlashAllIdempotent(p: string)
    ensures ToSlashAll(ToSlashAll(p)) == ToSlashAll(p)
  {
    var q := ToSlashAll(p);
    assert forall i :: 0 <= i < |q| ==> ToSlashAll(q)[i] == q[i];
  }

  /** Rewriting to `\` twice is rewriting once. */
  lemma {:induction false} ToBackslashAllIdempotent(p: string)
    ensures ToBackslashAll(ToBackslashAll(p)) == ToBackslashAll(p)
  {
    var q := ToBackslashAll(p);
    assert forall i :: 0 <= i < |q| ==> ToBackslashAll(q)[i] == q[i];
  }

  /** Normalising to `/` forgets which separator style the path was written in. */
  lemma {:induction false} ToSlashAllIgnoresStyle(p: string)
    ensures ToSlashAll(ToBackslashAll(p)) == ToSlashAll(p)
    ensures ToBackslashAll(ToSlashAll(p)) == ToBackslashAll(p)
  {
    var q, r := ToBackslashAll(p), ToSlashAll(p);
    assert forall i :: 0 <= i < |p| ==> ToSlashAll(q)[i] == r[i];
    assert forall i :: 0 <= i < |p| ==> ToBackslashAll(r)[i] == q[i];
  }

  /**
   * Between the dirname (a prefix of the path) and the basename (a suffix) lies a run of
   * separators and nothing else; the run is non-empty exactly when the path contains a
   * separator.
   */
  lemma {:induction false} Reconstruction(p: string)
    ensures |Dirname(p)| + |Basename(p)| <= |p|
    ensures forall i :: |Dirname(p)| <= i < |p| - |Basename(p)| ==> IsSep(p[i])
    ensures |Dirname(p)| + |Basename(p)| < |p| <==> !NoneIn(p, Separators)
  {
    var b, d := Basename(p), Dirname(p);
    DirnameTrimsBeforeBasename(p);
    var q := p[..|p| - |b|];
    assert forall i :: |d| <= i < |q| ==> q[i] == p[i];
    if !NoneIn(p, Separators) {
      assert |b| < |p|;
      assert IsSep(q[|q| - 1]);
    }
  }

  /** The dirname is what is left before the basename, less its trailing separators. */
  lemma DirnameTrimsBeforeBasename(p: string)
    ensures |Basename(p)| <= |p|
    ensures Dirname(p) == TrimEnd(p[..|p| - |Basename(p)|], Separators, true)
  {
    LastFieldIsTail(p, Separators);
    assert TrimEnd(p, Separators, false) == p[..|p| - |Basename(p)|];
  }

  /** The basename of a path ending in `a + b`, where `a` ends in a separator and `b` has none, is `b`. */
  lemma BasenameOfJoin(a: string, b: string)
    requires |a| > 0 && IsSep(a[|a| - 1]) && NoneIn(b, Separators)
    ensures Basename(a + b) == b
  {
    var p := a + b;
    forall i | |p| - |b| <= i < |p| ensures p[i] !in Separators {
      assert p[i] == b[i - |a|];
    }
    SuffixRunUnique(p, Separators, false, |b|);
    LastFieldIsTail(p, Separators);
    assert p[|p| - |b|..] == b;
  }

  /**
   * The dirname of `d + s + b`, where `d` does not end in a separator, `s` is a non-empty run of
   * separators and `b` has none, is `d`: the converse of `Reconstruction`.
   */
  lemma DirnameOfJoin(d: string, s: string, b: string)
    requires d == [] || !IsSep(d[|d| - 1])
    requires |s| > 0 && forall i :: 0 <= i < |s| ==> IsSep(s[i])
    requires NoneIn(b, Separators)
    ensures Dirname(d + s + b) == d
  {
    var p := d + s + b;
    forall i | |p| - |b| <= i < |p| ensures p[i] !in Separators {
      assert p[i] == b[i - |d| - |s|];
    }
    assert p[|p| - |b| - 1] == s[|s| - 1];
    SuffixRunUnique(p, Separators, false, |b|);
    var q := p[..|p| - |b|];
    assert q == d + s;
    forall i | |q| - |s| <= i < |q| ensures q[i] in Separators {
      assert q[i] == s[i - |d|];
    }
    if d != [] {
      assert q[|q| - |s| - 1] == d[|d| - 1];
    }
    SuffixRunUnique(q, Separators, true, |s|);
    assert q[..|q| - |s|] == d;
  }

  /**
   * Dirname of `q + s + b`, where `s` is a non-empty run of separators and `b` holds none: `q`
   * without its trailing separators.
   */
  lemma {:induction false} DirnameAfterSeparatorRun(q: string, s: string, b: string)
    requires |s| > 0 && forall i :: 0 <= i < |s| ==> IsSep(s[i])
    requires NoneIn(b, Separators)
    ensures Dirname(q + s + b) == TrimEnd(q, Separators, true)
  {
    var d := TrimEnd(q, Separators, true);
    var run := q[|d|..] + s;
    forall i | 0 <= i < |run| ensures IsSep(run[i]) {
      if i < |q| - |d| { assert run[i] == q[|d| + i]; } else { assert run[i] == s[i - (|q| - |d|)]; }
    }
    assert q == d + q[|d|..];
    assert q + s + b == d + run + b;
    DirnameOfJoin(d, run, b);
  }

  /** The extension of a path whose basename is `a + e`, with `a` ending in `.` and `e` dot-free, is `"." + e`. */
  lemma ExtnameOfJoin(p: string, a: string, e: string)
    requires Basename(p) == a + e
    requires |a| > 0 && a[|a| - 1] == '.' && NoneIn(e, Dots)
    ensures Extname(p) == "." + e
  {
    var b := a + e;
    forall i | |b| - |e| <= i < |b| ensures b[i] !in Dots {
      assert b[i] == e[i - |a|];
    }
    SuffixRunUnique(b, Dots, false, |e|);
    var r := Extname(p);
    assert r[1..] == e;
    assert r == [r[0]] + r[1..];
  }
}
