/**
 * The string helpers histo.go relies on: the JPEG name filter `isJpeg`
 * applied to `strings.ToLower` (histo.go:191, 210, 220), `filepath.Join`,
 * `filepath.Ext` and the `%d` formatting of `fmt.Sprintf` (histo.go:322-335).
 */
module Paths {

  // ---------------------------------------------------------------------------
  // strings.ToLower and isJpeg

  function LowerChar(c: char): char
  {
    if 'A' <= c <= 'Z' then (c as int - 'A' as int + 'a' as int) as char else c
  }

  /** `strings.ToLower`, on ASCII letters. */
  function Lower(s: string): (r: string)
    ensures |r| == |s|
    ensures forall i :: 0 <= i < |s| ==> r[i] == LowerChar(s[i])
  {
    if s == [] then [] else Lower(s[..|s| - 1]) + [LowerChar(s[|s| - 1])]
  }

  predicate EndsWith(s: string, suffix: string)
  {
    |suffix| <= |s| && s[|s| - |suffix|..] == suffix
  }

  /**
   * What the regular expression `.*\.(jpg|jpeg)$` accepts under Go's RE2
   * semantics: an unanchored match, so some span s[i..] that starts with a
   * run of non-newline characters s[i..j] followed by ".jpg" or ".jpeg" up to
   * the end of the text (`$` without the m flag is the end of the text).
   */
  ghost predicate RegexAccepts(s: string)
  {
    exists i, j :: MatchesAt(s, i, j)
  }

  /** `.*` matches s[i..j] and `\.(jpg|jpeg)$` matches s[j..]. */
  predicate MatchesAt(s: string, i: int, j: int)
  {
    && 0 <= i <= j <= |s|
    && (forall p :: i <= p < j ==> s[p] != '\n')
    && (s[j..] == ".jpg" || s[j..] == ".jpeg")
  }

  /** Lower(s) ends with suffix, checked from the back. */
  predicate LowerEndsWith(s: string, suffix: string)
    decreases suffix
  {
    suffix == [] ||
    (s != [] && LowerChar(s[|s| - 1]) == suffix[|suffix| - 1] &&
     LowerEndsWith(s[..|s| - 1], suffix[..|suffix| - 1]))
  }

  /** `isJpeg.MatchString(strings.ToLower(name))`: the lowercased name ends in ".jpg" or ".jpeg". */
  predicate IsJpeg(name: string)
  {
    LowerEndsWith(name, ".jpg") || LowerEndsWith(name, ".jpeg")
  }

  lemma {:induction false} LowerEndsWithIsEndsWith(s: string, suffix: string)
    ensures LowerEndsWith(s, suffix) <==> EndsWith(Lower(s), suffix)
    decreases suffix
  {
    if suffix != [] && s != [] {
      var init := s[..|s| - 1];
      var l := Lower(s);
      LowerEndsWithIsEndsWith(init, suffix[..|suffix| - 1]);
      assert Lower(init) == l[..|l| - 1];
      if EndsWith(l, suffix) {
        assert l[|l| - |suffix|..][..|suffix| - 1] == Lower(init)[|Lower(init)| - (|suffix| - 1)..];
      }
      if EndsWith(Lower(init), suffix[..|suffix| - 1]) && l[|l| - 1] == suffix[|suffix| - 1] {
        assert l[|l| - |suffix|..] == Lower(init)[|Lower(init)| - (|suffix| - 1)..] + [l[|l| - 1]];
      }
    }
  }

  /**
   * The filter accepts a name exactly when the regular expression
   * accepts its lowercase form.
   */
  lemma IsJpegMatchesRegex(name: string)
    ensures IsJpeg(name) <==> RegexAccepts(Lower(name))
  {
    LowerEndsWithIsEndsWith(name, ".jpg");
    LowerEndsWithIsEndsWith(name, ".jpeg");
    var l := Lower(name);
    if EndsWith(l, ".jpg") {
      assert MatchesAt(l, |l| - 4, |l| - 4);
    } else if EndsWith(l, ".jpeg") {
      assert MatchesAt(l, |l| - 5, |l| - 5);
    }
    if RegexAccepts(l) {
      var i, j :| MatchesAt(l, i, j);
      assert |l[j..]| == |l| - j;
    }
  }

  /** The filter ignores case: a name and its lowercase form are both JPEG names or neither. */
  lemma {:induction false} IsJpegIgnoresCase(name: string)
    ensures IsJpeg(name) == IsJpeg(Lower(name))
  {
    var l := Lower(name);
    var ll := Lower(l);
    assert forall i :: 0 <= i < |l| ==> ll[i] == l[i];
    assert ll == l;
    LowerEndsWithIsEndsWith(name, ".jpg");
    LowerEndsWithIsEndsWith(name, ".jpeg");
    LowerEndsWithIsEndsWith(l, ".jpg");
    LowerEndsWithIsEndsWith(l, ".jpeg");
  }

  // ---------------------------------------------------------------------------
  // filepath.Join and filepath.Ext

  /** `filepath.Join(dir, name)` for a directory and a plain file name. */
  function Join(dir: string, name: string): string
  {
    if dir == [] then name
    else if dir[|dir| - 1] == '/' then dir + name
    else dir + "/" + name
  }

  /** The joined path starts with the directory and ends with the name, a '/' between them. */
  lemma JoinShape(dir: string, name: string)
    ensures EndsWith(Join(dir, name), name)
    ensures dir == [] ==> Join(dir, name) == name
    ensures dir != [] ==> var r := Join(dir, name);
              |r| > |name| && r[..|dir|] == dir && r[|r| - |name| - 1] == '/'
  {
  }

  /** Joining the same directory with two different names gives two different paths. */
  lemma JoinInjective(dir: string, a: string, b: string)
    requires Join(dir, a) == Join(dir, b)
    ensures a == b
  {
    if dir != [] {
      var p := if dir[|dir| - 1] == '/' then dir else dir + "/";
      assert Join(dir, a) == p + a && Join(dir, b) == p + b;
      assert a == (p + a)[|p|..];
      assert b == (p + b)[|p|..];
    }
  }

  /**
   * The loop of `filepath.Ext`, at position n: path[n..] has already been
   * scanned and holds neither a '.' nor a '/'.
   */
  function ExtScan(path: string, n: nat): (r: string)
    requires n <= |path|
    requires forall p :: n <= p < |path| ==> path[p] != '/' && path[p] != '.'
    ensures r == [] || (r[0] == '.' && EndsWith(path, r))
    ensures forall p :: 0 <= p < |r| ==> r[p] != '/'
    ensures forall p :: 0 < p < |r| ==> r[p] != '.'
    ensures r == [] <==> forall p :: 0 <= p < n && path[p] == '.' ==> exists q :: p < q < |path| && path[q] == '/'
    decreases n
  {
    if n == 0 || path[n - 1] == '/' then []
    else if path[n - 1] == '.' then path[n - 1..]
    else ExtScan(path, n - 1)
  }

  /** `filepath.Ext`: the suffix from the last '.' of the last path element, or "". */
  function Ext(path: string): (r: string)
    ensures r == [] || (r[0] == '.' && EndsWith(path, r))
    ensures forall p :: 0 <= p < |r| ==> r[p] != '/'
    ensures forall p :: 0 < p < |r| ==> r[p] != '.'
    ensures r == [] <==> forall p :: 0 <= p < |path| && path[p] == '.' ==> exists q :: p < q < |path| && path[q] == '/'
  {
    ExtScan(path, |path|)
  }

  // ---------------------------------------------------------------------------
  // fmt.Sprintf("%d", n)

  predicate IsDigit(c: char)
  {
    '0' <= c <= '9'
  }

  function Digit(d: nat): char
    requires d < 10
  {
    (d + '0' as int) as char
  }

  /** The decimal rendering of a natural number. */
  function Decimal(n: nat): (r: string)
    ensures |r| >= 1
    ensures forall i :: 0 <= i < |r| ==> IsDigit(r[i])
  {
    if n < 10 then [Digit(n)] else Decimal(n / 10) + [Digit(n % 10)]
  }

  /** Length of the longest run of digits at the start of s. */
  function DigitRun(s: string): nat
  {
    if s == [] || !IsDigit(s[0]) then 0 else 1 + DigitRun(s[1..])
  }

  lemma {:induction false} DigitRunOf(d: string, e: string)
    requires forall i :: 0 <= i < |d| ==> IsDigit(d[i])
    requires e == [] || e[0] == '.'
    ensures DigitRun(d + e) == |d|
  {
    if d != [] {
      assert (d + e)[1..] == d[1..] + e;
      DigitRunOf(d[1..], e);
    }
  }

  lemma {:induction false} DecimalInjective(a: nat, b: nat)
    requires Decimal(a) == Decimal(b)
    ensures a == b
  {
    if a >= 10 && b >= 10 {
      var da, db := Decimal(a), Decimal(b);
      assert da[..|da| - 1] == Decimal(a / 10);
      assert db[..|db| - 1] == Decimal(b / 10);
      DecimalInjective(a / 10, b / 10);
      assert Digit(a % 10) == Digit(b % 10);
    }
  }

  /**
   * A number followed by an extension ("" or starting with '.') names the
   * number unambiguously: "12" + ".jpg" and "1" + "2.jpg" cannot both arise.
   */
  lemma NumberedNameInjective(a: nat, ea: string, b: nat, eb: string)
    requires ea == [] || ea[0] == '.'
    requires eb == [] || eb[0] == '.'
    requires Decimal(a) + ea == Decimal(b) + eb
    ensures a == b && ea == eb
  {
    var da, db := Decimal(a), Decimal(b);
    var s := da + ea;
    DigitRunOf(da, ea);
    DigitRunOf(db, eb);
    assert da == s[..|da|] == db;
    DecimalInjective(a, b);
    assert ea == s[|da|..] == eb;
  }
}
