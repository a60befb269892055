/**
 * `diffFiles` and `diffDir` (histo.go:162-253): compare every JPEG of a
 * directory with every JPEG listed after it, and collect, per reference
 * image, the scores of the comparisons that succeeded.
 *
 * The source runs one goroutine per listed name; each writes only its own
 * key of the result map, so the workers are modelled as one sequential loop
 * over the listing.
 */
module Compare {
  import opened Types
  import opened Histograms
  import opened Paths

  /** What a call of `diffFiles` leads to. */
  datatype Outcome =
    | Scored(score: real)  // both images decoded and scored
    | Failed               // os.Open or image.Decode returned an error
    | Panicked             // Histo met a pixel that is not YCbCr: the process dies

  /**
   * The collaborators of the comparator: `decode` stands for os.Open followed
   * by image.Decode, `score` for xCorrelation on the two dense vectors.
   */
  datatype Env = Env(decode: string -> Option<Image>, score: (seq<int>, seq<int>) -> real)

  /** The outcome of `diffFiles(file1, file2)`, in the order the source does the steps. */
  function DiffOutcome(env: Env, file1: string, file2: string): Outcome
  {
    match env.decode(file1)
    case None => Failed
    case Some(im1) =>
      match env.decode(file2)
      case None => Failed
      case Some(im2) =>
        match HistoOf(im1)
        case None => Panicked
        case Some(h1) =>
          match HistoOf(im2)
          case None => Panicked
          case Some(h2) => Scored(env.score(Dense(h1), Dense(h2)))
  }

  /** diffFiles, with diff4 inlined: decode both files, build both histograms and their dense vectors, score them. */
  method DiffFiles(env: Env, file1: string, file2: string) returns (o: Outcome)
    ensures o == DiffOutcome(env, file1, file2)
    ensures o.Failed? <==> env.decode(file1).None? || env.decode(file2).None?
    ensures o.Panicked? <==> && env.decode(file1).Some? && env.decode(file2).Some?
                             && (HistoOf(env.decode(file1).value).None? || HistoOf(env.decode(file2).value).None?)
  {
    var im1 := env.decode(file1);
    if im1.None? {
      return Failed;
    }
    var im2 := env.decode(file2);
    if im2.None? {
      return Failed;
    }
    var histo1 := Histo(im1.value);
    if histo1.None? {
      return Panicked;
    }
    var histo2 := Histo(im2.value);
    if histo2.None? {
      return Panicked;
    }
    var x, y := DenseVectors(histo1.value, histo2.value);
    return Scored(env.score(x, y));
  }

  // ---------------------------------------------------------------------------
  // The comparisons of one worker

  /** diffFiles as its callers see it: a function of the two paths. */
  function Diff(env: Env): (string, string) -> Outcome
  {
    (file1: string, file2: string) => DiffOutcome(env, file1, file2)
  }

  /** The outcome of comparing listed names k and k2, both joined to the directory. */
  function PairOutcome(diff: (string, string) -> Outcome, dir: string, names: seq<string>, k: nat, k2: nat): Outcome
    requires k < |names| && k2 < |names|
  {
    diff(Join(dir, names[k]), Join(dir, names[k2]))
  }

  /** The indices k2 < n that the worker for name k compares with: later JPEG names. */
  function Attempts(names: seq<string>, k: nat, n: nat): (r: seq<nat>)
    requires n <= |names|
    ensures forall i :: 0 <= i < |r| ==> k < r[i] < n
  {
    if n == 0 then []
    else Attempts(names, k, n - 1) + (if k < n - 1 && IsJpeg(names[n - 1]) then [n - 1] else [])
  }

  /** The indices among Attempts(names, k, n) whose comparison produced a score. */
  function Successes(diff: (string, string) -> Outcome, dir: string, names: seq<string>, k: nat, n: nat): (r: seq<nat>)
    requires k < |names| && n <= |names|
    ensures forall i :: 0 <= i < |r| ==> k < r[i] < n
  {
    if n == 0 then []
    else
      Successes(diff, dir, names, k, n - 1) +
      (if k < n - 1 && IsJpeg(names[n - 1]) && PairOutcome(diff, dir, names, k, n - 1).Scored?
       then [n - 1] else [])
  }

  /** `res` of the worker for name k once it has looked at names[..n]. */
  function Row(diff: (string, string) -> Outcome, dir: string, names: seq<string>, k: nat, n: nat): seq<CompRes>
    requires k < |names| && n <= |names|
  {
    if n == 0 then []
    else
      var r := Row(diff, dir, names, k, n - 1);
      if k < n - 1 && IsJpeg(names[n - 1]) then
        match PairOutcome(diff, dir, names, k, n - 1)
        case Scored(m) => r + [CompRes(Join(dir, names[n - 1]), m)]
        case _ => r
      else r
  }

  /** The result table once the workers for names[..n] have finished. */
  function Table(diff: (string, string) -> Outcome, dir: string, names: seq<string>, n: nat): Matches
    requires n <= |names|
  {
    if n == 0 then map[]
    else
      var t := Table(diff, dir, names, n - 1);
      var row := Row(diff, dir, names, n - 1, |names|);
      if IsJpeg(names[n - 1]) && row != [] then t[Join(dir, names[n - 1]) := row] else t
  }

  /** No comparison made by the workers for names[..n] panics. */
  predicate NoPanicBelow(diff: (string, string) -> Outcome, dir: string, names: seq<string>, n: nat)
    requires n <= |names|
  {
    forall k, k2 :: 0 <= k < n && k < k2 < |names| && IsJpeg(names[k]) && IsJpeg(names[k2]) ==>
      !PairOutcome(diff, dir, names, k, k2).Panicked?
  }

  /** What `diffDir` returns, or that the process died. */
  datatype DirResult = Matched(matches: Matches) | ListFailed | Crashed

  function DiffDirOf(diff: (string, string) -> Outcome, dir: string, listing: Option<seq<string>>): DirResult
  {
    match listing
    case None => ListFailed
    case Some(names) =>
      if NoPanicBelow(diff, dir, names, |names|) then Matched(Table(diff, dir, names, |names|))
      else Crashed
  }

  /**
   * The goroutine of diffDir for name k (histo.go:208-237): None when one of
   * its comparisons panics, otherwise its `res`. `attempted` records the
   * index k2 of every diffFiles call it makes, in order.
   */
  method Worker(env: Env, dirpath: string, names: seq<string>, k: nat)
    returns (res: Option<seq<CompRes>>, ghost attempted: seq<nat>)
    requires k < |names|
    ensures res.None? <==> IsJpeg(names[k]) && exists j :: k < j < |names| && IsJpeg(names[j]) &&
                                                          PairOutcome(Diff(env), dirpath, names, k, j).Panicked?
    ensures res.Some? ==> res.value == if IsJpeg(names[k]) then Row(Diff(env), dirpath, names, k, |names|) else []
    ensures res.Some? ==> attempted == if IsJpeg(names[k]) then Attempts(names, k, |names|) else []
    ensures attempted <= Attempts(names, k, |names|)
    ensures !IsJpeg(names[k]) ==> attempted == []
  {
    attempted := [];
    if !IsJpeg(names[k]) {
      return Some([]), attempted;
    }
    var row: seq<CompRes> := [];
    var fv1 := Join(dirpath, names[k]);
    var k2 := 0;
    while k2 < |names|
      invariant k2 <= |names|
      invariant row == Row(Diff(env), dirpath, names, k, k2)
      invariant attempted == Attempts(names, k, k2)
      invariant NoPanicBetween(Diff(env), dirpath, names, k, k2)
    {
      var panicked;
      row, attempted, panicked := CompareWith(env, dirpath, names, k, fv1, k2, row, attempted);
      if panicked {
        return None, attempted;
      }
      k2 := k2 + 1;
    }
    return Some(row), attempted;
  }

  /** No comparison of worker k with a JPEG name before position n panics. */
  predicate NoPanicBetween(diff: (string, string) -> Outcome, dir: string, names: seq<string>, k: nat, n: nat)
    requires k < |names| && n <= |names|
  {
    forall j :: k < j < n && IsJpeg(names[j]) ==> !PairOutcome(diff, dir, names, k, j).Panicked?
  }

  /**
   * One iteration of the worker's inner loop (histo.go:217-231): compare
   * names[k] with names[k2] when k2 is a later JPEG name, and keep the score
   * unless the comparison failed. `panicked` reports that it panicked.
   */
  method CompareWith(env: Env, dirpath: string, names: seq<string>, k: nat, fv1: string, k2: nat,
                     row: seq<CompRes>, ghost attempted: seq<nat>)
    returns (row': seq<CompRes>, ghost attempted': seq<nat>, panicked: bool)
    requires k < |names| && k2 < |names| && fv1 == Join(dirpath, names[k])
    requires row == Row(Diff(env), dirpath, names, k, k2)
    requires attempted == Attempts(names, k, k2)
    requires NoPanicBetween(Diff(env), dirpath, names, k, k2)
    ensures attempted' == Attempts(names, k, k2 + 1)
    ensures attempted' <= Attempts(names, k, |names|)
    ensures panicked <==> k < k2 && IsJpeg(names[k2]) && PairOutcome(Diff(env), dirpath, names, k, k2).Panicked?
    ensures !panicked ==> row' == Row(Diff(env), dirpath, names, k, k2 + 1)
    ensures !panicked ==> NoPanicBetween(Diff(env), dirpath, names, k, k2 + 1)
  {
    row', attempted', panicked := row, attempted, false;
    if k < k2 && IsJpeg(names[k2]) {
      var fv2 := Join(dirpath, names[k2]);
      attempted' := attempted + [k2];
      var o := DiffFiles(env, fv1, fv2);
      assert o == PairOutcome(Diff(env), dirpath, names, k, k2);
      match o {
        case Panicked =>
          panicked := true;
        case Failed =>
        case Scored(m) =>
          row' := row + [CompRes(fv2, m)];
      }
    }
    assert attempted' == Attempts(names, k, k2 + 1);
    AttemptsPrefix(names, k, k2 + 1, |names|);
    if !panicked {
      NoPanicBetweenSnoc(Diff(env), dirpath, names, k, k2);
    }
  }

  lemma NoPanicBetweenSnoc(diff: (string, string) -> Outcome, dir: string, names: seq<string>, k: nat, n: nat)
    requires k < |names| && n < |names|
    requires NoPanicBetween(diff, dir, names, k, n)
    requires k < n && IsJpeg(names[n]) ==> !PairOutcome(diff, dir, names, k, n).Panicked?
    ensures NoPanicBetween(diff, dir, names, k, n + 1)
  {
  }

  /**
   * diffDir. `listing` is the outcome of os.Open and Readdirnames on the
   * directory; `None` is the error the source returns. `calls` counts the
   * diffFiles calls made by all workers.
   */
  method DiffDir(env: Env, dirpath: string, listing: Option<seq<string>>) returns (r: DirResult, ghost calls: nat)
    ensures r == DiffDirOf(Diff(env), dirpath, listing)
    ensures listing.Some? ==> calls <= CallsFrom(listing.value, 0)
    ensures listing.Some? && r.Matched? ==> calls == CallsFrom(listing.value, 0)
    ensures listing.Some? && r.Matched? ==>
              calls == JpegCount(listing.value, 0, |listing.value|) * (JpegCount(listing.value, 0, |listing.value|) - 1) / 2
  {
    calls := 0;
    if listing.None? {
      return ListFailed, calls;
    }
    var names := listing.value;
    var results: Matches := map[];
    var k := 0;
    while k < |names|
      invariant k <= |names|
      invariant results == Table(Diff(env), dirpath, names, k)
      invariant NoPanicBelow(Diff(env), dirpath, names, k)
      invariant calls + CallsFrom(names, k) == CallsFrom(names, 0)
    {
      var crashed;
      results, calls, crashed := RunWorker(env, dirpath, names, k, results, calls);
      if crashed {
        return Crashed, calls;
      }
      k := k + 1;
    }
    TotalComparisons(names);
    return Matched(results), calls;
  }

  /**
   * One round of diffDir's loop: run the worker for name k and store its
   * row under the joined path when it is not empty. `crashed` reports that
   * the worker panicked.
   */
  method RunWorker(env: Env, dirpath: string, names: seq<string>, k: nat, results: Matches, ghost calls: nat)
    returns (results': Matches, ghost calls': nat, crashed: bool)
    requires k < |names|
    requires results == Table(Diff(env), dirpath, names, k)
    requires NoPanicBelow(Diff(env), dirpath, names, k)
    requires calls + CallsFrom(names, k) == CallsFrom(names, 0)
    ensures calls' <= CallsFrom(names, 0)
    ensures crashed ==> !NoPanicBelow(Diff(env), dirpath, names, |names|)
    ensures !crashed ==> results' == Table(Diff(env), dirpath, names, k + 1)
    ensures !crashed ==> NoPanicBelow(Diff(env), dirpath, names, k + 1)
    ensures !crashed ==> calls' + CallsFrom(names, k + 1) == CallsFrom(names, 0)
  {
    var res;
    ghost var attempted;
    res, attempted := Worker(env, dirpath, names, k);
    calls' := calls + |attempted|;
    results' := results;
    crashed := res.None?;
    assert CallsFrom(names, k) == (if IsJpeg(names[k]) then |Attempts(names, k, |names|)| else 0) + CallsFrom(names, k + 1);
    if crashed {
      assert |attempted| <= |Attempts(names, k, |names|)|;
      return;
    }
    NoPanicBelowSnoc(Diff(env), dirpath, names, k);
    if |res.value| > 0 {
      results' := results[Join(dirpath, names[k]) := res.value];
    }
  }

  lemma NoPanicBelowSnoc(diff: (string, string) -> Outcome, dir: string, names: seq<string>, k: nat)
    requires k < |names| && NoPanicBelow(diff, dir, names, k)
    requires !(IsJpeg(names[k]) && exists j :: k < j < |names| && IsJpeg(names[j]) &&
                                               PairOutcome(diff, dir, names, k, j).Panicked?)
    ensures NoPanicBelow(diff, dir, names, k + 1)
  {
  }

  // ---------------------------------------------------------------------------
  // Which pairs are compared

  /**
   * Worker k compares name k with exactly the later JPEG names, each once
   * and in listing order.
   */
  lemma {:induction false} AttemptsExact(names: seq<string>, k: nat, n: nat)
    requires n <= |names|
    ensures forall x :: x in Attempts(names, k, n) <==> k < x < n && IsJpeg(names[x])
    ensures forall i, j :: 0 <= i < j < |Attempts(names, k, n)| ==>
              Attempts(names, k, n)[i] < Attempts(names, k, n)[j]
  {
    if n > 0 {
      AttemptsExact(names, k, n - 1);
      var a := Attempts(names, k, n - 1);
      assert forall i :: 0 <= i < |a| ==> a[i] in a;
    }
  }

  /** Looking at fewer names only shortens the attempt list at its end. */
  lemma {:induction false} AttemptsPrefix(names: seq<string>, k: nat, n: nat, m: nat)
    requires n <= m <= |names|
    ensures Attempts(names, k, n) <= Attempts(names, k, m)
    decreases m - n
  {
    if n < m {
      AttemptsPrefix(names, k, n, m - 1);
    }
  }

  /**
   * Each unordered pair of distinct JPEG names is compared by exactly one
   * worker, that of the name listed first, and never in both orders.
   */
  lemma OncePerPair(names: seq<string>, a: nat, b: nat)
    requires a < |names| && b < |names| && a != b
    requires IsJpeg(names[a]) && IsJpeg(names[b])
    ensures (b in Attempts(names, a, |names|)) != (a in Attempts(names, b, |names|))
    ensures b in Attempts(names, a, |names|) <==> a < b
  {
    AttemptsExact(names, a, |names|);
    AttemptsExact(names, b, |names|);
  }

  /** Number of JPEG names among names[lo..n]. */
  function JpegCount(names: seq<string>, lo: nat, n: nat): nat
    requires n <= |names|
  {
    if n <= lo then 0 else JpegCount(names, lo, n - 1) + (if IsJpeg(names[n - 1]) then 1 else 0)
  }

  lemma {:induction false} AttemptsLength(names: seq<string>, k: nat, n: nat)
    requires n <= |names|
    ensures |Attempts(names, k, n)| == JpegCount(names, k + 1, n)
  {
    if n > 0 {
      AttemptsLength(names, k, n - 1);
    }
  }

  lemma {:induction false} JpegCountSplit(names: seq<string>, lo: nat, n: nat)
    requires lo < n <= |names|
    ensures JpegCount(names, lo, n) == (if IsJpeg(names[lo]) then 1 else 0) + JpegCount(names, lo + 1, n)
  {
    if n - 1 > lo {
      JpegCountSplit(names, lo, n - 1);
    }
  }

  /** Number of diffFiles calls made by the workers for names[j..]. */
  function CallsFrom(names: seq<string>, j: nat): nat
    requires j <= |names|
    decreases |names| - j
  {
    if j == |names| then 0
    else (if IsJpeg(names[j]) then |Attempts(names, j, |names|)| else 0) + CallsFrom(names, j + 1)
  }

  /** The workers for names[j..] make N(N-1)/2 calls, N being the number of JPEG names in names[j..]. */
  lemma {:induction false} CallsFromCount(names: seq<string>, j: nat)
    requires j <= |names|
    ensures 2 * CallsFrom(names, j) == JpegCount(names, j, |names|) * (JpegCount(names, j, |names|) - 1)
    decreases |names| - j
  {
    if j < |names| {
      CallsFromCount(names, j + 1);
      JpegCountSplit(names, j, |names|);
      AttemptsLength(names, j, |names|);
      var e: int := JpegCount(names, j + 1, |names|);
      assert (e + 1) * e == e * (e - 1) + 2 * e;
    }
  }

  /** diffDir calls diffFiles N(N-1)/2 times for the N JPEG names of the listing. */
  lemma TotalComparisons(names: seq<string>)
    ensures CallsFrom(names, 0) == JpegCount(names, 0, |names|) * (JpegCount(names, 0, |names|) - 1) / 2
  {
    CallsFromCount(names, 0);
  }

  // ---------------------------------------------------------------------------
  // What a worker keeps

  /**
   * The scored indices of worker k are the later JPEG names whose comparison
   * produced a score, in listing order.
   */
  lemma {:induction false} SuccessesExact(diff: (string, string) -> Outcome, dir: string, names: seq<string>, k: nat, n: nat)
    requires k < |names| && n <= |names|
    ensures forall x :: x in Successes(diff, dir, names, k, n) <==>
              k < x < n && IsJpeg(names[x]) && PairOutcome(diff, dir, names, k, x).Scored?
    ensures forall i, j :: 0 <= i < j < |Successes(diff, dir, names, k, n)| ==>
              Successes(diff, dir, names, k, n)[i] < Successes(diff, dir, names, k, n)[j]
  {
    if n > 0 {
      SuccessesExact(diff, dir, names, k, n - 1);
      var a := Successes(diff, dir, names, k, n - 1);
      assert forall i :: 0 <= i < |a| ==> a[i] in a;
    }
  }

  /**
   * row holds, in order, one entry per index of succ: the joined path of
   * that later name and the score its comparison produced.
   */
  predicate EntriesOf(diff: (string, string) -> Outcome, dir: string, names: seq<string>, k: nat,
                      row: seq<CompRes>, succ: seq<nat>)
    requires k < |names|
  {
    && |row| == |succ|
    && forall i :: 0 <= i < |row| ==>
         && succ[i] < |names|
         && PairOutcome(diff, dir, names, k, succ[i]).Scored?
         && row[i] == CompRes(Join(dir, names[succ[i]]), PairOutcome(diff, dir, names, k, succ[i]).score)
  }

  /**
   * res holds one entry per scored index, in the same order. A failed
   * comparison drops only its own pair.
   */
  lemma {:induction false} RowShape(diff: (string, string) -> Outcome, dir: string, names: seq<string>, k: nat, n: nat)
    requires k < |names| && n <= |names|
    ensures EntriesOf(diff, dir, names, k, Row(diff, dir, names, k, n), Successes(diff, dir, names, k, n))
  {
    if n > 0 {
      RowShape(diff, dir, names, k, n - 1);
      var r, succ := Row(diff, dir, names, k, n - 1), Successes(diff, dir, names, k, n - 1);
      if k < n - 1 && IsJpeg(names[n - 1]) && PairOutcome(diff, dir, names, k, n - 1).Scored? {
        var e := CompRes(Join(dir, names[n - 1]), PairOutcome(diff, dir, names, k, n - 1).score);
        assert Row(diff, dir, names, k, n) == r + [e];
        assert Successes(diff, dir, names, k, n) == succ + [n - 1];
        EntriesSnoc(diff, dir, names, k, r, succ, n - 1);
      } else {
        assert Row(diff, dir, names, k, n) == r;
        assert Successes(diff, dir, names, k, n) == succ;
      }
    }
  }

  lemma EntriesSnoc(diff: (string, string) -> Outcome, dir: string, names: seq<string>, k: nat,
                    row: seq<CompRes>, succ: seq<nat>, x: nat)
    requires k < |names| && x < |names| && PairOutcome(diff, dir, names, k, x).Scored?
    requires EntriesOf(diff, dir, names, k, row, succ)
    ensures EntriesOf(diff, dir, names, k,
                      row + [CompRes(Join(dir, names[x]), PairOutcome(diff, dir, names, k, x).score)],
                      succ + [x])
  {
  }

  /** When no comparison fails, worker k keeps a score for every later JPEG name. */
  lemma {:induction false} RowWithoutFailures(diff: (string, string) -> Outcome, dir: string, names: seq<string>, k: nat, n: nat)
    requires k < |names| && n <= |names|
    requires forall x :: k < x < n && IsJpeg(names[x]) ==> PairOutcome(diff, dir, names, k, x).Scored?
    ensures Successes(diff, dir, names, k, n) == Attempts(names, k, n)
    ensures |Row(diff, dir, names, k, n)| == |Attempts(names, k, n)|
  {
    AllAttemptsSucceed(diff, dir, names, k, n);
    RowShape(diff, dir, names, k, n);
  }

  lemma {:induction false} AllAttemptsSucceed(diff: (string, string) -> Outcome, dir: string, names: seq<string>, k: nat, n: nat)
    requires k < |names| && n <= |names|
    requires forall x :: k < x < n && IsJpeg(names[x]) ==> PairOutcome(diff, dir, names, k, x).Scored?
    ensures Successes(diff, dir, names, k, n) == Attempts(names, k, n)
  {
    if n > 0 {
      AllAttemptsSucceed(diff, dir, names, k, n - 1);
    }
  }

  // ---------------------------------------------------------------------------
  // The table

  predicate Distinct(names: seq<string>)
  {
    forall i, j :: 0 <= i < j < |names| ==> names[i] != names[j]
  }

  /**
   * The keys of the table are the joined paths of the JPEG names whose
   * worker kept at least one score, and no key holds an empty list.
   */
  lemma {:induction false} TableKeys(diff: (string, string) -> Outcome, dir: string, names: seq<string>, n: nat)
    requires n <= |names|
    ensures forall key :: key in Table(diff, dir, names, n) <==>
              exists k :: 0 <= k < n && IsJpeg(names[k]) && Row(diff, dir, names, k, |names|) != [] &&
                          key == Join(dir, names[k])
    ensures forall key :: key in Table(diff, dir, names, n) ==> Table(diff, dir, names, n)[key] != []
  {
    if n > 0 {
      TableKeys(diff, dir, names, n - 1);
    }
  }

  /** In a listing without repeated names, each JPEG name's key holds exactly its worker's list. */
  lemma {:induction false} TableEntry(diff: (string, string) -> Outcome, dir: string, names: seq<string>, n: nat, k: nat)
    requires Distinct(names) && k < n <= |names|
    requires IsJpeg(names[k]) && Row(diff, dir, names, k, |names|) != []
    ensures Join(dir, names[k]) in Table(diff, dir, names, n)
    ensures Table(diff, dir, names, n)[Join(dir, names[k])] == Row(diff, dir, names, k, |names|)
  {
    var key, row := Join(dir, names[k]), Row(diff, dir, names, k, |names|);
    var t := Table(diff, dir, names, n - 1);
    if k == n - 1 {
      assert Table(diff, dir, names, n) == t[key := row];
    } else {
      TableEntry(diff, dir, names, n - 1, k);
      var key' := Join(dir, names[n - 1]);
      assert names[k] != names[n - 1];
      if key' == key {
        JoinInjective(dir, names[n - 1], names[k]);
      }
      assert Table(diff, dir, names, n) == t || Table(diff, dir, names, n) == t[key' := Row(diff, dir, names, n - 1, |names|)];
    }
  }
}
