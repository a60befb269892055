/**
 * `uniquify` (histo.go:255-270): reduce each reference image's comparison
 * list to the one entry with the largest |score|.
 */
module Select {
  import opened Types

  /**
   * Entry i of v has the largest |score| of the list, and no earlier entry
   * reaches it: ties go to the first such entry.
   */
  predicate IsFirstMax(v: seq<CompRes>, i: nat)
  {
    && i < |v|
    && (forall j :: 0 <= j < |v| ==> Abs(v[j].score) <= Abs(v[i].score))
    && (forall j :: 0 <= j < i ==> Abs(v[j].score) < Abs(v[i].score))
  }

  /** best holds, for every key of m and no other, the first entry of largest |score| of its list. */
  ghost predicate IsBestPairs(m: Matches, best: map<string, CompRes>)
  {
    && best.Keys == m.Keys
    && forall k :: k in m ==> exists i: nat :: IsFirstMax(m[k], i) && best[k] == m[k][i]
  }

  /**
   * uniquify. The keys are taken in an arbitrary order, as Go's map
   * iteration does; within a list the scan keeps `best` and `keep`,
   * starting from 0 and 0, and moves only on a strictly larger |score|.
   * A key with an empty list makes v1[keep] panic, which is `None` here;
   * diffDir never stores one (see Compare.TableKeys).
   */
  method Uniquify(m: Matches) returns (r: Option<map<string, CompRes>>)
    ensures r.None? <==> exists k :: k in m && m[k] == []
    ensures r.Some? ==> r.value.Keys == m.Keys
    ensures r.Some? ==> forall k :: k in m ==> exists i: nat :: IsFirstMax(m[k], i) && r.value[k] == m[k][i]
  {
    var bestpairs := map[];
    var todo := m.Keys;
    while todo != {}
      invariant todo <= m.Keys
      invariant bestpairs.Keys == m.Keys - todo
      invariant forall k :: k in bestpairs ==> exists i: nat :: IsFirstMax(m[k], i) && bestpairs[k] == m[k][i]
      decreases todo
    {
      var k1 :| k1 in todo;
      var v1 := m[k1];
      if v1 == [] {
        return None;
      }
      var best := 0.0;
      var keep := 0;
      var k := 0;
      while k < |v1|
        invariant 0 <= k <= |v1| && keep < |v1|
        invariant best >= 0.0
        invariant forall j :: 0 <= j < k ==> Abs(v1[j].score) <= best
        invariant (best == 0.0 && keep == 0) ||
                  (keep < k && best == Abs(v1[keep].score) &&
                   forall j :: 0 <= j < keep ==> Abs(v1[j].score) < best)
      {
        if Abs(v1[k].score) > best {
          best := Abs(v1[k].score);
          keep := k;
        }
        k := k + 1;
      }
      assert IsFirstMax(v1, keep);
      bestpairs := bestpairs[k1 := v1[keep]];
      todo := todo - {k1};
    }
    return Some(bestpairs);
  }

  /** At most one index of a list is its first maximum. */
  lemma FirstMaxUnique(v: seq<CompRes>, i: nat, j: nat)
    requires IsFirstMax(v, i) && IsFirstMax(v, j)
    ensures i == j
  {
    assert Abs(v[j].score) <= Abs(v[i].score) && Abs(v[i].score) <= Abs(v[j].score);
  }

  /** A list whose scores are all 0 yields its first entry. */
  lemma AllZeroPicksFirst(v: seq<CompRes>, i: nat)
    requires IsFirstMax(v, i)
    requires forall j :: 0 <= j < |v| ==> v[j].score == 0.0
    ensures i == 0
  {
    assert Abs(v[0].score) == 0.0 && Abs(v[i].score) == 0.0;
  }

  /**
   * The result of uniquify does not depend on the order in which the keys
   * are visited: two tables that both meet its contract are equal.
   */
  lemma BestPairsDeterministic(m: Matches, b1: map<string, CompRes>, b2: map<string, CompRes>)
    requires IsBestPairs(m, b1) && IsBestPairs(m, b2)
    ensures b1 == b2
  {
    forall k | k in m
      ensures b1[k] == b2[k]
    {
      var i: nat :| IsFirstMax(m[k], i) && b1[k] == m[k][i];
      var j: nat :| IsFirstMax(m[k], j) && b2[k] == m[k][j];
      FirstMaxUnique(m[k], i, j);
    }
  }
}
