/**
 * The worked example kept in histo.go: the comparison table of five
 * pictures (histo.go:360-379) and the best pairs uniquify printed for it
 * (histo.go:450-454), run through the ranking and the naming plan. The
 * proofs are done for any five distinct file names a (maison.jpg),
 * b (plage.jpg), c (voiture.jpg), d (tour.jpg) and e (vipere.jpg), then
 * applied to those names.
 */
module Samples {
  import opened Types
  import opened Select
  import opened Rank
  import opened Rename

  predicate Distinct5(a: string, b: string, c: string, d: string, e: string)
  {
    && a != b && a != c && a != d && a != e
    && b != c && b != d && b != e
    && c != d && c != e
    && d != e
  }

  /** The commented table allpairstest. */
  function TableOf(a: string, b: string, c: string, d: string, e: string): Matches
  {
    map[
      a := [CompRes(b, 0.791355), CompRes(c, 0.575118), CompRes(d, -0.243935), CompRes(e, 0.054535)],
      b := [CompRes(c, 0.427355), CompRes(d, -0.184758), CompRes(e, 0.082849)],
      c := [CompRes(d, 0.020259), CompRes(e, -0.165653)],
      d := [CompRes(e, 0.412750)]
    ]
  }

  /** The best pairs recorded after "uniquify:". */
  function BestOf(a: string, b: string, c: string, d: string, e: string): map<string, CompRes>
  {
    map[a := CompRes(b, 0.791355), b := CompRes(c, 0.427355), c := CompRes(e, -0.165653), d := CompRes(e, 0.412750)]
  }

  /** Those best pairs by non-increasing |rank|. */
  function RankingOf(a: string, b: string, c: string, d: string, e: string): seq<RankedPair>
  {
    [RankedPair(a, b, 0.791355), RankedPair(b, c, 0.427355), RankedPair(d, e, 0.412750), RankedPair(c, e, -0.165653)]
  }

  // ---------------------------------------------------------------------------
  // uniquify

  lemma FirstMaximaOf(a: string, b: string, c: string, d: string, e: string)
    requires Distinct5(a, b, c, d, e)
    ensures IsFirstMax(TableOf(a, b, c, d, e)[a], 0)
    ensures IsFirstMax(TableOf(a, b, c, d, e)[b], 0)
    ensures IsFirstMax(TableOf(a, b, c, d, e)[c], 1)
    ensures IsFirstMax(TableOf(a, b, c, d, e)[d], 0)
  {
    var m := TableOf(a, b, c, d, e);
    assert m[a] == [CompRes(b, 0.791355), CompRes(c, 0.575118), CompRes(d, -0.243935), CompRes(e, 0.054535)];
    assert Abs(m[a][1].score) == 0.575118 && Abs(m[a][2].score) == 0.243935 && Abs(m[a][3].score) == 0.054535;
    assert m[b] == [CompRes(c, 0.427355), CompRes(d, -0.184758), CompRes(e, 0.082849)];
    assert Abs(m[b][1].score) == 0.184758 && Abs(m[b][2].score) == 0.082849;
    assert m[c] == [CompRes(d, 0.020259), CompRes(e, -0.165653)];
    assert Abs(m[c][1].score) == 0.165653;
  }

  /**
   * Whatever order uniquify visits the keys in, on the test table it yields
   * the recorded best pairs; for voiture.jpg the negative -0.165653 beats
   * 0.020259 on absolute value.
   */
  lemma UniquifyOnTable(a: string, b: string, c: string, d: string, e: string, best: map<string, CompRes>)
    requires Distinct5(a, b, c, d, e)
    requires IsBestPairs(TableOf(a, b, c, d, e), best)
    ensures best == BestOf(a, b, c, d, e)
  {
    var m, x := TableOf(a, b, c, d, e), BestOf(a, b, c, d, e);
    FirstMaximaOf(a, b, c, d, e);
    assert m.Keys == x.Keys;
    forall k | k in m
      ensures exists i: nat :: IsFirstMax(m[k], i) && x[k] == m[k][i]
    {
      if k == a {
        assert IsFirstMax(m[k], 0) && x[k] == m[k][0];
      } else if k == b {
        assert IsFirstMax(m[k], 0) && x[k] == m[k][0];
      } else if k == c {
        assert IsFirstMax(m[k], 1) && x[k] == m[k][1];
      } else {
        assert IsFirstMax(m[k], 0) && x[k] == m[k][0];
      }
    }
    BestPairsDeterministic(m, best, x);
  }

  // ---------------------------------------------------------------------------
  // bestPairsToSortedPairs

  lemma RankingEntries(a: string, b: string, c: string, d: string, e: string)
    requires Distinct5(a, b, c, d, e)
    ensures forall j :: 0 <= j < 4 ==>
              RankingOf(a, b, c, d, e)[j].pic1 in BestOf(a, b, c, d, e) &&
              RankingOf(a, b, c, d, e)[j] == Entry(BestOf(a, b, c, d, e), RankingOf(a, b, c, d, e)[j].pic1)
  {
    var m, r := BestOf(a, b, c, d, e), RankingOf(a, b, c, d, e);
    assert r[0] == Entry(m, a) && r[1] == Entry(m, b) && r[2] == Entry(m, d) && r[3] == Entry(m, c);
  }

  lemma RankingCovers(a: string, b: string, c: string, d: string, e: string)
    ensures forall k :: k in BestOf(a, b, c, d, e) ==>
              exists j :: 0 <= j < 4 && RankingOf(a, b, c, d, e)[j].pic1 == k
  {
    var m, r := BestOf(a, b, c, d, e), RankingOf(a, b, c, d, e);
    forall k | k in m
      ensures exists j :: 0 <= j < 4 && r[j].pic1 == k
    {
      if k == a {
        assert r[0].pic1 == k;
      } else if k == b {
        assert r[1].pic1 == k;
      } else if k == d {
        assert r[2].pic1 == k;
      } else {
        assert r[3].pic1 == k;
      }
    }
  }

  lemma RankingIsListing(a: string, b: string, c: string, d: string, e: string)
    requires Distinct5(a, b, c, d, e)
    ensures IsListing(RankingOf(a, b, c, d, e), BestOf(a, b, c, d, e))
  {
    var m := BestOf(a, b, c, d, e);
    assert |m| == 4 by {
      assert m.Keys == {a, b, c, d};
      assert |{a, b, c, d}| == 4;
    }
    RankingEntries(a, b, c, d, e);
    RankingCovers(a, b, c, d, e);
  }

  lemma RankingIsSorted(a: string, b: string, c: string, d: string, e: string)
    ensures SortedByRank(RankingOf(a, b, c, d, e))
  {
    var r := RankingOf(a, b, c, d, e);
    assert Abs(r[0].rank) == 0.791355 && Abs(r[1].rank) == 0.427355;
    assert Abs(r[2].rank) == 0.412750 && Abs(r[3].rank) == 0.165653;
  }

  lemma BestHasNoTies(a: string, b: string, c: string, d: string, e: string)
    requires Distinct5(a, b, c, d, e)
    ensures NoTies(BestOf(a, b, c, d, e))
  {
    var m := BestOf(a, b, c, d, e);
    assert m.Keys == {a, b, c, d};
    assert Abs(m[a].score) == 0.791355 && Abs(m[b].score) == 0.427355;
    assert Abs(m[d].score) == 0.412750 && Abs(m[c].score) == 0.165653;
  }

  /**
   * Sorting those best pairs can only give maison, plage, tour, voiture:
   * their |rank|s are all different.
   */
  lemma RankingOfBest(a: string, b: string, c: string, d: string, e: string, s: seq<RankedPair>)
    requires Distinct5(a, b, c, d, e)
    requires IsListing(s, BestOf(a, b, c, d, e)) && SortedByRank(s)
    ensures s == RankingOf(a, b, c, d, e)
  {
    RankingIsListing(a, b, c, d, e);
    RankingIsSorted(a, b, c, d, e);
    BestHasNoTies(a, b, c, d, e);
    SortedListingUnique(s, RankingOf(a, b, c, d, e), BestOf(a, b, c, d, e));
  }

  // ---------------------------------------------------------------------------
  // renameAll

  lemma SlotsOfRanking(a: string, b: string, c: string, d: string, e: string)
    ensures Slots(RankingOf(a, b, c, d, e)) == [a, b, b, c, d, e, c, e]
  {
    var r := RankingOf(a, b, c, d, e);
    var slots := Slots(r);
    assert r[0].pic1 == a && r[0].pic2 == b && r[1].pic1 == b && r[1].pic2 == c;
    assert r[2].pic1 == d && r[2].pic2 == e && r[3].pic1 == c && r[3].pic2 == e;
    assert forall i :: 0 <= i < 8 ==> slots[i] == [a, b, b, c, d, e, c, e][i];
  }

  lemma PlanOfFirstFourSlots(dir: string, a: string, b: string, c: string)
    requires a != b && a != c && b != c
    ensures Plan(dir, [a, b, b, c]) == [Copy(a, Target(dir, 0, a)), Copy(b, Target(dir, 1, b)), Copy(c, Target(dir, 3, c))]
  {
    PlanSnoc(dir, [], a);
    assert [] + [a] == [a];
    PlanSnoc(dir, [a], b);
    assert [a] + [b] == [a, b];
    PlanSnoc(dir, [a, b], b);
    assert [a, b] + [b] == [a, b, b];
    PlanSnoc(dir, [a, b, b], c);
    assert [a, b, b] + [c] == [a, b, b, c];
  }

  lemma PlanOfFirstSixSlots(dir: string, a: string, b: string, c: string, d: string, e: string)
    requires Distinct5(a, b, c, d, e)
    ensures Plan(dir, [a, b, b, c, d, e]) ==
            [Copy(a, Target(dir, 0, a)), Copy(b, Target(dir, 1, b)), Copy(c, Target(dir, 3, c)),
             Copy(d, Target(dir, 4, d)), Copy(e, Target(dir, 5, e))]
  {
    PlanOfFirstFourSlots(dir, a, b, c);
    PlanSnoc(dir, [a, b, b, c], d);
    assert [a, b, b, c] + [d] == [a, b, b, c, d];
    PlanSnoc(dir, [a, b, b, c, d], e);
    assert [a, b, b, c, d] + [e] == [a, b, b, c, d, e];
  }

  /**
   * The naming plan for that ranking, in any destination directory (main
   * passes "/home/mpl/Desktop/pleubian/sorted"): slots 2, 6 and 7 repeat
   * files already met, so five copies are made, numbered 0, 1, 3, 4 and 5
   * (for ".jpg" names "<n>.jpg", by Rename.TargetKeepsJpg).
   */
  lemma PlanOfRanking(dir: string, a: string, b: string, c: string, d: string, e: string)
    requires Distinct5(a, b, c, d, e)
    ensures Plan(dir, Slots(RankingOf(a, b, c, d, e))) ==
            [Copy(a, Target(dir, 0, a)), Copy(b, Target(dir, 1, b)), Copy(c, Target(dir, 3, c)),
             Copy(d, Target(dir, 4, d)), Copy(e, Target(dir, 5, e))]
  {
    SlotsOfRanking(a, b, c, d, e);
    PlanOfFirstSixSlots(dir, a, b, c, d, e);
    PlanSnoc(dir, [a, b, b, c, d, e], c);
    assert [a, b, b, c, d, e] + [c] == [a, b, b, c, d, e, c];
    assert c in [a, b, b, c, d, e];
    PlanSnoc(dir, [a, b, b, c, d, e, c], e);
    assert [a, b, b, c, d, e, c] + [e] == [a, b, b, c, d, e, c, e];
    assert e in [a, b, b, c, d, e, c];
  }

  // ---------------------------------------------------------------------------
  // The pictures of the source

  const TestTable: Matches := TableOf("maison.jpg", "plage.jpg", "voiture.jpg", "tour.jpg", "vipere.jpg")
  const ExpectedBest: map<string, CompRes> := BestOf("maison.jpg", "plage.jpg", "voiture.jpg", "tour.jpg", "vipere.jpg")
  const ExpectedRanking: seq<RankedPair> := RankingOf("maison.jpg", "plage.jpg", "voiture.jpg", "tour.jpg", "vipere.jpg")

  lemma PicturesDistinct()
    ensures Distinct5("maison.jpg", "plage.jpg", "voiture.jpg", "tour.jpg", "vipere.jpg")
  {
    assert "maison.jpg"[0] != "vipere.jpg"[0];
  }

  /** uniquify on allpairstest gives exactly the four best pairs the source records. */
  lemma UniquifyOnTestTable(best: map<string, CompRes>)
    requires IsBestPairs(TestTable, best)
    ensures best == ExpectedBest
  {
    PicturesDistinct();
    UniquifyOnTable("maison.jpg", "plage.jpg", "voiture.jpg", "tour.jpg", "vipere.jpg", best);
  }

  /** bestPairsToSortedPairs on those best pairs can only return maison, plage, tour, voiture. */
  lemma RankingOfTestTable(s: seq<RankedPair>)
    requires IsListing(s, ExpectedBest) && SortedByRank(s)
    ensures s == ExpectedRanking
  {
    PicturesDistinct();
    RankingOfBest("maison.jpg", "plage.jpg", "voiture.jpg", "tour.jpg", "vipere.jpg", s);
  }

  /** renameAll on that ranking copies maison, plage, voiture, tour, vipere to 0, 1, 3, 4, 5. */
  lemma PlanOfTestRanking(dir: string)
    ensures Plan(dir, Slots(ExpectedRanking)) ==
            [Copy("maison.jpg", Target(dir, 0, "maison.jpg")), Copy("plage.jpg", Target(dir, 1, "plage.jpg")),
             Copy("voiture.jpg", Target(dir, 3, "voiture.jpg")), Copy("tour.jpg", Target(dir, 4, "tour.jpg")),
             Copy("vipere.jpg", Target(dir, 5, "vipere.jpg"))]
  {
    PicturesDistinct();
    PlanOfRanking(dir, "maison.jpg", "plage.jpg", "voiture.jpg", "tour.jpg", "vipere.jpg");
  }
}
