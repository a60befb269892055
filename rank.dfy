/**
 * `sortedPairs` and `bestPairsToSortedPairs` (histo.go:272-308): turn the
 * best-match table into a slice of ranked pairs and sort it in place by
 * non-increasing |rank|.
 */
module Rank {
  import opened Types

  /** sortedPairs.Less: element i goes before element j when its |rank| is larger. */
  predicate Less(s: seq<RankedPair>, i: nat, j: nat)
    requires i < |s| && j < |s|
  {
    Abs(s[i].rank) > Abs(s[j].rank)
  }

  /** What sort.Sort guarantees: no element is Less than one placed before it. */
  predicate SortedByRank(s: seq<RankedPair>)
  {
    forall i, j :: 0 <= i < j < |s| ==> !Less(s, j, i)
  }

  /**
   * Less is a strict weak ordering, as sort.Interface asks: irreflexive,
   * transitive, and "neither is Less than the other" is transitive too.
   */
  lemma LessIsStrictWeakOrder(s: seq<RankedPair>, i: nat, j: nat, l: nat)
    requires i < |s| && j < |s| && l < |s|
    ensures !Less(s, i, i)
    ensures Less(s, i, j) && Less(s, j, l) ==> Less(s, i, l)
    ensures !Less(s, i, j) && !Less(s, j, i) && !Less(s, j, l) && !Less(s, l, j) ==>
              !Less(s, i, l) && !Less(s, l, i)
  {
  }

  /** sortedPairs.Swap. */
  method Swap(a: array<RankedPair>, i: nat, j: nat)
    requires i < a.Length && j < a.Length
    modifies a
    ensures a[..] == old(a[..])[i := old(a[j])][j := old(a[i])]
    ensures multiset(a[..]) == old(multiset(a[..]))
  {
    a[i], a[j] := a[j], a[i];
  }

  /** The first n elements of a are in non-increasing |rank| order. */
  ghost predicate SortedPrefix(a: array<RankedPair>, n: nat)
    reads a
  {
    forall p, q :: 0 <= p < q < n && q < a.Length ==> Abs(a[p].rank) >= Abs(a[q].rank)
  }

  /** One pass of the insertion sort: move a[i] left past every element it is Less than. */
  method Insert(a: array<RankedPair>, i: nat)
    requires i < a.Length
    requires SortedPrefix(a, i)
    modifies a
    ensures SortedPrefix(a, i + 1)
    ensures multiset(a[..]) == old(multiset(a[..]))
    ensures a[i + 1..] == old(a[i + 1..])
  {
    var j := i;
    while j > 0 && Less(a[..], j, j - 1)
      invariant 0 <= j <= i
      invariant a[i + 1..] == old(a[i + 1..])
      invariant forall p, q :: 0 <= p < q <= i && p != j && q != j ==> Abs(a[p].rank) >= Abs(a[q].rank)
      invariant forall q :: j < q <= i ==> Abs(a[j].rank) > Abs(a[q].rank)
      invariant multiset(a[..]) == old(multiset(a[..]))
    {
      Swap(a, j, j - 1);
      j := j - 1;
    }
  }

  /**
   * sort.Sort(s) over Len/Less/Swap, as an insertion sort. Only the library's
   * promise is stated: a sorted permutation, whatever the order of ties.
   */
  method Sort(a: array<RankedPair>)
    modifies a
    ensures SortedByRank(a[..])
    ensures multiset(a[..]) == old(multiset(a[..]))
  {
    var i := 0;
    while i < a.Length
      invariant 0 <= i <= a.Length
      invariant SortedPrefix(a, i)
      invariant multiset(a[..]) == old(multiset(a[..]))
    {
      Insert(a, i);
      i := i + 1;
    }
    assert forall p, q :: 0 <= p < q < a.Length ==> !Less(a[..], q, p);
  }

  /** The ranked pair the source builds from key k of the best-match table. */
  function Entry(m: map<string, CompRes>, k: string): RankedPair
    requires k in m
  {
    RankedPair(k, m[k].file, m[k].score)
  }

  /**
   * s lists the entries of m, each exactly once: one element per key, and
   * every element is (k, m[k].file, m[k].score) for its own key k.
   */
  predicate IsListing(s: seq<RankedPair>, m: map<string, CompRes>)
  {
    && |s| == |m|
    && (forall j :: 0 <= j < |s| ==> s[j].pic1 in m && s[j] == Entry(m, s[j].pic1))
    && (forall i, j :: 0 <= i < j < |s| ==> s[i].pic1 != s[j].pic1)
    && (forall k :: k in m ==> exists j :: 0 <= j < |s| && s[j].pic1 == k)
  }

  /**
   * f lists the entries of m whose keys are not in todo, each once: the state
   * of bestPairsToSortedPairs' fill loop once it has visited m.Keys - todo.
   */
  predicate ListedSoFar(f: seq<RankedPair>, m: map<string, CompRes>, todo: set<string>)
  {
    && (forall j :: 0 <= j < |f| ==> f[j].pic1 in m && f[j].pic1 !in todo && f[j] == Entry(m, f[j].pic1))
    && (forall p, q :: 0 <= p < q < |f| ==> f[p].pic1 != f[q].pic1)
    && (forall k :: k in m && k !in todo ==> exists j :: 0 <= j < |f| && f[j].pic1 == k)
  }

  lemma ListedSoFarSnoc(f: seq<RankedPair>, m: map<string, CompRes>, todo: set<string>, k: string)
    requires ListedSoFar(f, m, todo) && k in todo && k in m
    ensures ListedSoFar(f + [Entry(m, k)], m, todo - {k})
  {
    var g := f + [Entry(m, k)];
    forall k' | k' in m && k' !in todo - {k}
      ensures exists j :: 0 <= j < |g| && g[j].pic1 == k'
    {
      if k' == k {
        assert g[|f|].pic1 == k';
      } else {
        var j :| 0 <= j < |f| && f[j].pic1 == k';
        assert g[j] == f[j];
      }
    }
  }

  /**
   * The loop of bestPairsToSortedPairs: a fresh slice of len(m) ranked
   * pairs, filled in map iteration order (an arbitrary order here).
   */
  method FillPairs(m: map<string, CompRes>) returns (a: array<RankedPair>)
    ensures fresh(a)
    ensures IsListing(a[..], m)
  {
    a := new RankedPair[|m|];
    var i := 0;
    var todo := m.Keys;
    ghost var filled: seq<RankedPair> := [];
    while todo != {}
      invariant todo <= m.Keys
      invariant i + |todo| == |m|
      invariant |filled| == i && a[..i] == filled
      invariant ListedSoFar(filled, m, todo)
      decreases todo
    {
      var k :| k in todo;
      a[i] := Entry(m, k);
      ListedSoFarSnoc(filled, m, todo, k);
      filled := filled + [Entry(m, k)];
      i := i + 1;
      todo := todo - {k};
    }
    assert a[..] == filled;
  }

  /** bestPairsToSortedPairs: the entries of m, each once, by non-increasing |rank|. */
  method BestPairsToSortedPairs(m: map<string, CompRes>) returns (s: seq<RankedPair>)
    ensures IsListing(s, m)
    ensures SortedByRank(s)
  {
    var a := FillPairs(m);
    ghost var filled := a[..];
    Sort(a);
    s := a[..];
    PermutationKeepsListing(filled, s, m);
  }

  // ---------------------------------------------------------------------------
  // Permutations of a listing

  lemma {:induction false} AtMostOnce(s: seq<RankedPair>, x: RankedPair)
    requires forall i, j :: 0 <= i < j < |s| ==> s[i].pic1 != s[j].pic1
    ensures multiset(s)[x] <= 1
  {
    if s != [] {
      var init := s[..|s| - 1];
      assert s == init + [s[|s| - 1]];
      AtMostOnce(init, x);
      if s[|s| - 1] == x {
        assert x !in init;
      }
    }
  }

  lemma TwoCopies(s: seq<RankedPair>, i: nat, j: nat)
    requires i < j < |s| && s[i] == s[j]
    ensures multiset(s)[s[i]] >= 2
  {
    assert s == s[..j] + s[j..];
    assert s[i] in s[..j];
    assert s[j] in s[j..];
  }

  /** Reordering a listing keeps it a listing: this is what makes the sorted slice a permutation of the table's entries. */
  lemma PermutationKeepsListing(a: seq<RankedPair>, b: seq<RankedPair>, m: map<string, CompRes>)
    requires IsListing(a, m)
    requires multiset(a) == multiset(b)
    ensures IsListing(b, m)
  {
    assert |a| == |multiset(a)| == |multiset(b)| == |b|;
    forall j | 0 <= j < |b|
      ensures b[j].pic1 in m && b[j] == Entry(m, b[j].pic1)
    {
      assert b[j] in multiset(a);
      var i :| 0 <= i < |a| && a[i] == b[j];
    }
    forall k | k in m
      ensures exists j :: 0 <= j < |b| && b[j].pic1 == k
    {
      var i :| 0 <= i < |a| && a[i].pic1 == k;
      assert a[i] in multiset(b);
      var j :| 0 <= j < |b| && b[j] == a[i];
    }
    forall i, j | 0 <= i < j < |b|
      ensures b[i].pic1 != b[j].pic1
    {
      if b[i].pic1 == b[j].pic1 {
        TwoCopies(b, i, j);
        AtMostOnce(a, b[i]);
        assert false;
      }
    }
  }

  // ---------------------------------------------------------------------------
  // Without ties the order is determined

  /** No two keys of m have best matches of the same |score|. */
  predicate NoTies(m: map<string, CompRes>)
  {
    forall k1, k2 :: k1 in m && k2 in m && k1 != k2 ==> Abs(m[k1].score) != Abs(m[k2].score)
  }

  /**
   * When no two best matches tie on |score|, there is only one sorted
   * listing: the unstable sort and the random map order cannot change the
   * result.
   */
  lemma SortedListingUnique(s: seq<RankedPair>, t: seq<RankedPair>, m: map<string, CompRes>)
    requires IsListing(s, m) && IsListing(t, m)
    requires SortedByRank(s) && SortedByRank(t)
    requires NoTies(m)
    ensures s == t
  {
    PrefixesAgree(s, t, m, |s|);
    assert s == s[..|s|] && t == t[..|t|];
  }

  lemma {:induction false} PrefixesAgree(s: seq<RankedPair>, t: seq<RankedPair>, m: map<string, CompRes>, n: nat)
    requires IsListing(s, m) && IsListing(t, m)
    requires SortedByRank(s) && SortedByRank(t)
    requires NoTies(m)
    requires n <= |s|
    ensures s[..n] == t[..n]
  {
    if n > 0 {
      PrefixesAgree(s, t, m, n - 1);
      NextAgrees(s, t, m, n - 1);
      assert s[..n] == s[..n - 1] + [s[n - 1]];
      assert t[..n] == t[..n - 1] + [t[n - 1]];
    }
  }

  /**
   * Two sorted listings of a table without ties that agree before position n
   * agree at n as well.
   */
  lemma NextAgrees(s: seq<RankedPair>, t: seq<RankedPair>, m: map<string, CompRes>, n: nat)
    requires IsListing(s, m) && IsListing(t, m)
    requires SortedByRank(s) && SortedByRank(t)
    requires NoTies(m)
    requires n < |s| && s[..n] == t[..n]
    ensures s[n] == t[n]
  {
    PrefixSame(s, t, n);
    var q :| 0 <= q < |t| && t[q].pic1 == s[n].pic1;
    var p :| 0 <= p < |s| && s[p].pic1 == t[n].pic1;
    assert q >= n;
    assert p >= n;
    LaterNotLarger(s, n, p);
    LaterNotLarger(t, n, q);
    assert Abs(m[s[n].pic1].score) == Abs(m[t[n].pic1].score);
  }

  lemma PrefixSame(s: seq<RankedPair>, t: seq<RankedPair>, n: nat)
    requires n <= |s| && n <= |t| && s[..n] == t[..n]
    ensures forall q :: 0 <= q < n ==> s[q] == t[q]
  {
    forall q | 0 <= q < n
      ensures s[q] == t[q]
    {
      assert s[q] == s[..n][q];
    }
  }

  lemma LaterNotLarger(s: seq<RankedPair>, n: nat, p: nat)
    requires SortedByRank(s) && n <= p < |s|
    ensures Abs(s[n].rank) >= Abs(s[p].rank)
  {
    assert p == n || !Less(s, p, n);
  }
}
