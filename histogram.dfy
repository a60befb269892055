/**
 * `Histo` (histo.go:20-38): the luma histogram of an image, and the dense
 * 256-slot count vectors that `diff4` builds from two histograms
 * (histo.go:153-158).
 */
module Histograms {
  import opened Types

  /** The pixels of an image in the order `Histo` visits them: row by row, left to right. */
  function Flatten(rows: seq<seq<Pixel>>): seq<Pixel>
  {
    if rows == [] then [] else Flatten(rows[..|rows| - 1]) + rows[|rows| - 1]
  }

  /** Number of pixels of `s` that are YCbCr with luma `v`. */
  function CountLevel(s: seq<Pixel>, v: Byte): nat
  {
    if s == [] then 0
    else CountLevel(s[..|s| - 1], v) + (if s[|s| - 1] == YCbCr(v) then 1 else 0)
  }

  predicate AllYCbCr(s: seq<Pixel>)
  {
    forall i :: 0 <= i < |s| ==> s[i].YCbCr?
  }

  /** The histogram of a run of pixels: every level that occurs, with its count. */
  function Tally(s: seq<Pixel>): Histogram
  {
    map v: Byte | 0 <= v < 256 && CountLevel(s, v) > 0 :: CountLevel(s, v)
  }

  /**
   * What `Histo` computes: the histogram of all pixels, or `None` when some
   * pixel is not YCbCr (the source panics with "not a YCbCr").
   */
  function HistoOf(im: Image): Option<Histogram>
  {
    var s := Flatten(im.rows);
    if AllYCbCr(s) then Some(Tally(s)) else None
  }

  /** `histo[v]` for a Go map: absent levels read as 0. */
  function Get(h: Histogram, v: int): nat
  {
    if 0 <= v < 256 && v in h then h[v] else 0
  }

  /** Sum of the counts of levels 0 .. n-1. */
  function LevelSum(h: Histogram, n: nat): nat
  {
    if n == 0 then 0 else LevelSum(h, n - 1) + Get(h, n - 1)
  }

  /** Sum of a count vector. */
  function Sum(x: seq<int>): int
  {
    if x == [] then 0 else Sum(x[..|x| - 1]) + x[|x| - 1]
  }

  /** The vector `diff4` builds from a histogram: slot i holds the count of level i. */
  function Dense(h: Histogram): seq<int>
  {
    seq(256, i requires 0 <= i < 256 => Get(h, i))
  }

  // ---------------------------------------------------------------------------
  // Histo, imperatively

  lemma TallySnoc(s: seq<Pixel>, l: Byte)
    ensures Tally(s + [YCbCr(l)]) ==
            if l in Tally(s) then Tally(s)[l := Tally(s)[l] + 1] else Tally(s)[l := 1]
  {
    var t := s + [YCbCr(l)];
    assert t[..|t| - 1] == s;
    forall v: Byte ensures CountLevel(t, v) == CountLevel(s, v) + (if v == l then 1 else 0) {
    }
  }

  lemma FlattenLength(rows: seq<seq<Pixel>>, w: nat)
    requires forall r :: 0 <= r < |rows| ==> |rows[r]| == w
    ensures |Flatten(rows)| == w * |rows|
  {
    if rows != [] {
      FlattenLength(rows[..|rows| - 1], w);
    }
  }

  lemma FlattenHasPixel(rows: seq<seq<Pixel>>, y: nat, x: nat)
    requires y < |rows| && x < |rows[y]|
    ensures rows[y][x] in Flatten(rows)
  {
    var init := rows[..|rows| - 1];
    if y < |rows| - 1 {
      assert init[y] == rows[y];
      FlattenHasPixel(init, y, x);
    } else {
      assert Flatten(rows)[|Flatten(init)| + x] == rows[y][x];
    }
  }

  /** Histo: count every pixel's luma; abort on the first pixel that is not YCbCr. */
  method Histo(im: Image) returns (r: Option<Histogram>)
    ensures r == HistoOf(im)
  {
    var histo: Histogram := map[];
    var w := im.width;
    var h := |im.rows|;
    var y := 0;
    while y < h
      invariant 0 <= y <= h
      invariant AllYCbCr(Flatten(im.rows[..y]))
      invariant histo == Tally(Flatten(im.rows[..y]))
    {
      ghost var done := Flatten(im.rows[..y]);
      var x := 0;
      assert done + im.rows[y][..x] == done;
      while x < w
        invariant 0 <= x <= w
        invariant AllYCbCr(done + im.rows[y][..x])
        invariant histo == Tally(done + im.rows[y][..x])
      {
        match im.rows[y][x]
        case OtherColor =>
          FlattenHasPixel(im.rows, y, x);
          return None;
        case YCbCr(l) =>
          TallySnoc(done + im.rows[y][..x], l);
          assert done + im.rows[y][..x + 1] == done + im.rows[y][..x] + [YCbCr(l)];
          if l in histo {
            histo := histo[l := histo[l] + 1];
          } else {
            histo := histo[l := 1];
          }
        x := x + 1;
      }
      assert im.rows[..y + 1][..y] == im.rows[..y];
      assert im.rows[y][..x] == im.rows[y];
      y := y + 1;
    }
    assert im.rows[..y] == im.rows;
    return Some(histo);
  }

  // ---------------------------------------------------------------------------
  // Counts sum to the number of pixels

  /** Sum over levels 0 .. n-1 of the per-level pixel counts. */
  function CountSum(s: seq<Pixel>, n: nat): nat
    requires n <= 256
  {
    if n == 0 then 0 else CountSum(s, n - 1) + CountLevel(s, n - 1)
  }

  lemma {:induction false} CountSumSnoc(s: seq<Pixel>, l: Byte, n: nat)
    requires n <= 256
    ensures CountSum(s + [YCbCr(l)], n) == CountSum(s, n) + (if l < n then 1 else 0)
  {
    if n > 0 {
      CountSumSnoc(s, l, n - 1);
      var t := s + [YCbCr(l)];
      assert t[..|t| - 1] == s;
    }
  }

  lemma {:induction false} CountSumAll(s: seq<Pixel>)
    requires AllYCbCr(s)
    ensures CountSum(s, 256) == |s|
  {
    if s == [] {
      ZeroCountSum(256);
    } else {
      var init := s[..|s| - 1];
      assert s == init + [YCbCr(s[|s| - 1].y)];
      CountSumAll(init);
      CountSumSnoc(init, s[|s| - 1].y, 256);
    }
  }

  lemma {:induction false} ZeroCountSum(n: nat)
    requires n <= 256
    ensures CountSum([], n) == 0
  {
    if n > 0 {
      ZeroCountSum(n - 1);
    }
  }

  lemma {:induction false} LevelSumOfTally(s: seq<Pixel>, n: nat)
    requires n <= 256
    ensures LevelSum(Tally(s), n) == CountSum(s, n)
  {
    if n > 0 {
      LevelSumOfTally(s, n - 1);
    }
  }

  /**
   * The counts of a histogram `Histo` returns add up to width * height, every
   * level it holds has count at least 1, and the count of level v is the
   * number of pixels with luma v.
   */
  lemma HistoCounts(im: Image, h: Histogram)
    requires HistoOf(im) == Some(h)
    ensures LevelSum(h, 256) == im.width * |im.rows|
    ensures forall v :: v in h ==> h[v] >= 1
    ensures forall v: Byte :: Get(h, v) == CountLevel(Flatten(im.rows), v)
  {
    var s := Flatten(im.rows);
    FlattenLength(im.rows, im.width);
    CountSumAll(s);
    LevelSumOfTally(s, 256);
  }

  /** A single pixel that is not YCbCr makes `Histo` fail, wherever it sits. */
  lemma NonYCbCrAborts(im: Image, y: nat, x: nat)
    requires y < |im.rows| && x < im.width
    requires im.rows[y][x] == OtherColor
    ensures HistoOf(im) == None
  {
    FlattenHasPixel(im.rows, y, x);
  }

  // ---------------------------------------------------------------------------
  // The dense vectors of diff4

  /** The loop of diff4 (histo.go:155-158): x[i] = histo1[i], y[i] = histo2[i], for i in 0..255. */
  method DenseVectors(h1: Histogram, h2: Histogram) returns (x: seq<int>, y: seq<int>)
    ensures |x| == 256 && |y| == 256
    ensures forall i :: 0 <= i < 256 ==> x[i] == Get(h1, i) && y[i] == Get(h2, i)
    ensures forall i :: 0 <= i < 256 && i !in h1 ==> x[i] == 0
    ensures forall i :: 0 <= i < 256 && i !in h2 ==> y[i] == 0
    ensures x == Dense(h1) && y == Dense(h2)
  {
    x, y := [], [];
    var i := 0;
    while i < 256
      invariant 0 <= i <= 256
      invariant |x| == i && |y| == i
      invariant forall j :: 0 <= j < i ==> x[j] == Get(h1, j) && y[j] == Get(h2, j)
    {
      x := x + [Get(h1, i)];
      y := y + [Get(h2, i)];
      i := i + 1;
    }
  }

  lemma {:induction false} DensePrefixSum(h: Histogram, n: nat)
    requires n <= 256
    ensures Sum(Dense(h)[..n]) == LevelSum(h, n)
  {
    if n > 0 {
      DensePrefixSum(h, n - 1);
      assert Dense(h)[..n][..n - 1] == Dense(h)[..n - 1];
    }
  }

  /** The dense vector of an image's histogram sums to the image's pixel count. */
  lemma DenseSumIsPixelCount(im: Image, h: Histogram)
    requires HistoOf(im) == Some(h)
    ensures Sum(Dense(h)) == im.width * |im.rows|
  {
    DensePrefixSum(h, 256);
    assert Dense(h)[..256] == Dense(h);
    HistoCounts(im, h);
  }
}
