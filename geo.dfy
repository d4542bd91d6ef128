/**
 The arithmetic behind the two meeting points of app.js: sums over the
 registered points, the weighted and the unweighted planar mean of their
 latitudes and longitudes, and what those means are known to satisfy.
 Coordinates and head-counts are exact reals.
 */
module Geo {

  import opened Wrappers

  /** A registered point: where the map was clicked and how many people are there. */
  datatype Point = Point(lat: real, lng: real, people: real)

  /** A computed position on the map. */
  datatype LatLng = LatLng(lat: real, lng: real)

  // The per-point quantities that calculateCentroids adds up.
  function Lat(p: Point): real { p.lat }
  function Lng(p: Point): real { p.lng }
  function People(p: Point): real { p.people }

  /** `f` multiplied by the point's head-count, as the weighted loop adds it up. */
  function Weighted(f: Point -> real): Point -> real
  {
    p => f(p) * p.people
  }

  /** The sum of `f` over `s`, added up front to back as a forEach loop does. */
  function Sum(s: seq<Point>, f: Point -> real): real
  {
    if s == [] then 0.0 else Sum(s[..|s| - 1], f) + f(s[|s| - 1])
  }

  /**
   The head-count weighted mean: the sum of lat * people over the sum of
   people, and the same for longitude. Absent when the head-counts add up
   to zero, where app.js divides by zero.
   */
  function WeightedCentroid(s: seq<Point>): Option<LatLng>
  {
    var total := Sum(s, People);
    if total == 0.0 then None
    else Some(LatLng(Sum(s, Weighted(Lat)) / total, Sum(s, Weighted(Lng)) / total))
  }

  /** The plain mean of latitudes and of longitudes over the `|s|` points. */
  function SimpleCentroid(s: seq<Point>): LatLng
    requires s != []
  {
    LatLng(Sum(s, Lat) / |s| as real, Sum(s, Lng) / |s| as real)
  }

  /** The smallest value of `f` over the points. */
  function MinOf(s: seq<Point>, f: Point -> real): (m: real)
    requires s != []
    ensures exists i :: 0 <= i < |s| && f(s[i]) == m
    ensures forall i :: 0 <= i < |s| ==> m <= f(s[i])
  {
    if |s| == 1 then f(s[0])
    else
      var m' := MinOf(s[..|s| - 1], f);
      if f(s[|s| - 1]) < m' then f(s[|s| - 1]) else m'
  }

  /** The largest value of `f` over the points. */
  function MaxOf(s: seq<Point>, f: Point -> real): (m: real)
    requires s != []
    ensures exists i :: 0 <= i < |s| && f(s[i]) == m
    ensures forall i :: 0 <= i < |s| ==> f(s[i]) <= m
  {
    if |s| == 1 then f(s[0])
    else
      var m' := MaxOf(s[..|s| - 1], f);
      if m' < f(s[|s| - 1]) then f(s[|s| - 1]) else m'
  }

  // ---------------------------------------------------------------------
  // Facts about Sum
  // ---------------------------------------------------------------------

  /** A sum over a concatenation is the sum of the two sums. */
  lemma {:induction false} SumAppend(a: seq<Point>, b: seq<Point>, f: Point -> real)
    ensures Sum(a + b, f) == Sum(a, f) + Sum(b, f)
  {
    if b == [] {
      assert a + b == a;
    } else {
      var b' := b[..|b| - 1];
      assert (a + b)[..|a + b| - 1] == a + b';
      SumAppend(a, b', f);
    }
  }

  /** Taking out the element at index `j` leaves the sum of the rest plus that element. */
  lemma SumRemoveAt(t: seq<Point>, j: int, f: Point -> real)
    requires 0 <= j < |t|
    ensures Sum(t, f) == Sum(t[..j] + t[j + 1..], f) + f(t[j])
  {
    var front, x, back := t[..j], t[j], t[j + 1..];
    assert t == front + ([x] + back);
    SumAppend(front, [x] + back, f);
    assert Sum([x], f) == f(x) by { assert [x][..0] == []; }
    SumAppend([x], back, f);
    SumAppend(front, back, f);
  }

  /** The order in which the points were registered does not matter to a sum. */
  lemma {:induction false} SumPermutation(s: seq<Point>, t: seq<Point>, f: Point -> real)
    requires multiset(s) == multiset(t)
    ensures Sum(s, f) == Sum(t, f)
    decreases |s|
  {
    if s == [] {
      assert |t| == |multiset(t)| == 0;
    } else {
      var x := s[|s| - 1];
      var s' := s[..|s| - 1];
      assert s == s' + [x];
      assert x in multiset(t);
      var j :| 0 <= j < |t| && t[j] == x;
      var t' := t[..j] + t[j + 1..];
      assert t == t[..j] + [x] + t[j + 1..];
      assert multiset(t') == multiset(t) - multiset{x};
      SumPermutation(s', t', f);
      SumRemoveAt(t, j, f);
    }
  }

  /** With every head-count equal to `w`, the head-count total is `w` times the number of points. */
  lemma {:induction false} UniformTotal(s: seq<Point>, w: real)
    requires forall i :: 0 <= i < |s| ==> s[i].people == w
    ensures Sum(s, People) == w * |s| as real
  {
    if s != [] {
      var s' := s[..|s| - 1];
      UniformTotal(s', w);
      Distribute(w, |s'| as real, 1.0);
    }
  }

  /** With every head-count equal to `w`, a weighted sum is `w` times the plain sum. */
  lemma {:induction false} UniformSum(s: seq<Point>, w: real, f: Point -> real)
    requires forall i :: 0 <= i < |s| ==> s[i].people == w
    ensures Sum(s, Weighted(f)) == w * Sum(s, f)
  {
    if s != [] {
      var s', x := s[..|s| - 1], s[|s| - 1];
      UniformSum(s', w, f);
      assert Weighted(f)(x) == w * f(x);
      Distribute(w, Sum(s', f), f(x));
    }
  }

  /** Where `f` is at least `lo` on every point, its sum is at least `lo` times the count. */
  lemma {:induction false} SumAbove(s: seq<Point>, f: Point -> real, lo: real)
    requires forall i :: 0 <= i < |s| ==> lo <= f(s[i])
    ensures lo * |s| as real <= Sum(s, f)
  {
    if s != [] {
      var s' := s[..|s| - 1];
      SumAbove(s', f, lo);
      Distribute(lo, |s'| as real, 1.0);
    }
  }

  /** Where `f` is at most `hi` on every point, its sum is at most `hi` times the count. */
  lemma {:induction false} SumBelow(s: seq<Point>, f: Point -> real, hi: real)
    requires forall i :: 0 <= i < |s| ==> f(s[i]) <= hi
    ensures Sum(s, f) <= hi * |s| as real
  {
    if s != [] {
      var s' := s[..|s| - 1];
      SumBelow(s', f, hi);
      Distribute(hi, |s'| as real, 1.0);
    }
  }

  /** A non-empty run of positive head-counts has a positive total. */
  lemma {:induction false} SumPeoplePositive(s: seq<Point>)
    requires s != []
    requires forall i :: 0 <= i < |s| ==> s[i].people > 0.0
    ensures Sum(s, People) > 0.0
  {
    if |s| > 1 {
      SumPeoplePositive(s[..|s| - 1]);
    }
  }

  /** Where `f` is at least `lo` and head-counts are positive, the weighted sum is at least `lo` times the total. */
  lemma {:induction false} WeightedSumAbove(s: seq<Point>, f: Point -> real, lo: real)
    requires forall i :: 0 <= i < |s| ==> s[i].people > 0.0 && lo <= f(s[i])
    ensures lo * Sum(s, People) <= Sum(s, Weighted(f))
  {
    if s != [] {
      var s', x := s[..|s| - 1], s[|s| - 1];
      WeightedSumAbove(s', f, lo);
      assert Weighted(f)(x) == f(x) * x.people;
      StepAbove(lo, Sum(s', People), Sum(s', Weighted(f)), f(x), x.people);
    }
  }

  /** Where `f` is at most `hi` and head-counts are positive, the weighted sum is at most `hi` times the total. */
  lemma {:induction false} WeightedSumBelow(s: seq<Point>, f: Point -> real, hi: real)
    requires forall i :: 0 <= i < |s| ==> s[i].people > 0.0 && f(s[i]) <= hi
    ensures Sum(s, Weighted(f)) <= hi * Sum(s, People)
  {
    if s != [] {
      var s', x := s[..|s| - 1], s[|s| - 1];
      WeightedSumBelow(s', f, hi);
      assert Weighted(f)(x) == f(x) * x.people;
      StepBelow(hi, Sum(s', People), Sum(s', Weighted(f)), f(x), x.people);
    }
  }

  // Real-arithmetic steps, kept apart so that each proof sees only a few products.

  lemma Distribute(c: real, a: real, b: real)
    ensures c * (a + b) == c * a + c * b
  {
  }

  lemma StepAbove(lo: real, total: real, sum: real, v: real, c: real)
    requires lo * total <= sum && lo <= v && c > 0.0
    ensures lo * (total + c) <= sum + v * c
  {
    Distribute(lo, total, c);
    assert lo * c <= v * c;
  }

  lemma StepBelow(hi: real, total: real, sum: real, v: real, c: real)
    requires sum <= hi * total && v <= hi && c > 0.0
    ensures sum + v * c <= hi * (total + c)
  {
    Distribute(hi, total, c);
    assert v * c <= hi * c;
  }

  lemma ScaledRatio(weighted: real, total: real, plain: real, w: real, n: real)
    requires w != 0.0 && n > 0.0
    requires weighted == w * plain && total == w * n
    ensures total != 0.0 && weighted / total == plain / n
  {
    assert (plain / n) * (w * n) == w * plain;
  }

  lemma DivBounds(a: real, b: real, lo: real, hi: real)
    requires b > 0.0 && lo * b <= a <= hi * b
    ensures lo <= a / b <= hi
  {
  }

  // ---------------------------------------------------------------------
  // Properties of the two centroids
  // ---------------------------------------------------------------------

  /** Both centroids depend only on which points were registered, not on their order. */
  lemma CentroidsIgnoreOrder(s: seq<Point>, t: seq<Point>)
    requires multiset(s) == multiset(t)
    ensures WeightedCentroid(s) == WeightedCentroid(t)
    ensures s != [] ==> t != [] && SimpleCentroid(s) == SimpleCentroid(t)
  {
    SumPermutation(s, t, People);
    SumPermutation(s, t, Weighted(Lat));
    SumPermutation(s, t, Weighted(Lng));
    SumPermutation(s, t, Lat);
    SumPermutation(s, t, Lng);
    assert |s| == |multiset(s)| == |multiset(t)| == |t|;
  }

  /**
   When every point carries the same non-zero head-count, weighting changes
   nothing: the weighted centroid exists and equals the plain one.
   */
  lemma UniformWeightsAgree(s: seq<Point>, w: real)
    requires s != [] && w != 0.0
    requires forall i :: 0 <= i < |s| ==> s[i].people == w
    ensures WeightedCentroid(s) == Some(SimpleCentroid(s))
  {
    UniformTotal(s, w);
    UniformSum(s, w, Lat);
    UniformSum(s, w, Lng);
    var n := |s| as real;
    ScaledRatio(Sum(s, Weighted(Lat)), Sum(s, People), Sum(s, Lat), w, n);
    ScaledRatio(Sum(s, Weighted(Lng)), Sum(s, People), Sum(s, Lng), w, n);
  }

  /** The plain centroid lies within the latitude and longitude range of the points. */
  lemma SimpleCentroidInRange(s: seq<Point>)
    requires s != []
    ensures MinOf(s, Lat) <= SimpleCentroid(s).lat <= MaxOf(s, Lat)
    ensures MinOf(s, Lng) <= SimpleCentroid(s).lng <= MaxOf(s, Lng)
  {
    MeanBounds(s, Lat, MinOf(s, Lat), MaxOf(s, Lat));
    MeanBounds(s, Lng, MinOf(s, Lng), MaxOf(s, Lng));
  }

  /** Where `f` lies between `lo` and `hi` on every point, so does its mean. */
  lemma MeanBounds(s: seq<Point>, f: Point -> real, lo: real, hi: real)
    requires s != []
    requires forall i :: 0 <= i < |s| ==> lo <= f(s[i]) <= hi
    ensures lo <= Sum(s, f) / |s| as real <= hi
  {
    SumAbove(s, f, lo);
    SumBelow(s, f, hi);
    DivBounds(Sum(s, f), |s| as real, lo, hi);
  }

  /**
   When every head-count is positive the weighted centroid exists and lies
   within the latitude and longitude range of the points.
   */
  lemma WeightedCentroidInRange(s: seq<Point>)
    requires s != []
    requires forall i :: 0 <= i < |s| ==> s[i].people > 0.0
    ensures WeightedCentroid(s).Some?
    ensures MinOf(s, Lat) <= WeightedCentroid(s).value.lat <= MaxOf(s, Lat)
    ensures MinOf(s, Lng) <= WeightedCentroid(s).value.lng <= MaxOf(s, Lng)
  {
    SumPeoplePositive(s);
    WeightedMeanBounds(s, Lat, MinOf(s, Lat), MaxOf(s, Lat));
    WeightedMeanBounds(s, Lng, MinOf(s, Lng), MaxOf(s, Lng));
  }

  /**
   Where `f` lies between `lo` and `hi` on every point and every head-count
   is positive, so does the head-count weighted mean of `f`.
   */
  lemma WeightedMeanBounds(s: seq<Point>, f: Point -> real, lo: real, hi: real)
    requires forall i :: 0 <= i < |s| ==> s[i].people > 0.0
    requires forall i :: 0 <= i < |s| ==> lo <= f(s[i]) <= hi
    requires Sum(s, People) > 0.0
    ensures lo <= Sum(s, Weighted(f)) / Sum(s, People) <= hi
  {
    WeightedSumAbove(s, f, lo);
    WeightedSumBelow(s, f, hi);
    DivBounds(Sum(s, Weighted(f)), Sum(s, People), lo, hi);
  }
}
