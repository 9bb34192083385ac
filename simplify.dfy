/**
 * Ramer-Douglas-Peucker simplification of a pen stroke. The distance of a
 * point from the line through two others is a floating-point computation of
 * its own; here it is the parameter `dist`, about which nothing is assumed.
 * The result is described by `kept`, the positions of the input it keeps.
 */
module Simplify {

  datatype Point = Point(x: real, y: real)

  /** `kept` lists, in increasing order, the positions of `points` that make up `r`. */
  predicate Embedding(r: seq<Point>, points: seq<Point>, kept: seq<int>)
  {
    && |kept| == |r|
    && (forall k :: 0 <= k < |kept| ==> 0 <= kept[k] < |points| && r[k] == points[kept[k]])
    && (forall k, l :: 0 <= k < l < |kept| ==> kept[k] < kept[l])
  }

  /** Point `j` lies within `epsilon` of the line through points `a` and `b`. */
  predicate Close(points: seq<Point>, j: int, a: int, b: int, epsilon: real, dist: (Point, Point, Point) -> real)
    requires 0 <= j < |points| && 0 <= a < |points| && 0 <= b < |points|
  {
    dist(points[j], points[a], points[b]) <= epsilon
  }

  /** Every point strictly between positions `a` and `b` lies within `epsilon` of the line through them. */
  predicate SegmentClose(points: seq<Point>, a: int, b: int, epsilon: real, dist: (Point, Point, Point) -> real)
    requires 0 <= a < |points| && 0 <= b < |points|
  {
    forall j :: a < j < b ==> Close(points, j, a, b, epsilon, dist)
  }

  /** Every dropped point lies within `epsilon` of the line through its two kept neighbours. */
  predicate WithinTolerance(points: seq<Point>, kept: seq<int>, epsilon: real, dist: (Point, Point, Point) -> real)
    requires forall k :: 0 <= k < |kept| ==> 0 <= kept[k] < |points|
  {
    forall k :: 0 <= k < |kept| - 1 ==> SegmentClose(points, kept[k], kept[k + 1], epsilon, dist)
  }

  /** The positions of `s`, each moved up by `d`. */
  function Shift(s: seq<int>, d: int): (r: seq<int>)
    ensures |r| == |s| && forall k :: 0 <= k < |s| ==> r[k] == s[k] + d
  {
    seq(|s|, k requires 0 <= k < |s| => s[k] + d)
  }

  /**
   * The interior point farthest from the line through the two end points:
   * the FIRST one at the largest distance, provided that distance is
   * positive; otherwise position 0 and distance 0.
   */
  method FarthestPoint(points: seq<Point>, dist: (Point, Point, Point) -> real) returns (index: int, dmax: real)
    requires |points| >= 2
    ensures dmax >= 0.0
    ensures forall i :: 0 < i < |points| - 1 ==> dist(points[i], points[0], points[|points| - 1]) <= dmax
    ensures index == 0 ==> dmax == 0.0
    ensures index != 0 ==>
              && 0 < index < |points| - 1
              && dmax == dist(points[index], points[0], points[|points| - 1]) && dmax > 0.0
              && forall i :: 0 < i < index ==> dist(points[i], points[0], points[|points| - 1]) < dmax
  {
    dmax, index := 0.0, 0;
    var end := |points| - 1;
    var i := 1;
    while i < end
      invariant 1 <= i <= end
      invariant dmax >= 0.0
      invariant forall j :: 0 < j < i && j < end ==> dist(points[j], points[0], points[end]) <= dmax
      invariant index == 0 ==> dmax == 0.0
      invariant index != 0 ==>
                  && 0 < index < i && index < end
                  && dmax == dist(points[index], points[0], points[end]) && dmax > 0.0
                  && forall j :: 0 < j < index ==> dist(points[j], points[0], points[end]) < dmax
    {
      var d := dist(points[i], points[0], points[end]);
      if d > dmax {
        index, dmax := i, d;
      }
      i := i + 1;
    }
  }

  /** Closeness within a slice of the stroke is closeness within the whole stroke. */
  lemma SliceSegmentClose(points: seq<Point>, lo: int, hi: int, a: int, b: int, epsilon: real,
                          dist: (Point, Point, Point) -> real)
    requires 0 <= lo <= hi <= |points| && 0 <= a < hi - lo && 0 <= b < hi - lo
    requires SegmentClose(points[lo..hi], a, b, epsilon, dist)
    ensures SegmentClose(points, a + lo, b + lo, epsilon, dist)
  {
    var part := points[lo..hi];
    var from, to := a + lo, b + lo;
    forall j | from < j < to ensures Close(points, j, from, to, epsilon, dist) {
      assert Close(part, j - lo, a, b, epsilon, dist);
      assert part[j - lo] == points[j] && part[a] == points[from] && part[b] == points[to];
    }
  }

  /** The positions kept by joining two halves split at `index`. */
  function Joined(k1: seq<int>, k2: seq<int>, index: int): (kept: seq<int>)
    requires |k1| >= 1
    ensures |kept| == |k1| - 1 + |k2|
    ensures forall k :: 0 <= k < |k1| - 1 ==> kept[k] == k1[k]
    ensures forall k :: |k1| - 1 <= k < |kept| ==> kept[k] == k2[k - |k1| + 1] + index
  {
    k1[..|k1| - 1] + Shift(k2, index)
  }

  /** The two halves' results, joined, embed in the whole stroke and keep its end points. */
  lemma JoinEmbedding(points: seq<Point>, index: int, r1: seq<Point>, k1: seq<int>, r2: seq<Point>, k2: seq<int>)
    requires 0 < index < |points| - 1
    requires Embedding(r1, points[..index + 1], k1) && |k1| >= 2 && k1[0] == 0 && k1[|k1| - 1] == index
    requires Embedding(r2, points[index..], k2) && |k2| >= 2 && k2[0] == 0 && k2[|k2| - 1] == |points| - 1 - index
    ensures var kept := Joined(k1, k2, index);
      && Embedding(r1[..|r1| - 1] + r2, points, kept)
      && |kept| >= 3 && kept[0] == 0 && kept[|kept| - 1] == |points| - 1
  {
    var a := |k1| - 1;
    var r := r1[..a] + r2;
    var kept := Joined(k1, k2, index);
    forall k | 0 <= k < |kept| ensures 0 <= kept[k] < |points| && r[k] == points[kept[k]] {
      if k < a {
        assert r[k] == r1[k] && r1[k] == points[..index + 1][k1[k]];
      } else {
        assert r[k] == r2[k - a] && r2[k - a] == points[index..][k2[k - a]];
      }
    }
    forall k, l | 0 <= k < l < |kept| ensures kept[k] < kept[l] {
      if k < a && a <= l {
        assert k1[k] < k1[a];
      }
    }
  }

  /** Every segment of the joined result is a segment of one of the halves. */
  lemma JoinTolerance(points: seq<Point>, index: int, epsilon: real, dist: (Point, Point, Point) -> real,
                      k1: seq<int>, k2: seq<int>)
    requires 0 < index < |points| - 1
    requires |k1| >= 2 && k1[|k1| - 1] == index && |k2| >= 2 && k2[0] == 0
    requires forall k :: 0 <= k < |k1| ==> 0 <= k1[k] <= index
    requires forall k :: 0 <= k < |k2| ==> 0 <= k2[k] < |points| - index
    requires WithinTolerance(points[..index + 1], k1, epsilon, dist)
    requires WithinTolerance(points[index..], k2, epsilon, dist)
    ensures forall k :: 0 <= k < |Joined(k1, k2, index)| ==> 0 <= Joined(k1, k2, index)[k] < |points|
    ensures WithinTolerance(points, Joined(k1, k2, index), epsilon, dist)
  {
    var a := |k1| - 1;
    var kept := Joined(k1, k2, index);
    assert points[..index + 1] == points[0..index + 1];
    assert points[index..] == points[index..|points|];
    forall k | 0 <= k < |kept| - 1
      ensures SegmentClose(points, kept[k], kept[k + 1], epsilon, dist)
    {
      if k + 1 <= a {
        SliceSegmentClose(points, 0, index + 1, k1[k], k1[k + 1], epsilon, dist);
      } else {
        SliceSegmentClose(points, index, |points|, k2[k - a], k2[k - a + 1], epsilon, dist);
      }
    }
  }

  /**
   * Simplifies a stroke with tolerance `epsilon`. Fewer than two points come
   * back unchanged. Otherwise the result keeps the first and the last point
   * and a subsequence of the others, and every dropped point is within
   * `epsilon` of the segment between its kept neighbours; the result is the
   * two end points alone exactly when every interior point is within
   * `epsilon` of the line through them.
   */
  method RamerDouglasPeucker(points: seq<Point>, epsilon: real, dist: (Point, Point, Point) -> real)
    returns (r: seq<Point>, ghost kept: seq<int>)
    requires |points| < 2 || epsilon >= 0.0
    ensures |points| < 2 ==> r == points
    ensures |points| >= 2 ==>
              && Embedding(r, points, kept)
              && |kept| >= 2 && kept[0] == 0 && kept[|kept| - 1] == |points| - 1
              && WithinTolerance(points, kept, epsilon, dist)
    ensures |points| >= 2 && (forall i :: 0 < i < |points| - 1 ==> dist(points[i], points[0], points[|points| - 1]) <= epsilon) ==>
              r == [points[0], points[|points| - 1]]
    ensures |points| >= 2 && (exists i :: 0 < i < |points| - 1 && dist(points[i], points[0], points[|points| - 1]) > epsilon) ==>
              |r| >= 3
    decreases |points|
  {
    if |points| < 2 {
      return points, [];
    }
    var index, dmax := FarthestPoint(points, dist);
    var end := |points| - 1;
    if dmax > epsilon {
      var r1, k1 := RamerDouglasPeucker(points[..index + 1], epsilon, dist);
      var r2, k2 := RamerDouglasPeucker(points[index..], epsilon, dist);
      JoinEmbedding(points, index, r1, k1, r2, k2);
      JoinTolerance(points, index, epsilon, dist, k1, k2);
      r := r1[..|r1| - 1] + r2;
      kept := Joined(k1, k2, index);
    } else {
      r := [points[0], points[end]];
      kept := [0, end];
    }
  }
}
