/**
 * The value of an axis-aligned envelope: a min and a max coordinate vector of the same
 * length. The reference definitions of every envelope relation live here; the array-based
 * Envelope class and the queries are proved against them.
 *
 * Distances are kept SQUARED: the source takes Math.sqrt of a non-negative sum before
 * every comparison, and the square root is monotone, so every comparison is preserved.
 */
module Boxes {
  import opened Wrappers

  datatype Bounds = Bounds(min: seq<real>, max: seq<real>)

  /** Every Envelope object holds two arrays of one length. */
  type Box = b: Bounds | |b.min| == |b.max| witness Bounds([], [])

  function Dim(b: Box): nat { |b.min| }

  /** Envelope.isValid on two coordinate vectors. */
  predicate ValidBounds(lo: seq<real>, hi: seq<real>)
  {
    |lo| == |hi| && forall i :: 0 <= i < |lo| ==> lo[i] <= hi[i]
  }

  predicate Valid(b: Box) { ValidBounds(b.min, b.max) }

  /** The 2-D constructor Envelope(xmin, xmax, ymin, ymax). */
  function Box2D(xmin: real, xmax: real, ymin: real, ymax: real): (b: Box)
  {
    Bounds([xmin, ymin], [xmax, ymax])
  }

  /** The checking constructor Envelope(min, max) on values. */
  function MakeBox(lo: seq<real>, hi: seq<real>): (r: Result<Box>)
    ensures r.Ok? <==> ValidBounds(lo, hi)
    ensures r.Ok? ==> r.value.min == lo && r.value.max == hi && Valid(r.value)
    ensures r.Err? ==> r.error == IllegalArgument
  {
    if ValidBounds(lo, hi) then Ok(Bounds(lo, hi)) else Err(IllegalArgument)
  }

  /** a.intersects(b): same dimension and the closed intervals overlap on every axis. */
  predicate Intersects(a: Box, b: Box)
  {
    Dim(a) == Dim(b) &&
    forall i :: 0 <= i < Dim(a) ==> b.min[i] <= a.max[i] && b.max[i] >= a.min[i]
  }

  /** a.covers(b): same dimension and b lies inside a on every axis. */
  predicate Covers(a: Box, b: Box)
  {
    Dim(a) == Dim(b) &&
    forall i :: 0 <= i < Dim(a) ==> b.min[i] >= a.min[i] && b.max[i] <= a.max[i]
  }

  /** Envelope.equals: same dimension and the same bounds on every axis. */
  predicate SameBounds(a: Box, b: Box)
  {
    Dim(a) == Dim(b) &&
    forall i :: 0 <= i < Dim(a) ==> a.min[i] == b.min[i] && a.max[i] == b.max[i]
  }

  predicate IsPoint(b: Box)
  {
    forall i :: 0 <= i < Dim(b) ==> b.min[i] == b.max[i]
  }

  /** The componentwise max-of-mins and min-of-maxes. */
  function IntersectionOf(a: Box, b: Box): (c: Box)
    requires Dim(a) == Dim(b)
    ensures Dim(c) == Dim(a)
  {
    Bounds(seq(Dim(a), i requires 0 <= i < Dim(a) => Max(a.min[i], b.min[i])),
           seq(Dim(a), i requires 0 <= i < Dim(a) => Min(a.max[i], b.max[i])))
  }

  /** The componentwise min-of-mins and max-of-maxes: the smallest box around both. */
  function UnionOf(a: Box, b: Box): (c: Box)
    requires Dim(a) == Dim(b)
    ensures Dim(c) == Dim(a)
  {
    Bounds(seq(Dim(a), i requires 0 <= i < Dim(a) => Min(a.min[i], b.min[i])),
           seq(Dim(a), i requires 0 <= i < Dim(a) => Max(a.max[i], b.max[i])))
  }

  /** A point p lies in b on the first |p| axes. */
  predicate PointWithin(b: Box, p: seq<real>)
    requires |p| <= Dim(b)
  {
    forall i :: 0 <= i < |p| ==> b.min[i] <= p[i] <= b.max[i]
  }

  function Width(b: Box, d: nat): real
    requires d < Dim(b)
  {
    b.max[d] - b.min[d]
  }

  /** Product of the widths of the first n axes. */
  function WidthProduct(b: Box, n: nat): real
    requires n <= Dim(b)
  {
    if n == 0 then 1.0 else WidthProduct(b, n - 1) * Width(b, n - 1)
  }

  function Area(b: Box): real { WidthProduct(b, Dim(b)) }

  /** Envelope.distance(other, d): the signed gap between a and b on axis d. */
  function AxisGap(a: Box, b: Box, d: nat): real
    requires d < Dim(a) && d < Dim(b)
  {
    if a.min[d] < b.min[d] then b.min[d] - a.max[d] else a.min[d] - b.max[d]
  }

  /** A coordinate difference squared. */
  function Sq(x: real): real { x * x }

  function PositiveSquare(x: real): real { if x > 0.0 then Sq(x) else 0.0 }

  /** Sum of the squared positive gaps over the first n axes. */
  function GapSquares(a: Box, b: Box, n: nat): real
    requires n <= Dim(a) && n <= Dim(b)
  {
    if n == 0 then 0.0 else GapSquares(a, b, n - 1) + PositiveSquare(AxisGap(a, b, n - 1))
  }

  /** The square of Envelope.distance(other). */
  function BoxDistanceSq(a: Box, b: Box): real
    requires Dim(a) <= Dim(b)
  {
    if Intersects(a, b) then 0.0 else GapSquares(a, b, Dim(a))
  }

  /** The clamp distance of coordinate x to the interval [lo, hi]. */
  function Clamp(lo: real, hi: real, x: real): real
  {
    if x < lo then lo - x else if x > hi then x - hi else 0.0
  }

  function ClampSquares(b: Box, p: seq<real>, n: nat): real
    requires n <= |p| <= Dim(b)
  {
    if n == 0 then 0.0
    else ClampSquares(b, p, n - 1) + Sq(Clamp(b.min[n - 1], b.max[n - 1], p[n - 1]))
  }

  /** The square of rtree Envelope.distance(p): only the first |p| axes count. */
  function PointDistanceSq(b: Box, p: seq<real>): real
    requires |p| <= Dim(b)
  {
    ClampSquares(b, p, |p|)
  }

  /** Squared Euclidean distance between two points over the first n coordinates. */
  function PointPointSq(x: seq<real>, p: seq<real>, n: nat): real
    requires n <= |x| && n <= |p|
  {
    if n == 0 then 0.0 else PointPointSq(x, p, n - 1) + Sq(x[n - 1] - p[n - 1])
  }

  // ---------------------------------------------------------------- lemmas

  lemma MulPositive(x: real, y: real)
    requires x > 0.0 && y > 0.0
    ensures x * y > 0.0
  {
  }

  lemma MulMonotone(a: real, b: real, c: real)
    requires 0.0 <= a && b <= c
    ensures a * b <= a * c
  {
    assert a * (c - b) >= 0.0;
  }

  lemma SqFacts(x: real)
    ensures Sq(x) >= 0.0
    ensures Sq(x) == 0.0 <==> x == 0.0
    ensures Sq(-x) == Sq(x)
  {
    if x > 0.0 {
      calc { Sq(x); x * x; > { MulPositive(x, x); } 0.0; }
    } else if x < 0.0 {
      calc { Sq(x); (-x) * (-x); > { MulPositive(-x, -x); } 0.0; }
    }
    calc { Sq(-x); (-x) * (-x); x * x; Sq(x); }
  }

  lemma SqMonotone(a: real, b: real)
    requires 0.0 <= a <= b
    ensures Sq(a) <= Sq(b)
  {
    calc {
      Sq(a);
      a * a;
      <= { MulMonotone(a, a, b); }
      a * b;
      == b * a;
      <= { MulMonotone(b, a, b); }
      b * b;
      Sq(b);
    }
  }

  /** The 2-D constructor's bounds are valid exactly when xmin <= xmax and ymin <= ymax. */
  lemma Box2DValid(xmin: real, xmax: real, ymin: real, ymax: real)
    ensures Valid(Box2D(xmin, xmax, ymin, ymax)) <==> xmin <= xmax && ymin <= ymax
    ensures Dim(Box2D(xmin, xmax, ymin, ymax)) == 2
  {
    var b := Box2D(xmin, xmax, ymin, ymax);
    if xmin <= xmax && ymin <= ymax {
      assert forall i :: 0 <= i < 2 ==> b.min[i] <= b.max[i];
    } else if xmin > xmax {
      assert !(b.min[0] <= b.max[0]);
    } else {
      assert !(b.min[1] <= b.max[1]);
    }
  }

  lemma IntersectsSymmetric(a: Box, b: Box)
    ensures Intersects(a, b) == Intersects(b, a)
  {
  }

  /** For a valid b, covers(a, b) implies intersects(a, b), in both argument orders. */
  lemma CoversImpliesIntersects(a: Box, b: Box)
    requires Valid(b) && Covers(a, b)
    ensures Intersects(a, b) && Intersects(b, a)
  {
  }

  /** The intersection of two intersecting valid boxes is valid and covered by both. */
  lemma IntersectionCovered(a: Box, b: Box)
    requires Valid(a) && Valid(b) && Intersects(a, b)
    ensures Valid(IntersectionOf(a, b))
    ensures Covers(a, IntersectionOf(a, b)) && Covers(b, IntersectionOf(a, b))
  {
  }

  /** Any box covered by both a and b is covered by their intersection, which exists. */
  lemma IntersectionGreatest(a: Box, b: Box, c: Box)
    requires Valid(c) && Covers(a, c) && Covers(b, c)
    ensures Intersects(a, b)
    ensures Covers(IntersectionOf(a, b), c)
  {
  }

  lemma CoversTransitive(a: Box, b: Box, c: Box)
    requires Covers(a, b) && Covers(b, c)
    ensures Covers(a, c)
  {
  }

  /** A box meeting something inside c meets c too. */
  lemma IntersectsCovering(c: Box, a: Box, b: Box)
    requires Valid(a) && Covers(c, a) && Intersects(a, b)
    ensures Intersects(c, b) && Intersects(b, c)
  {
  }

  /** For l inside c, meeting the clipped window c-and-r is the same as meeting r. */
  lemma IntersectsClipped(c: Box, l: Box, r: Box)
    requires Valid(l) && Covers(c, l) && Dim(r) == Dim(c)
    ensures Intersects(l, IntersectionOf(c, r)) <==> Intersects(l, r)
  {
  }

  /** Two meeting boxes, each inside its own parent, meet the parents' intersection. */
  lemma IntersectsShared(a: Box, b: Box, pa: Box, pb: Box)
    requires Valid(a) && Valid(b) && Covers(pa, a) && Covers(pb, b) && Intersects(a, b)
    ensures Intersects(a, IntersectionOf(pa, pb)) && Intersects(b, IntersectionOf(pa, pb))
  {
  }

  /** The union covers both of its arguments and is valid when they are. */
  lemma UnionCovers(a: Box, b: Box)
    requires Dim(a) == Dim(b)
    ensures Covers(UnionOf(a, b), a) && Covers(UnionOf(a, b), b)
    ensures Valid(a) && Valid(b) ==> Valid(UnionOf(a, b))
  {
  }

  lemma {:induction false} GapSquaresNonNegative(a: Box, b: Box, n: nat)
    requires n <= Dim(a) && n <= Dim(b)
    ensures GapSquares(a, b, n) >= 0.0
  {
    if n > 0 {
      GapSquaresNonNegative(a, b, n - 1);
      SqFacts(AxisGap(a, b, n - 1));
    }
  }

  lemma {:induction false} GapSquaresPositive(a: Box, b: Box, n: nat, d: nat)
    requires d < n <= Dim(a) && n <= Dim(b)
    requires AxisGap(a, b, d) > 0.0
    ensures GapSquares(a, b, n) > 0.0
  {
    if d < n - 1 {
      GapSquaresPositive(a, b, n - 1, d);
      SqFacts(AxisGap(a, b, n - 1));
    } else {
      GapSquaresNonNegative(a, b, n - 1);
      SqFacts(AxisGap(a, b, d));
    }
  }

  /**
   * For valid boxes of one dimension the squared box distance is zero exactly when they
   * intersect, and positive otherwise.
   */
  lemma DistanceZeroIffIntersects(a: Box, b: Box)
    requires Valid(a) && Valid(b) && Dim(a) == Dim(b)
    ensures BoxDistanceSq(a, b) >= 0.0
    ensures BoxDistanceSq(a, b) == 0.0 <==> Intersects(a, b)
  {
    if !Intersects(a, b) {
      var d :| 0 <= d < Dim(a) && !(b.min[d] <= a.max[d] && b.max[d] >= a.min[d]);
      assert AxisGap(a, b, d) > 0.0;
      GapSquaresPositive(a, b, Dim(a), d);
    }
  }

  lemma {:induction false} ClampSquaresNonNegative(b: Box, p: seq<real>, n: nat)
    requires n <= |p| <= Dim(b)
    ensures ClampSquares(b, p, n) >= 0.0
  {
    if n > 0 {
      ClampSquaresNonNegative(b, p, n - 1);
      SqFacts(Clamp(b.min[n - 1], b.max[n - 1], p[n - 1]));
    }
  }

  lemma {:induction false} ClampSquaresZeroIffWithin(b: Box, p: seq<real>, n: nat)
    requires n <= |p| <= Dim(b)
    ensures ClampSquares(b, p, n) == 0.0 <==> forall i :: 0 <= i < n ==> b.min[i] <= p[i] <= b.max[i]
  {
    if n > 0 {
      ClampSquaresZeroIffWithin(b, p, n - 1);
      ClampSquaresNonNegative(b, p, n - 1);
      var c := Clamp(b.min[n - 1], b.max[n - 1], p[n - 1]);
      SqFacts(c);
      assert c == 0.0 <==> b.min[n - 1] <= p[n - 1] <= b.max[n - 1];
    }
  }

  /** rtree Envelope.distance(p) is 0 exactly when p lies within the box. */
  lemma PointDistanceZeroIffWithin(b: Box, p: seq<real>)
    requires |p| <= Dim(b)
    ensures PointDistanceSq(b, p) >= 0.0
    ensures PointDistanceSq(b, p) == 0.0 <==> PointWithin(b, p)
  {
    ClampSquaresNonNegative(b, p, |p|);
    ClampSquaresZeroIffWithin(b, p, |p|);
  }

  lemma ClampBelowOffset(lo: real, hi: real, x: real, q: real)
    requires lo <= x <= hi
    ensures Sq(Clamp(lo, hi, q)) <= Sq(x - q)
  {
    var c := Clamp(lo, hi, q);
    SqFacts(x - q);
    if q < lo {
      SqMonotone(c, x - q);
    } else if q > hi {
      SqMonotone(c, q - x);
      assert q - x == -(x - q);
    }
  }

  lemma {:induction false} ClampSquaresLowerBound(b: Box, x: seq<real>, p: seq<real>, n: nat)
    requires n <= |p| <= Dim(b) && n <= |x|
    requires forall i :: 0 <= i < n ==> b.min[i] <= x[i] <= b.max[i]
    ensures ClampSquares(b, p, n) <= PointPointSq(x, p, n)
  {
    if n > 0 {
      ClampSquaresLowerBound(b, x, p, n - 1);
      ClampBelowOffset(b.min[n - 1], b.max[n - 1], x[n - 1], p[n - 1]);
    }
  }

  /**
   * The pruning fact the nearest-neighbour search relies on: no point inside a box is
   * closer to the query point than the box's point distance.
   */
  lemma PointDistanceIsLowerBound(b: Box, x: seq<real>, p: seq<real>)
    requires |p| <= Dim(b) && |x| == |p|
    requires PointWithin(b, x)
    ensures PointDistanceSq(b, p) <= PointPointSq(x, p, |p|)
  {
    ClampSquaresLowerBound(b, x, p, |p|);
  }

  lemma {:induction false} WidthProductMonotone(a: Box, c: Box, n: nat)
    requires n <= Dim(a) && Dim(c) == Dim(a)
    requires forall i :: 0 <= i < n ==> 0.0 <= Width(c, i) <= Width(a, i)
    ensures 0.0 <= WidthProduct(c, n) <= WidthProduct(a, n)
  {
    if n > 0 {
      WidthProductMonotone(a, c, n - 1);
      var pc, pa := WidthProduct(c, n - 1), WidthProduct(a, n - 1);
      var wc, wa := Width(c, n - 1), Width(a, n - 1);
      assert pc * wc <= pa * wc by {
        assert (pa - pc) * wc >= 0.0;
      }
      assert pa * wc <= pa * wa by {
        assert pa * (wa - wc) >= 0.0;
      }
    }
  }

  /** A box covered by a valid box has no larger area. */
  lemma CoveredAreaBound(a: Box, c: Box)
    requires Valid(c) && Covers(a, c)
    ensures 0.0 <= Area(c) <= Area(a)
  {
    WidthProductMonotone(a, c, Dim(a));
  }

  /** area(intersection(a, b)) <= min(area(a), area(b)) whenever the intersection exists. */
  lemma IntersectionAreaBound(a: Box, b: Box)
    requires Valid(a) && Valid(b) && Intersects(a, b)
    ensures Area(IntersectionOf(a, b)) <= Area(a) && Area(IntersectionOf(a, b)) <= Area(b)
  {
    IntersectionCovered(a, b);
    CoveredAreaBound(a, IntersectionOf(a, b));
    CoveredAreaBound(b, IntersectionOf(a, b));
  }

  /** Covers is the component test stated by the source; mutual cover means equal bounds. */
  lemma MutualCoverIffSameBounds(a: Box, b: Box)
    ensures Covers(a, b) && Covers(b, a) <==> SameBounds(a, b)
  {
  }
}
