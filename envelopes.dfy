/**
 * The mutable Envelope object: two coordinate arrays of one length, final references
 * whose elements scaleBy, shiftBy and expandToInclude overwrite in place.
 *
 * The class merges org.neo4j.gspatial.index.Envelope with its only subclass
 * org.neo4j.gspatial.index.rtree.Envelope: every envelope the repository builds is of the
 * subclass. The subclass's covers, contains and intersection take a subclass argument, so
 * they overload the parent's methods rather than override them: a call whose argument is
 * typed as the parent class, as in overlap, reaches the parent's method. covers behaves
 * the same either way (the subclass only exits early); the two intersections differ on
 * disjoint boxes and are both modelled (BaseIntersection, Intersection).
 * Coordinates are reals and distances are squared.
 */
module Envelopes {
  import opened Wrappers
  import opened Boxes

  /** The side ratio bound of withSideRatioNotTooSmall. */
  const MaximalSideRatio: real := 100000.0

  /** -Double.MAX_VALUE, the start value of the largest-side search. */
  const LowestDouble: real := -1.7976931348623157e308

  // ------------------------------------------------------ value-level results

  /** max := min + (max - min) * f on every axis. */
  function ScaledBox(b: Box, f: real): (r: Box)
    ensures Dim(r) == Dim(b) && r.min == b.min
  {
    Bounds(b.min, seq(Dim(b), i requires 0 <= i < Dim(b) => b.min[i] + (b.max[i] - b.min[i]) * f))
  }

  /** min and max both moved by o on every axis. */
  function ShiftedBox(b: Box, o: real): (r: Box)
    ensures Dim(r) == Dim(b)
  {
    Bounds(seq(Dim(b), i requires 0 <= i < Dim(b) => b.min[i] + o),
           seq(Dim(b), i requires 0 <= i < Dim(b) => b.max[i] + o))
  }

  /** min and max moved by o on axis d only. */
  function ShiftedAxis(b: Box, o: real, d: nat): (r: Box)
    requires d < Dim(b)
    ensures Dim(r) == Dim(b)
  {
    Bounds(b.min[d := b.min[d] + o], b.max[d := b.max[d] + o])
  }

  /** The box grown to hold p on its first min(|p|, dim) axes. */
  function ExpandedByPoint(b: Box, p: seq<real>): (r: Box)
    ensures Dim(r) == Dim(b)
  {
    Bounds(seq(Dim(b), i requires 0 <= i < Dim(b) => if i < |p| && p[i] < b.min[i] then p[i] else b.min[i]),
           seq(Dim(b), i requires 0 <= i < Dim(b) => if i < |p| && p[i] > b.max[i] then p[i] else b.max[i]))
  }

  function CentreOf(b: Box, d: nat): real
    requires d < Dim(b)
  {
    (b.min[d] + b.max[d]) / 2.0
  }

  /** The largest side among the first n axes, starting from -Double.MAX_VALUE. */
  function HighestDiff(b: Box, n: nat): real
    requires n <= Dim(b)
  {
    if n == 0 then LowestDouble else Max(HighestDiff(b, n - 1), Width(b, n - 1))
  }

  /** withSideRatioNotTooSmall on values: every side shorter than the bound is widened to it. */
  function SideRatioBox(b: Box): (r: Box)
    ensures Dim(r) == Dim(b) && r.min == b.min
  {
    var minDiff := HighestDiff(b, Dim(b)) / MaximalSideRatio;
    Bounds(b.min, seq(Dim(b), i requires 0 <= i < Dim(b) =>
      if Width(b, i) < minDiff then b.min[i] + minDiff else b.max[i]))
  }

  /** IEEE division of two finite doubles, for the ratio returned by overlap. */
  datatype Quotient = Finite(value: real) | NaN | PositiveInfinity | NegativeInfinity

  function Divide(x: real, y: real): (q: Quotient)
    ensures q.Finite? <==> y != 0.0
    ensures q.Finite? ==> q.value * y == x
    ensures q.NaN? <==> y == 0.0 && x == 0.0
  {
    if y != 0.0 then Finite(x / y)
    else if x == 0.0 then NaN
    else if x > 0.0 then PositiveInfinity
    else NegativeInfinity
  }

  // ------------------------------------------------------------------ lemmas

  /** scaleBy keeps min and multiplies every width by the factor. */
  lemma ScaledWidths(b: Box, f: real, d: nat)
    requires d < Dim(b)
    ensures Width(ScaledBox(b, f), d) == Width(b, d) * f
  {
  }

  /** A non-negative factor keeps a valid box valid; a factor in [0, 1] shrinks it. */
  lemma ScaledValid(b: Box, f: real)
    requires Valid(b) && 0.0 <= f
    ensures Valid(ScaledBox(b, f))
    ensures f <= 1.0 ==> Covers(b, ScaledBox(b, f))
    ensures f >= 1.0 ==> Covers(ScaledBox(b, f), b)
  {
    var r := ScaledBox(b, f);
    forall i | 0 <= i < Dim(b)
      ensures b.min[i] <= r.max[i]
      ensures f <= 1.0 ==> r.max[i] <= b.max[i]
      ensures f >= 1.0 ==> b.max[i] <= r.max[i]
    {
      var w := b.max[i] - b.min[i];
      MulMonotone(w, 0.0, f);
      if f <= 1.0 { MulMonotone(w, f, 1.0); }
      if f >= 1.0 { MulMonotone(w, 1.0, f); }
    }
  }

  /** Shifting back by the opposite offset restores the box. */
  lemma ShiftRoundTrip(b: Box, o: real)
    ensures ShiftedBox(ShiftedBox(b, o), -o) == b
  {
    var r := ShiftedBox(ShiftedBox(b, o), -o);
    assert r.min == b.min;
    assert r.max == b.max;
  }

  /** A shift keeps every width, validity, and the intersection relation between boxes shifted alike. */
  lemma ShiftPreserves(a: Box, b: Box, o: real)
    ensures forall d :: 0 <= d < Dim(a) ==> Width(ShiftedBox(a, o), d) == Width(a, d)
    ensures Valid(ShiftedBox(a, o)) <==> Valid(a)
    ensures Intersects(ShiftedBox(a, o), ShiftedBox(b, o)) <==> Intersects(a, b)
    ensures Covers(ShiftedBox(a, o), ShiftedBox(b, o)) <==> Covers(a, b)
  {
    var sa, sb := ShiftedBox(a, o), ShiftedBox(b, o);
    assert forall i :: 0 <= i < Dim(a) ==> sa.min[i] == a.min[i] + o && sa.max[i] == a.max[i] + o;
    assert forall i :: 0 <= i < Dim(b) ==> sb.min[i] == b.min[i] + o && sb.max[i] == b.max[i] + o;
  }

  /** shiftBy(o, d) changes axis d only. */
  lemma ShiftAxisOnly(b: Box, o: real, d: nat)
    requires d < Dim(b)
    ensures Width(ShiftedAxis(b, o, d), d) == Width(b, d)
    ensures forall i :: 0 <= i < Dim(b) && i != d ==>
      ShiftedAxis(b, o, d).min[i] == b.min[i] && ShiftedAxis(b, o, d).max[i] == b.max[i]
  {
  }

  /** The centre of a valid axis lies within it. */
  lemma CentreWithin(b: Box, d: nat)
    requires Valid(b) && d < Dim(b)
    ensures b.min[d] <= CentreOf(b, d) <= b.max[d]
  {
  }

  /** expandToInclude(p) covers the old box and holds p on the first min(|p|, dim) axes. */
  lemma ExpandedByPointCovers(b: Box, p: seq<real>)
    requires Valid(b)
    ensures Valid(ExpandedByPoint(b, p)) && Covers(ExpandedByPoint(b, p), b)
    ensures forall i :: 0 <= i < |p| && i < Dim(b) ==>
      ExpandedByPoint(b, p).min[i] <= p[i] <= ExpandedByPoint(b, p).max[i]
  {
  }

  lemma {:induction false} HighestDiffBounds(b: Box, n: nat)
    requires n <= Dim(b)
    ensures forall i :: 0 <= i < n ==> Width(b, i) <= HighestDiff(b, n)
    ensures HighestDiff(b, n) == LowestDouble || exists i :: 0 <= i < n && HighestDiff(b, n) == Width(b, i)
  {
    if n > 0 {
      HighestDiffBounds(b, n - 1);
      if HighestDiff(b, n - 1) < Width(b, n - 1) {
        assert HighestDiff(b, n) == Width(b, n - 1);
      } else if HighestDiff(b, n - 1) != LowestDouble {
        var j :| 0 <= j < n - 1 && HighestDiff(b, n - 1) == Width(b, j);
        assert HighestDiff(b, n) == Width(b, j);
      }
    }
  }

  /**
   * withSideRatioNotTooSmall keeps min, never shrinks a side, makes every side at least
   * largest/100000, and so covers the original; a valid box stays valid.
   */
  lemma SideRatioCovers(b: Box)
    requires Valid(b)
    ensures Valid(SideRatioBox(b)) && Covers(SideRatioBox(b), b)
    ensures forall i :: 0 <= i < Dim(b) ==>
      Width(b, i) <= Width(SideRatioBox(b), i) &&
      HighestDiff(b, Dim(b)) / MaximalSideRatio <= Width(SideRatioBox(b), i)
  {
    var r := SideRatioBox(b);
    var minDiff := HighestDiff(b, Dim(b)) / MaximalSideRatio;
    HighestDiffBounds(b, Dim(b));
    if Dim(b) > 0 {
      assert Width(b, 0) <= HighestDiff(b, Dim(b));
    }
    forall i | 0 <= i < Dim(b)
      ensures Width(b, i) <= Width(r, i) && minDiff <= Width(r, i)
    {
    }
  }

  /**
   * separation(other, d) is positive exactly when the two valid intervals on axis d are
   * apart, and then it is the gap distance(other, d).
   */
  lemma SeparationAxisSign(a: Box, b: Box, d: nat)
    requires Valid(a) && Valid(b) && Dim(a) == Dim(b) && d < Dim(a)
    ensures var s := Width(UnionOf(a, b), d) - Width(a, d) - Width(b, d);
      (s > 0.0 <==> !(b.min[d] <= a.max[d] && b.max[d] >= a.min[d])) &&
      (s > 0.0 ==> s == AxisGap(a, b, d))
  {
  }

  // ------------------------------------------------------------------ the class

  class Envelope {
    const min: array<real>
    const max: array<real>

    /** Two distinct arrays of one length; min <= max is NOT an invariant (scaleBy breaks it). */
    ghost predicate Valid()
    {
      min != max && min.Length == max.Length
    }

    /** The envelope's current value. */
    function Value(): Box
      reads min, max
      requires Valid()
    {
      Bounds(min[..], max[..])
    }

    /** No array shared with the other envelope (the constructors always copy). */
    predicate Apart(other: Envelope)
    {
      this == other || (min != other.min && min != other.max && max != other.min && max != other.max)
    }

    /** Stores copies of the given coordinates; callers check validity first. */
    constructor (lo: seq<real>, hi: seq<real>)
      requires |lo| == |hi|
      ensures Valid() && Value() == Bounds(lo, hi) && fresh(min) && fresh(max)
    {
      min := new real[|lo|](i requires 0 <= i < |lo| => lo[i]);
      max := new real[|hi|](i requires 0 <= i < |hi| => hi[i]);
    }

    /** isValid: both arrays of one length and min[i] <= max[i] on every axis. */
    static method IsValid(lo: array<real>, hi: array<real>) returns (valid: bool)
      ensures valid == ValidBounds(lo[..], hi[..])
    {
      valid := lo.Length == hi.Length;
      var i := 0;
      while valid && i < lo.Length
        invariant 0 <= i <= lo.Length
        invariant valid ==> lo.Length == hi.Length
        invariant valid == (lo.Length == hi.Length && forall j :: 0 <= j < i ==> lo[j] <= hi[j])
      {
        valid := lo[i] <= hi[i];
        i := i + 1;
      }
    }

    /**
     * Envelope(double[] min, double[] max): copy both arrays (a null array fails in
     * Arrays.copyOf), then reject invalid bounds.
     */
    static method Create(lo: array?<real>, hi: array?<real>) returns (r: Result<Envelope>)
      ensures lo == null || hi == null ==> r == Err(NullPointer)
      ensures lo != null && hi != null ==>
        (r.Ok? <==> ValidBounds(lo[..], hi[..])) &&
        (r.Err? ==> r.error == IllegalArgument)
      ensures r.Ok? ==> (lo != null && hi != null && r.value.Valid() &&
        r.value.Value() == Bounds(lo[..], hi[..]) &&
        fresh(r.value) && fresh(r.value.min) && fresh(r.value.max))
    {
      if lo == null || hi == null {
        return Err(NullPointer);
      }
      var valid := IsValid(lo, hi);
      if !valid {
        return Err(IllegalArgument);
      }
      var e := new Envelope(lo[..], hi[..]);
      return Ok(e);
    }

    /** Envelope(xmin, xmax, ymin, ymax) stores min = [xmin, ymin] and max = [xmax, ymax]. */
    static method Create2D(xmin: real, xmax: real, ymin: real, ymax: real) returns (r: Result<Envelope>)
      ensures r.Ok? <==> xmin <= xmax && ymin <= ymax
      ensures r.Err? ==> r.error == IllegalArgument
      ensures r.Ok? ==> (r.value.Valid() && r.value.Value() == Box2D(xmin, xmax, ymin, ymax) &&
        fresh(r.value) && fresh(r.value.min) && fresh(r.value.max))
    {
      var lo := new real[2];
      lo[0], lo[1] := xmin, ymin;
      var hi := new real[2];
      hi[0], hi[1] := xmax, ymax;
      assert lo[..] == [xmin, ymin] && hi[..] == [xmax, ymax];
      Box2DValid(xmin, xmax, ymin, ymax);
      r := Create(lo, hi);
    }

    /** Envelope(double[] p): the degenerate box at a point, always valid. */
    static method FromPoint(p: seq<real>) returns (e: Envelope)
      ensures e.Valid() && e.Value() == Bounds(p, p) && Boxes.Valid(e.Value()) && Boxes.IsPoint(e.Value())
      ensures fresh(e) && fresh(e.min) && fresh(e.max)
    {
      e := new Envelope(p, p);
    }

    /** The copy constructor Envelope(Envelope e), which validates again. */
    method Copy() returns (r: Result<Envelope>)
      requires Valid()
      ensures r.Ok? <==> Boxes.Valid(Value())
      ensures r.Err? ==> r.error == IllegalArgument
      ensures r.Ok? ==> (r.value.Valid() && r.value.Value() == Value() &&
        fresh(r.value) && fresh(r.value.min) && fresh(r.value.max))
    {
      r := Create(min, max);
    }

    function Dimension(): nat
    {
      min.Length
    }

    /** covers (the subclass's loop with its early return): other lies inside this on every axis. */
    method Covers(other: Envelope) returns (ans: bool)
      requires Valid() && other.Valid()
      ensures ans == Boxes.Covers(Value(), other.Value())
    {
      ans := min.Length == other.min.Length;
      var i := 0;
      while i < min.Length
        invariant 0 <= i <= min.Length
        invariant i > 0 ==> min.Length == other.min.Length
        invariant ans == (min.Length == other.min.Length &&
          forall j :: 0 <= j < i ==> other.min[j] >= min[j] && other.max[j] <= max[j])
      {
        if !ans {
          return ans;
        }
        ans := other.min[i] >= min[i] && other.max[i] <= max[i];
        i := i + 1;
      }
    }

    /** contains delegates to covers. */
    method Contains(other: Envelope) returns (ans: bool)
      requires Valid() && other.Valid()
      ensures ans == Boxes.Covers(Value(), other.Value())
    {
      ans := Covers(other);
    }

    /** intersects: same dimension and the closed intervals overlap on every axis. */
    method Intersects(other: Envelope) returns (ans: bool)
      requires Valid() && other.Valid()
      ensures ans == Boxes.Intersects(Value(), other.Value())
    {
      ans := min.Length == other.min.Length;
      var i := 0;
      while i < min.Length && ans
        invariant 0 <= i <= min.Length
        invariant ans ==> min.Length == other.min.Length
        invariant ans == (min.Length == other.min.Length &&
          forall j :: 0 <= j < i ==> other.min[j] <= max[j] && other.max[j] >= min[j])
      {
        ans := other.min[i] <= max[i] && other.max[i] >= min[i];
        i := i + 1;
      }
    }

    /** equals(Object): false for null, otherwise same dimension and the same bounds. */
    method Equals(other: Envelope?) returns (ans: bool)
      requires Valid() && (other != null ==> other.Valid())
      ensures ans <==> other != null && SameBounds(Value(), other.Value())
    {
      if other == null || min.Length != other.min.Length {
        return false;
      }
      var i := 0;
      while i < min.Length
        invariant 0 <= i <= min.Length
        invariant forall j :: 0 <= j < i ==> min[j] == other.min[j] && max[j] == other.max[j]
      {
        if min[i] != other.min[i] || max[i] != other.max[i] {
          return false;
        }
        i := i + 1;
      }
      return true;
    }

    /** isPoint: min equals max on every axis. */
    method IsPoint() returns (ans: bool)
      requires Valid()
      ensures ans == Boxes.IsPoint(Value())
    {
      ans := true;
      var i := 0;
      while i < min.Length && ans
        invariant 0 <= i <= min.Length
        invariant ans == forall j :: 0 <= j < i ==> min[j] == max[j]
      {
        ans := min[i] == max[i];
        i := i + 1;
      }
    }

    /** getWidth(d); an axis beyond the dimension fails. */
    method GetWidth(d: nat) returns (r: Result<real>)
      requires Valid()
      ensures r.Ok? <==> d < Dimension()
      ensures r.Ok? ==> d < Dim(Value()) && r.value == Width(Value(), d)
      ensures r.Err? ==> r.error == IndexOutOfBounds
    {
      if d >= min.Length {
        return Err(IndexOutOfBounds);
      }
      return Ok(max[d] - min[d]);
    }

    /** getArea: the product of the widths over every axis. */
    method GetArea() returns (area: real)
      requires Valid()
      ensures area == Area(Value())
    {
      area := 1.0;
      var i := 0;
      while i < min.Length
        invariant 0 <= i <= min.Length
        invariant area == WidthProduct(Value(), i)
      {
        area := area * (max[i] - min[i]);
        i := i + 1;
      }
    }

    /**
     * distance(other): 0 when the boxes intersect, else the (squared) sum of the positive
     * per-axis gaps over this envelope's axes; reading an axis the other lacks fails.
     */
    method Distance(other: Envelope) returns (r: Result<real>)
      requires Valid() && other.Valid()
      ensures Boxes.Intersects(Value(), other.Value()) ==> r == Ok(0.0)
      ensures !Boxes.Intersects(Value(), other.Value()) ==>
        if other.Dimension() < Dimension() then r == Err(IndexOutOfBounds)
        else r == Ok(BoxDistanceSq(Value(), other.Value()))
    {
      var meets := Intersects(other);
      if meets {
        return Ok(0.0);
      }
      if other.min.Length < min.Length {
        return Err(IndexOutOfBounds);
      }
      var distance := 0.0;
      var i := 0;
      while i < min.Length
        invariant 0 <= i <= min.Length
        invariant distance == GapSquares(Value(), other.Value(), i)
      {
        var dist := if min[i] < other.min[i] then other.min[i] - max[i] else min[i] - other.max[i];
        assert dist == AxisGap(Value(), other.Value(), i);
        if dist > 0.0 {
          distance := distance + Sq(dist);
        }
        i := i + 1;
      }
      return Ok(distance);
    }

    /**
     * The parent's intersection: different dimensions fail; disjoint boxes give None;
     * otherwise the componentwise max-of-mins and min-of-maxes, checked by the constructor.
     */
    method BaseIntersection(other: Envelope) returns (r: Result<Option<Envelope>>)
      requires Valid() && other.Valid()
      ensures Dimension() != other.Dimension() ==> r == Err(IllegalArgument)
      ensures r.Err? ==> r.error == IllegalArgument
      ensures Dimension() == other.Dimension() ==>
        (r == Ok(None) <==> !Boxes.Intersects(Value(), other.Value()))
      ensures Dimension() == other.Dimension() && Boxes.Intersects(Value(), other.Value()) ==>
        (r.Ok? <==> Boxes.Valid(IntersectionOf(Value(), other.Value())))
      ensures r.Ok? && r.value.Some? ==> (Dimension() == other.Dimension() &&
        r.value.value.Valid() && r.value.value.Value() == IntersectionOf(Value(), other.Value()) &&
        fresh(r.value.value) && fresh(r.value.value.min) && fresh(r.value.value.max))
    {
      if min.Length != other.min.Length {
        return Err(IllegalArgument);
      }
      var iMin := new real[min.Length];
      var iMax := new real[min.Length];
      var result := true;
      var i := 0;
      while i < min.Length
        invariant 0 <= i <= min.Length
        invariant result == forall j :: 0 <= j < i ==> other.min[j] <= max[j] && other.max[j] >= min[j]
        invariant forall j :: 0 <= j < i && other.min[j] <= max[j] && other.max[j] >= min[j] ==>
          iMin[j] == Max(min[j], other.min[j]) && iMax[j] == Min(max[j], other.max[j])
      {
        if other.min[i] <= max[i] && other.max[i] >= min[i] {
          iMin[i] := Max(min[i], other.min[i]);
          iMax[i] := Min(max[i], other.max[i]);
        } else {
          result := false;
        }
        i := i + 1;
      }
      if !result {
        return Ok(None);
      }
      assert iMin[..] == IntersectionOf(Value(), other.Value()).min;
      assert iMax[..] == IntersectionOf(Value(), other.Value()).max;
      var e := Create(iMin, iMax);
      if e.Err? {
        return Err(e.error);
      }
      return Ok(Some(e.value));
    }

    /**
     * The subclass's intersection wraps the parent's result in the copy constructor, so a
     * disjoint pair fails with a NullPointerException instead of giving null.
     */
    method Intersection(other: Envelope) returns (r: Result<Envelope>)
      requires Valid() && other.Valid()
      ensures Dimension() != other.Dimension() ==> r == Err(IllegalArgument)
      ensures Dimension() == other.Dimension() && !Boxes.Intersects(Value(), other.Value()) ==>
        r == Err(NullPointer)
      ensures Dimension() == other.Dimension() && Boxes.Intersects(Value(), other.Value()) ==>
        (r.Ok? <==> Boxes.Valid(IntersectionOf(Value(), other.Value())))
      ensures r.Ok? ==> (Dimension() == other.Dimension() &&
        r.value.Valid() && r.value.Value() == IntersectionOf(Value(), other.Value()) &&
        fresh(r.value) && fresh(r.value.min) && fresh(r.value.max))
    {
      var base := BaseIntersection(other);
      if base.Err? {
        return Err(base.error);
      }
      if base.value.None? {
        return Err(NullPointer);
      }
      r := base.value.value.Copy();
    }

    /**
     * overlap: 0 for disjoint boxes, else the intersection's area over the smaller area, 1
     * when the smaller one is a point. overlap takes a parent-class Envelope, so its call
     * resolves to the parent's intersection (the subclass's one is an overload for
     * subclass arguments, not an override), and disjoint boxes give null rather than fail.
     */
    method Overlap(other: Envelope) returns (r: Result<Quotient>)
      requires Valid() && other.Valid()
      ensures Dimension() != other.Dimension() ==> r == Err(IllegalArgument)
      ensures Dimension() == other.Dimension() && !Boxes.Intersects(Value(), other.Value()) ==>
        r == Ok(Finite(0.0))
      ensures (Dimension() == other.Dimension() && Boxes.Valid(Value()) && Boxes.Valid(other.Value()) &&
               Boxes.Intersects(Value(), other.Value())) ==>
        var smallest := if Area(Value()) < Area(other.Value()) then Value() else other.Value();
        r == Ok(if Boxes.IsPoint(smallest) then Finite(1.0)
                else Divide(Area(IntersectionOf(Value(), other.Value())), Area(smallest)))
    {
      var thisArea := GetArea();
      var otherArea := other.GetArea();
      var smallest := if thisArea < otherArea then this else other;
      var inter := BaseIntersection(other);
      if inter.Err? {
        return Err(inter.error);
      }
      if inter.value.None? {
        return Ok(Finite(0.0));
      }
      var point := smallest.IsPoint();
      if point {
        return Ok(Finite(1.0));
      }
      var interArea := inter.value.value.GetArea();
      var smallestArea := smallest.GetArea();
      return Ok(Divide(interArea, smallestArea));
    }

    /**
     * withSideRatioNotTooSmall: a fresh envelope with this min, every side widened to at
     * least the largest side / 100000; it fails only when the widened bounds are invalid.
     */
    method WithSideRatioNotTooSmall() returns (r: Result<Envelope>)
      requires Valid()
      ensures r.Ok? <==> Boxes.Valid(SideRatioBox(Value()))
      ensures r.Err? ==> r.error == IllegalArgument
      ensures r.Ok? ==> (r.value.Valid() && r.value.Value() == SideRatioBox(Value()) &&
        fresh(r.value) && fresh(r.value.min) && fresh(r.value.max))
    {
      ghost var b := Value();
      ghost var widened := SideRatioBox(b);
      var from := new real[min.Length](i requires 0 <= i < min.Length reads min => min[i]);
      var to := new real[max.Length](i requires 0 <= i < max.Length reads max => max[i]);
      var diffs, highestDiff := SideWidths(from, to, b);
      var minDiff := highestDiff / MaximalSideRatio;
      WidenShortSides(from, to, diffs, minDiff, b);
      assert to[..] == widened.max;
      r := Create(from, to);
    }

    /** The first loop of withSideRatioNotTooSmall: every side's width, and the largest. */
    static method SideWidths(from: array<real>, to: array<real>, ghost b: Box) returns (diffs: array<real>, highestDiff: real)
      requires from[..] == b.min && to[..] == b.max
      ensures fresh(diffs) && diffs.Length == from.Length
      ensures highestDiff == HighestDiff(b, Dim(b))
      ensures forall j :: 0 <= j < from.Length ==> diffs[j] == Width(b, j)
    {
      highestDiff := LowestDouble;
      diffs := new real[from.Length];
      var i := 0;
      while i < from.Length
        invariant 0 <= i <= from.Length
        invariant highestDiff == HighestDiff(b, i)
        invariant forall j :: 0 <= j < i ==> diffs[j] == Width(b, j)
      {
        diffs[i] := to[i] - from[i];
        highestDiff := Max(highestDiff, diffs[i]);
        i := i + 1;
      }
    }

    /** The second loop of withSideRatioNotTooSmall: each side shorter than minDiff is widened to it. */
    static method WidenShortSides(from: array<real>, to: array<real>, diffs: array<real>, minDiff: real, ghost b: Box)
      requires from[..] == b.min && to[..] == b.max && from != to && diffs != to
      requires diffs.Length == from.Length
      requires forall j :: 0 <= j < from.Length ==> diffs[j] == Width(b, j)
      requires minDiff == HighestDiff(b, Dim(b)) / MaximalSideRatio
      modifies to
      ensures to[..] == SideRatioBox(b).max
    {
      ghost var widened := SideRatioBox(b);
      var i := 0;
      while i < from.Length
        invariant 0 <= i <= from.Length
        invariant forall j :: 0 <= j < i ==> to[j] == widened.max[j]
        invariant forall j :: i <= j < from.Length ==> to[j] == b.max[j]
      {
        if diffs[i] < minDiff {
          to[i] := from[i] + minDiff;
        }
        i := i + 1;
      }
      assert to[..] == widened.max;
    }

    /** expandToInclude(other): grow in place to the union; different dimensions fail. */
    method ExpandToInclude(other: Envelope) returns (r: Outcome)
      requires Valid() && other.Valid() && Apart(other)
      modifies min, max
      ensures Valid()
      ensures Dimension() != other.Dimension() ==> r == Fail(IllegalArgument) && Value() == old(Value())
      ensures Dimension() == other.Dimension() ==>
        r == Done && Value() == UnionOf(old(Value()), old(other.Value()))
    {
      if min.Length != other.min.Length {
        return Fail(IllegalArgument);
      }
      ghost var was, add := Value(), other.Value();
      var i := 0;
      while i < min.Length
        invariant 0 <= i <= min.Length
        invariant forall j :: 0 <= j < i ==> min[j] == Min(was.min[j], add.min[j]) && max[j] == Max(was.max[j], add.max[j])
        invariant forall j :: i <= j < min.Length ==> min[j] == was.min[j] && max[j] == was.max[j]
        invariant forall j :: i <= j < min.Length ==> other.min[j] == add.min[j] && other.max[j] == add.max[j]
      {
        if other.min[i] < min[i] {
          min[i] := other.min[i];
        }
        if other.max[i] > max[i] {
          max[i] := other.max[i];
        }
        i := i + 1;
      }
      assert Value() == UnionOf(was, add);
      return Done;
    }

    /** scaleBy(f): every max becomes min + width * f; min is untouched. */
    method ScaleBy(factor: real)
      requires Valid()
      modifies max
      ensures Valid() && Value() == ScaledBox(old(Value()), factor)
    {
      ghost var was := Value();
      var i := 0;
      while i < min.Length
        invariant 0 <= i <= min.Length
        invariant min[..] == was.min
        invariant forall j :: 0 <= j < i ==> max[j] == ScaledBox(was, factor).max[j]
        invariant forall j :: i <= j < min.Length ==> max[j] == was.max[j]
      {
        max[i] := min[i] + (max[i] - min[i]) * factor;
        i := i + 1;
      }
      assert max[..] == ScaledBox(was, factor).max;
    }

    /** shiftBy(o): both bounds of every axis move by o. */
    method ShiftBy(offset: real)
      requires Valid()
      modifies min, max
      ensures Valid() && Value() == ShiftedBox(old(Value()), offset)
    {
      ghost var was := Value();
      var i := 0;
      while i < min.Length
        invariant 0 <= i <= min.Length
        invariant forall j :: 0 <= j < i ==> min[j] == was.min[j] + offset && max[j] == was.max[j] + offset
        invariant forall j :: i <= j < min.Length ==> min[j] == was.min[j] && max[j] == was.max[j]
      {
        min[i] := min[i] + offset;
        max[i] := max[i] + offset;
        i := i + 1;
      }
      assert Value() == ShiftedBox(was, offset);
    }

    /** shiftBy(o, d): only axis d moves; an axis beyond the dimension fails. */
    method ShiftByAxis(offset: real, d: nat) returns (r: Outcome)
      requires Valid()
      modifies min, max
      ensures Valid()
      ensures d >= Dimension() ==> r == Fail(IndexOutOfBounds) && Value() == old(Value())
      ensures d < Dimension() ==> r == Done && Value() == ShiftedAxis(old(Value()), offset, d)
    {
      if d >= min.Length {
        return Fail(IndexOutOfBounds);
      }
      min[d] := min[d] + offset;
      max[d] := max[d] + offset;
      return Done;
    }

    /** centre(d) = (min[d] + max[d]) / 2; an axis beyond the dimension fails. */
    method Centre(d: nat) returns (r: Result<real>)
      requires Valid()
      ensures r.Ok? <==> d < Dimension()
      ensures r.Ok? ==> d < Dim(Value()) && r.value == CentreOf(Value(), d)
      ensures r.Err? ==> r.error == IndexOutOfBounds
    {
      if d >= min.Length {
        return Err(IndexOutOfBounds);
      }
      return Ok((min[d] + max[d]) / 2.0);
    }

    /** centre(): a fresh array of the centres of every axis. */
    method Centres() returns (center: array<real>)
      requires Valid()
      ensures fresh(center) && center.Length == Dimension()
      ensures forall i :: 0 <= i < center.Length ==> center[i] == CentreOf(Value(), i)
    {
      center := new real[min.Length];
      var i := 0;
      while i < min.Length
        invariant 0 <= i <= min.Length
        invariant forall j :: 0 <= j < i ==> center[j] == CentreOf(Value(), j)
      {
        center[i] := (min[i] + max[i]) / 2.0;
        i := i + 1;
      }
    }

    /** expandToInclude(p): grow in place over the first min(|p|, dim) axes. */
    method ExpandToIncludePoint(p: seq<real>)
      requires Valid()
      modifies min, max
      ensures Valid() && Value() == ExpandedByPoint(old(Value()), p)
    {
      ghost var was := Value();
      var n := if |p| < min.Length then |p| else min.Length;
      var i := 0;
      while i < n
        invariant 0 <= i <= n
        invariant forall j :: 0 <= j < i ==> min[j] == ExpandedByPoint(was, p).min[j] && max[j] == ExpandedByPoint(was, p).max[j]
        invariant forall j :: i <= j < min.Length ==> min[j] == was.min[j] && max[j] == was.max[j]
      {
        if p[i] < min[i] {
          min[i] := p[i];
        }
        if p[i] > max[i] {
          max[i] := p[i];
        }
        i := i + 1;
      }
      assert Value() == ExpandedByPoint(was, p);
    }

    /**
     * bbox(other): a fresh copy expanded to the union, neither input changed. Different
     * dimensions fail, and so does the copy of an invalid receiver.
     */
    method Bbox(other: Envelope) returns (r: Result<Envelope>)
      requires Valid() && other.Valid()
      ensures Dimension() != other.Dimension() ==> r == Err(IllegalArgument)
      ensures Dimension() == other.Dimension() ==> (r.Ok? <==> Boxes.Valid(Value()))
      ensures r.Err? ==> r.error == IllegalArgument
      ensures r.Ok? ==> (Dimension() == other.Dimension() &&
        r.value.Valid() && r.value.Value() == UnionOf(Value(), other.Value()) &&
        fresh(r.value) && fresh(r.value.min) && fresh(r.value.max))
    {
      if min.Length != other.min.Length {
        return Err(IllegalArgument);
      }
      var copy := Copy();
      if copy.Err? {
        return copy;
      }
      var result := copy.value;
      var done := result.ExpandToInclude(other);
      return Ok(result);
    }

    /** separation(other): area of the union minus both areas. */
    method Separation(other: Envelope) returns (r: Result<real>)
      requires Valid() && other.Valid()
      ensures r.Ok? <==> Boxes.Valid(Value()) && Dimension() == other.Dimension()
      ensures r.Err? ==> r.error == IllegalArgument
      ensures r.Ok? ==> (Dimension() == other.Dimension() &&
        r.value == Area(UnionOf(Value(), other.Value())) - Area(Value()) - Area(other.Value()))
    {
      var copy := Copy();
      if copy.Err? {
        return Err(copy.error);
      }
      var combined := copy.value;
      var done := combined.ExpandToInclude(other);
      if done.Fail? {
        return Err(done.error);
      }
      var a := combined.GetArea();
      var b := GetArea();
      var c := other.GetArea();
      return Ok(a - b - c);
    }

    /** separation(other, d): width of the union on axis d minus both widths. */
    method SeparationAxis(other: Envelope, d: nat) returns (r: Result<real>)
      requires Valid() && other.Valid()
      ensures !Boxes.Valid(Value()) || Dimension() != other.Dimension() ==> r == Err(IllegalArgument)
      ensures Boxes.Valid(Value()) && Dimension() == other.Dimension() ==>
        if d < Dimension() then
          d < Dim(Value()) && d < Dim(other.Value()) &&
          r == Ok(Width(UnionOf(Value(), other.Value()), d) - Width(Value(), d) - Width(other.Value(), d))
        else r == Err(IndexOutOfBounds)
    {
      var copy := Copy();
      if copy.Err? {
        return Err(copy.error);
      }
      var combined := copy.value;
      var done := combined.ExpandToInclude(other);
      if done.Fail? {
        return Err(done.error);
      }
      if d >= min.Length {
        return Err(IndexOutOfBounds);
      }
      return Ok((combined.max[d] - combined.min[d]) - (max[d] - min[d]) - (other.max[d] - other.min[d]));
    }

    /**
     * distance(p): the squared Euclidean norm of the per-axis clamp distances over the
     * axes of p; a point with more axes than the envelope fails.
     */
    method DistanceToPoint(p: seq<real>) returns (r: Result<real>)
      requires Valid()
      ensures |p| > Dimension() ==> r == Err(IndexOutOfBounds)
      ensures |p| <= Dimension() ==> |p| <= Dim(Value()) && r == Ok(PointDistanceSq(Value(), p))
    {
      if |p| > min.Length {
        return Err(IndexOutOfBounds);
      }
      var distanceSquared := 0.0;
      var i := 0;
      while i < |p|
        invariant 0 <= i <= |p|
        invariant distanceSquared == ClampSquares(Value(), p, i)
      {
        var minDistance := 0.0;
        if p[i] < min[i] {
          minDistance := min[i] - p[i];
        } else if p[i] > max[i] {
          minDistance := p[i] - max[i];
        }
        distanceSquared := distanceSquared + Sq(minDistance);
        i := i + 1;
      }
      return Ok(distanceSquared);
    }
  }
}
