/**
 * The search filters. SearchAll accepts everything; the two subclasses of
 * AbstractSearchEnvelopeIntersection visit an index node when its envelope meets the
 * reference envelope, and accept a geometry when its decoded envelope meets the
 * reference and the subclass's onEnvelopeIntersection agrees.
 */
module SearchFilters {
  import opened Wrappers
  import opened Boxes

  /** The subclasses of AbstractSearchEnvelopeIntersection. */
  datatype IntersectionKind = CoveredBy | EqualEnvelopes

  /** A filter value; the reference envelope is fixed when the filter is built. */
  datatype SearchFilter = SearchAll | Intersection(kind: IntersectionKind, reference: Box)

  /** onEnvelopeIntersection: rtree contains is covers. */
  predicate OnEnvelopeIntersection(kind: IntersectionKind, reference: Box, geomEnvelope: Box)
  {
    match kind
    case CoveredBy => Covers(reference, geomEnvelope)
    case EqualEnvelopes => Covers(reference, geomEnvelope) && Covers(geomEnvelope, reference)
  }

  /** needsToVisit: a null index envelope makes the intersection filters throw. */
  function NeedsToVisit(f: SearchFilter, indexEnvelope: Option<Box>): (r: Result<bool>)
    ensures f.SearchAll? ==> r == Ok(true)
    ensures f.Intersection? ==> (r.Err? <==> indexEnvelope.None?)
    ensures f.Intersection? && indexEnvelope.Some? ==>
              r == Ok(Intersects(indexEnvelope.value, f.reference))
  {
    match f
    case SearchAll => Ok(true)
    case Intersection(_, reference) =>
      match indexEnvelope
      case None => Err(NullPointer)
      case Some(e) => Ok(Intersects(e, reference))
  }

  /**
   * geometryMatches (final in the abstract class). The intersection filters decode the
   * geometry node first, so a decoding failure propagates; SearchAll never decodes.
   */
  function GeometryMatches(f: SearchFilter, decoded: Result<Box>): (r: Result<bool>)
    ensures f.SearchAll? ==> r == Ok(true)
    ensures f.Intersection? ==> (r.Err? <==> decoded.Err?)
    ensures f.Intersection? && decoded.Ok? && !Intersects(decoded.value, f.reference) ==> r == Ok(false)
    ensures f.Intersection? && decoded.Ok? && Intersects(decoded.value, f.reference) ==>
              r == Ok(OnEnvelopeIntersection(f.kind, f.reference, decoded.value))
  {
    match f
    case SearchAll => Ok(true)
    case Intersection(kind, reference) =>
      match decoded
      case Err(e) => Err(e)
      case Ok(g) =>
        if Intersects(g, reference) then Ok(OnEnvelopeIntersection(kind, reference, g)) else Ok(false)
  }

  /** SearchCoveredByEnvelope accepts a valid geometry envelope exactly when the reference covers it. */
  lemma CoveredByMatchesIffCovered(reference: Box, g: Box)
    requires Valid(g)
    ensures GeometryMatches(Intersection(CoveredBy, reference), Ok(g)) == Ok(Covers(reference, g))
  {
    if Covers(reference, g) {
      CoversImpliesIntersects(reference, g);
    }
  }

  /** An envelope reaching outside the reference on some axis is rejected; the reference itself is accepted. */
  lemma CoveredByBoundary(reference: Box, g: Box, i: nat)
    requires Valid(reference) && Valid(g) && Dim(g) == Dim(reference) && i < Dim(g)
    ensures g.min[i] < reference.min[i] || g.max[i] > reference.max[i] ==>
              GeometryMatches(Intersection(CoveredBy, reference), Ok(g)) == Ok(false)
    ensures GeometryMatches(Intersection(CoveredBy, reference), Ok(reference)) == Ok(true)
  {
    CoveredByMatchesIffCovered(reference, g);
    CoveredByMatchesIffCovered(reference, reference);
  }

  /** SearchEqualEnvelopes accepts a valid envelope exactly when it has the reference's bounds. */
  lemma EqualMatchesIffSameBounds(reference: Box, g: Box)
    requires Valid(g)
    ensures GeometryMatches(Intersection(EqualEnvelopes, reference), Ok(g)) == Ok(SameBounds(reference, g))
  {
    MutualCoverIffSameBounds(reference, g);
    if SameBounds(reference, g) {
      CoversImpliesIntersects(reference, g);
    }
  }

  /** The equality test is symmetric in the reference and the geometry envelope, and reflexive. */
  lemma EqualSymmetricReflexive(a: Box, b: Box)
    requires Valid(a) && Valid(b)
    ensures GeometryMatches(Intersection(EqualEnvelopes, a), Ok(b)) ==
            GeometryMatches(Intersection(EqualEnvelopes, b), Ok(a))
    ensures GeometryMatches(Intersection(EqualEnvelopes, a), Ok(a)) == Ok(true)
  {
    EqualMatchesIffSameBounds(a, b);
    EqualMatchesIffSameBounds(b, a);
    EqualMatchesIffSameBounds(a, a);
  }

  /** Both intersection filters accept only envelopes that meet the reference. */
  lemma MatchImpliesIntersects(kind: IntersectionKind, reference: Box, g: Box)
    requires GeometryMatches(Intersection(kind, reference), Ok(g)) == Ok(true)
    ensures Intersects(g, reference)
  {
  }

  /** SearchAll accepts whatever any filter accepts, and more. */
  lemma SearchAllAcceptsMore(f: SearchFilter, e: Option<Box>, decoded: Result<Box>)
    ensures NeedsToVisit(f, e) == Ok(true) ==> NeedsToVisit(SearchAll, e) == Ok(true)
    ensures GeometryMatches(f, decoded) == Ok(true) ==> GeometryMatches(SearchAll, decoded) == Ok(true)
    ensures NeedsToVisit(SearchAll, None) == Ok(true) && GeometryMatches(SearchAll, Err(NullPointer)) == Ok(true)
  {
  }
}
