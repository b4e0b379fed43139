/**
 * SpatialIndexRecordCounter: a visitor that visits every index node and counts the index
 * nodes and the geometry references it meets. Its counters are Java ints.
 */
module RecordCounter {
  import opened Wrappers
  import opened Graph

  /** A counter incremented n times from 0, each increment wrapping at 2^31. */
  function Increments(n: nat): int
  {
    if n == 0 then 0 else ToInt32(Increments(n - 1) + 1)
  }

  /** n increments give n as an int: n itself below 2^31, wrapped beyond. */
  lemma {:induction false} IncrementsCount(n: nat)
    ensures Increments(n) == ToInt32(n)
    ensures n < 0x8000_0000 ==> Increments(n) == n
  {
    if n > 0 {
      IncrementsCount(n - 1);
      ToInt32Step(n - 1, 1);
    }
    if n < 0x8000_0000 {
      ToInt32Small(n);
    }
  }

  class SpatialIndexRecordCounter {
    var geometryResult: int
    var indexResult: int

    /** Both counters start at 0. */
    constructor ()
      ensures geometryResult == 0 && indexResult == 0
    {
      geometryResult, indexResult := 0, 0;
    }

    /** onIndexReference: one more geometry. */
    method OnIndexReference(geomNode: Node)
      modifies this
      ensures geometryResult == ToInt32(old(geometryResult) + 1)
      ensures indexResult == old(indexResult)
    {
      geometryResult := ToInt32(geometryResult + 1);
    }

    /** needsToVisit: one more index node, and every index node is visited. */
    method NeedsToVisit(indexNodeEnvelope: Rect) returns (b: bool)
      modifies this
      ensures b
      ensures indexResult == ToInt32(old(indexResult) + 1)
      ensures geometryResult == old(geometryResult)
    {
      indexResult := ToInt32(indexResult + 1);
      return true;
    }

    method GetGeometryResult() returns (n: int)
      ensures n == geometryResult
    {
      n := geometryResult;
    }

    method GetIndexResult() returns (n: int)
      ensures n == indexResult
    {
      n := indexResult;
    }
  }

  /**
   * A fresh counter told of each of the given index nodes and geometry references counts
   * them, as ints.
   */
  method CountVisits(envelopes: seq<Rect>, geometries: seq<Node>) returns (indexCount: int, geometryCount: int)
    ensures indexCount == ToInt32(|envelopes|) && geometryCount == ToInt32(|geometries|)
  {
    var counter := new SpatialIndexRecordCounter();
    for i := 0 to |envelopes|
      invariant counter.indexResult == Increments(i) && counter.geometryResult == 0
    {
      var _ := counter.NeedsToVisit(envelopes[i]);
    }
    for j := 0 to |geometries|
      invariant counter.indexResult == Increments(|envelopes|) && counter.geometryResult == Increments(j)
    {
      counter.OnIndexReference(geometries[j]);
    }
    IncrementsCount(|envelopes|);
    IncrementsCount(|geometries|);
    indexCount := counter.GetIndexResult();
    geometryCount := counter.GetGeometryResult();
  }
}
