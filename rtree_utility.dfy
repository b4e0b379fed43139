/**
 * RtreeUtility.getMetas: the index-node and geometry counts of the layers' R-tree
 * metadata, multiplied for a join and added otherwise, in Java int arithmetic.
 */
module RtreeUtility {
  import opened Wrappers

  /** RtreeQueryConstants.RtreeQuery. */
  datatype RtreeQuery = JOIN | RANGE | KNN

  /** A metadata node: its totalIndexCount and totalGeometryCount properties. */
  datatype Meta = Meta(totalIndexCount: int, totalGeometryCount: int)

  /** A layer: the end nodes of its outgoing RTREE_METADATA relationships, in order. */
  type Layer = seq<Meta>

  /** The metadata nodes of all the layers, layer by layer. */
  function AllMetas(layers: seq<Layer>): seq<Meta>
  {
    if layers == [] then [] else AllMetas(layers[..|layers| - 1]) + layers[|layers| - 1]
  }

  /** A metadata node is collected exactly when some layer holds it. */
  lemma {:induction false} AllMetasMembers(layers: seq<Layer>, m: Meta)
    ensures m in AllMetas(layers) <==> exists i :: 0 <= i < |layers| && m in layers[i]
  {
    if layers != [] {
      var front := layers[..|layers| - 1];
      AllMetasMembers(front, m);
      if m in AllMetas(layers) {
        if m !in AllMetas(front) {
          assert m in layers[|layers| - 1];
        }
      } else {
        forall i | 0 <= i < |layers|
          ensures m !in layers[i]
        {
          if i < |front| {
            assert layers[i] == front[i];
          }
        }
      }
    }
  }

  function IndexCounts(ms: seq<Meta>): (r: seq<int>)
    ensures |r| == |ms| && forall i :: 0 <= i < |ms| ==> r[i] == ms[i].totalIndexCount
  {
    seq(|ms|, i requires 0 <= i < |ms| => ms[i].totalIndexCount)
  }

  function GeometryCounts(ms: seq<Meta>): (r: seq<int>)
    ensures |r| == |ms| && forall i :: 0 <= i < |ms| ==> r[i] == ms[i].totalGeometryCount
  {
    seq(|ms|, i requires 0 <= i < |ms| => ms[i].totalGeometryCount)
  }

  /** The starting value: 1 for a product, 0 for a sum. */
  function Start(multiply: bool): int
  {
    if multiply then 1 else 0
  }

  /** metas[k] *= x or metas[k] += x, in int arithmetic. */
  function Step(multiply: bool, acc: int, x: int): int
  {
    ToInt32(if multiply then acc * x else acc + x)
  }

  /** The aggregate after each count in turn. */
  function Aggregate(multiply: bool, xs: seq<int>): int
  {
    if xs == [] then Start(multiply) else Step(multiply, Aggregate(multiply, xs[..|xs| - 1]), xs[|xs| - 1])
  }

  function Sum(xs: seq<int>): int
  {
    if xs == [] then 0 else Sum(xs[..|xs| - 1]) + xs[|xs| - 1]
  }

  function Product(xs: seq<int>): int
  {
    if xs == [] then 1 else Product(xs[..|xs| - 1]) * xs[|xs| - 1]
  }

  /** The aggregate is the plain sum or product, wrapped once to an int. */
  lemma {:induction false} AggregateWraps(multiply: bool, xs: seq<int>)
    ensures Aggregate(multiply, xs) == ToInt32(if multiply then Product(xs) else Sum(xs))
  {
    if xs != [] {
      var front := xs[..|xs| - 1];
      AggregateWraps(multiply, front);
      ToInt32Step(if multiply then Product(front) else Sum(front), xs[|xs| - 1]);
    }
  }

  /** One more metadata node takes each aggregate one step further. */
  lemma AggregateNext(multiply: bool, ms: seq<Meta>, m: Meta)
    ensures Aggregate(multiply, IndexCounts(ms + [m])) == Step(multiply, Aggregate(multiply, IndexCounts(ms)), m.totalIndexCount)
    ensures Aggregate(multiply, GeometryCounts(ms + [m])) == Step(multiply, Aggregate(multiply, GeometryCounts(ms)), m.totalGeometryCount)
  {
    assert IndexCounts(ms + [m])[..|ms|] == IndexCounts(ms);
    assert GeometryCounts(ms + [m])[..|ms|] == GeometryCounts(ms);
  }

  /**
   * getMetas: [index-count aggregate, geometry-count aggregate] over every metadata node of
   * every layer; JOIN multiplies from 1, the other queries add from 0.
   */
  method GetMetas(layers: seq<Layer>, queryType: RtreeQuery) returns (metas: array<int>)
    ensures fresh(metas) && metas.Length == 2
    ensures metas[0] == Aggregate(queryType == JOIN, IndexCounts(AllMetas(layers)))
    ensures metas[1] == Aggregate(queryType == JOIN, GeometryCounts(AllMetas(layers)))
  {
    metas := new int[2](_ => 0);
    var isMultiplication := queryType == JOIN;
    if isMultiplication {
      metas[0] := 1;
      metas[1] := 1;
    }
    for i := 0 to |layers|
      invariant metas[0] == Aggregate(isMultiplication, IndexCounts(AllMetas(layers[..i])))
      invariant metas[1] == Aggregate(isMultiplication, GeometryCounts(AllMetas(layers[..i])))
    {
      assert layers[..i + 1][..i] == layers[..i];
      AddLayer(metas, isMultiplication, layers[i], AllMetas(layers[..i]));
    }
    assert layers[..|layers|] == layers;
  }

  /** The inner loop of getMetas: every metadata node of one layer taken into both aggregates. */
  method AddLayer(metas: array<int>, isMultiplication: bool, relationships: Layer, ghost seen: seq<Meta>)
    requires metas.Length == 2
    requires metas[0] == Aggregate(isMultiplication, IndexCounts(seen))
    requires metas[1] == Aggregate(isMultiplication, GeometryCounts(seen))
    modifies metas
    ensures metas[0] == Aggregate(isMultiplication, IndexCounts(seen + relationships))
    ensures metas[1] == Aggregate(isMultiplication, GeometryCounts(seen + relationships))
  {
    assert seen + relationships[..0] == seen;
    for j := 0 to |relationships|
      invariant metas[0] == Aggregate(isMultiplication, IndexCounts(seen + relationships[..j]))
      invariant metas[1] == Aggregate(isMultiplication, GeometryCounts(seen + relationships[..j]))
    {
      var meta := relationships[j];
      var totalIndexCount := meta.totalIndexCount;
      var totalGeometryCount := meta.totalGeometryCount;
      AggregateNext(isMultiplication, seen + relationships[..j], meta);
      assert seen + relationships[..j + 1] == seen + relationships[..j] + [meta];
      // metas[0] *= totalIndexCount and metas[1] *= totalGeometryCount for a join,
      // += otherwise
      metas[0] := Step(isMultiplication, metas[0], totalIndexCount);
      metas[1] := Step(isMultiplication, metas[1], totalGeometryCount);
    }
    assert relationships[..|relationships|] == relationships;
  }

  /** With no metadata at all, getMetas returns its starting values. */
  lemma {:induction false} NoMetadata(layers: seq<Layer>, queryType: RtreeQuery)
    requires forall i :: 0 <= i < |layers| ==> layers[i] == []
    ensures Aggregate(queryType == JOIN, IndexCounts(AllMetas(layers))) == Start(queryType == JOIN)
    ensures Aggregate(queryType == JOIN, GeometryCounts(AllMetas(layers))) == Start(queryType == JOIN)
  {
    if layers != [] {
      var front := layers[..|layers| - 1];
      assert forall i :: 0 <= i < |front| ==> front[i] == layers[i];
      NoMetadata(front, queryType);
      assert AllMetas(layers) == AllMetas(front);
    }
  }
}
