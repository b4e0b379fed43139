/**
 * QueryUtils: the graph helpers every R-tree query uses, over the Graph datatype.
 * Each list-building loop of the source is a method proved equal to a function;
 * the functions are what the query models reason about.
 */
module QueryUtils {
  import opened Wrappers
  import opened Boxes
  import opened Graph

  /** QueryUtils.NodeWithEnvelope: the envelope may be null. */
  datatype NodeWithEnvelope = NodeWithEnvelope(node: Node, envelope: Option<Rect>)

  /** NodeWithEnvelope.Pair. */
  datatype EnvelopePair = EnvelopePair(nwe1: NodeWithEnvelope, nwe2: NodeWithEnvelope)

  /**
   * QueryUtils.NodeWithGeometry. The JTS geometry is a function of the node and is
   * not stored; the envelope is the one stored on the reference relationship.
   */
  datatype NodeWithGeometry = NodeWithGeometry(node: Node, envelope: Rect)

  /** NodeWithGeometry.Pair. */
  datatype GeometryPair = GeometryPair(nwg1: NodeWithGeometry, nwg2: NodeWithGeometry)

  /** RtreeUtility.JoinOutput. */
  datatype JoinOutput = JoinOutput(node1: Node, node2: Node)

  /** getIndexNodeEnvelope: null (None) when the node has no bbox property. */
  function IndexNodeEnvelope(n: Node): Option<Rect> { n.bbox }

  // ------------------------------------------------------------- relationship kinds

  predicate IsDirectoryRelationship(r: Rel) { r.kind == Root || r.kind == Child }

  predicate IsRelevantRelationship(r: Rel)
  {
    r.kind == Root || r.kind == Child || r.kind == Reference
  }

  /** A relevant relationship is either a directory one or a reference. */
  lemma RelationshipKinds(r: Rel)
    ensures IsDirectoryRelationship(r) ==> IsRelevantRelationship(r)
    ensures IsRelevantRelationship(r) && !IsDirectoryRelationship(r) <==> r.kind == Reference
  {
  }

  /** The outgoing relationships of one type, in database order. */
  function RelsOf(rels: seq<Rel>, k: RelType): (r: seq<Rel>)
    ensures |r| <= |rels|
    ensures forall x :: x in r <==> x in rels && x.kind == k
  {
    if rels == [] then []
    else
      var last := rels[|rels| - 1];
      var front := rels[..|rels| - 1];
      assert rels == front + [last];
      RelsOf(front, k) + (if last.kind == k then [last] else [])
  }

  /** nodeIsLeaf: no outgoing RTREE_CHILD relationship. */
  predicate NodeIsLeaf(n: Node)
  {
    forall r :: r in n.out ==> r.kind != Child
  }

  // ------------------------------------------------------------------ getIndexRoot

  /**
   * getIndexRoot(layer): getSingleRelationship(RTREE_ROOT, OUTGOING).getEndNode(). No
   * such relationship gives null and so a NullPointerException; several give Neo4j's
   * NotFoundException.
   */
  function IndexRoot(layer: Node): (r: Result<Node>)
    ensures r.Ok? <==> |RelsOf(layer.out, Root)| == 1
    ensures r.Ok? ==> Rel(Root, RelsOf(layer.out, Root)[0].env, r.value) in layer.out
    ensures r.Ok? ==> forall x :: x in layer.out && x.kind == Root ==> x.end == r.value
    ensures |RelsOf(layer.out, Root)| == 0 ==> r == Err(NullPointer)
    ensures |RelsOf(layer.out, Root)| > 1 ==> r == Err(NotFound)
  {
    var roots := RelsOf(layer.out, Root);
    if |roots| == 0 then Err(NullPointer)
    else if |roots| > 1 then Err(NotFound)
    else
      assert roots[0] in roots;
      assert forall x :: x in roots ==> x == roots[0];
      Ok(roots[0].end)
  }

  /** getIndexRoot(List): the layers' roots in order; the first failure propagates. */
  function IndexRoots(layers: seq<Node>): (r: Result<seq<Node>>)
    ensures r.Ok? <==> forall i :: 0 <= i < |layers| ==> IndexRoot(layers[i]).Ok?
    ensures r.Ok? ==> |r.value| == |layers| &&
                      forall i :: 0 <= i < |layers| ==> r.value[i] == IndexRoot(layers[i]).value
  {
    if layers == [] then Ok([])
    else
      match IndexRoot(layers[0])
      case Err(e) => Err(e)
      case Ok(root) =>
        match IndexRoots(layers[1..])
        case Err(e) =>
          assert forall i :: 1 <= i < |layers| ==> layers[i] == layers[1..][i - 1];
          Err(e)
        case Ok(rest) =>
          assert forall i :: 1 <= i < |layers| ==> layers[i] == layers[1..][i - 1];
          Ok([root] + rest)
  }

  // -------------------------------------------------------------- getIndexChildren

  /** The CHILD entries among rels, each paired with the child's own bbox. */
  function ChildrenIn(rels: seq<Rel>): (r: seq<NodeWithEnvelope>)
    ensures |r| == |RelsOf(rels, Child)|
    ensures forall e :: e in r <==>
              exists x :: x in rels && x.kind == Child && e == NodeWithEnvelope(x.end, x.end.bbox)
  {
    if rels == [] then []
    else
      var last := rels[|rels| - 1];
      var front := rels[..|rels| - 1];
      assert rels == front + [last];
      ChildrenIn(front) + (if last.kind == Child then [NodeWithEnvelope(last.end, last.end.bbox)] else [])
  }

  function IndexChildren(n: Node): seq<NodeWithEnvelope> { ChildrenIn(n.out) }

  /** getIndexChildren: the loop over the outgoing RTREE_CHILD relationships. */
  method GetIndexChildren(n: Node) returns (result: seq<NodeWithEnvelope>)
    ensures result == IndexChildren(n)
  {
    result := [];
    var i := 0;
    while i < |n.out|
      invariant 0 <= i <= |n.out|
      invariant result == ChildrenIn(n.out[..i])
    {
      assert n.out[..i + 1][..i] == n.out[..i];
      var r := n.out[i];
      if r.kind == Child {
        result := result + [NodeWithEnvelope(r.end, IndexNodeEnvelope(r.end))];
      }
      i := i + 1;
    }
    assert n.out[..|n.out|] == n.out;
  }

  /** A node is a leaf exactly when getIndexChildren returns nothing. */
  lemma LeafIffNoChildren(n: Node)
    ensures NodeIsLeaf(n) <==> IndexChildren(n) == []
  {
    if !NodeIsLeaf(n) {
      var x :| x in n.out && x.kind == Child;
      assert NodeWithEnvelope(x.end, x.end.bbox) in IndexChildren(n);
    }
    if IndexChildren(n) != [] {
      assert IndexChildren(n)[0] in IndexChildren(n);
    }
  }

  // --------------------------------------------------------------- getGeomtryNodes

  /** The REFERENCE entries among rels, each with the relationship's stored envelope. */
  function GeometryEntries(rels: seq<Rel>): (r: seq<NodeWithGeometry>)
    ensures |r| == |RelsOf(rels, Reference)|
    ensures forall e :: e in r <==>
              exists x :: x in rels && x.kind == Reference && e == NodeWithGeometry(x.end, x.env)
  {
    if rels == [] then []
    else
      var last := rels[|rels| - 1];
      var front := rels[..|rels| - 1];
      assert rels == front + [last];
      GeometryEntries(front) + (if last.kind == Reference then [NodeWithGeometry(last.end, last.env)] else [])
  }

  function GeometryNodes(leaf: Node): seq<NodeWithGeometry> { GeometryEntries(leaf.out) }

  /** getGeomtryNodes: the loop over the outgoing RTREE_REFERENCE relationships. */
  method GetGeometryNodes(leaf: Node) returns (result: seq<NodeWithGeometry>)
    ensures result == GeometryNodes(leaf)
  {
    result := [];
    var i := 0;
    while i < |leaf.out|
      invariant 0 <= i <= |leaf.out|
      invariant result == GeometryEntries(leaf.out[..i])
    {
      assert leaf.out[..i + 1][..i] == leaf.out[..i];
      var r := leaf.out[i];
      if r.kind == Reference {
        result := result + [NodeWithGeometry(r.end, r.env)];
      }
      i := i + 1;
    }
    assert leaf.out[..|leaf.out|] == leaf.out;
  }

  // ----------------------------------------------------- getGeometryNodesFromIndex

  /** The geometries found through the first k outgoing relationships of n. */
  function GeometriesUpTo(n: Node, k: nat): seq<Node>
    requires k <= |n.out|
    decreases n, k
  {
    if k == 0 then []
    else
      var r := n.out[k - 1];
      GeometriesUpTo(n, k - 1) +
        (if r.kind == Reference then [r.end]
         else if r.kind == Child then GeometriesUpTo(r.end, |r.end.out|)
         else [])
  }

  /** Every geometry below n: CHILD relationships followed to any depth, then one REFERENCE. */
  function GeometriesFromIndex(n: Node): seq<Node> { GeometriesUpTo(n, |n.out|) }

  /** getGeometryNodesFromIndex: a loop over the relationships with a recursive call per child. */
  method GetGeometryNodesFromIndex(n: Node) returns (result: seq<Node>)
    ensures result == GeometriesFromIndex(n)
    decreases n
  {
    result := [];
    var i := 0;
    while i < |n.out|
      invariant 0 <= i <= |n.out|
      invariant result == GeometriesUpTo(n, i)
    {
      var r := n.out[i];
      if r.kind == Reference {
        result := result + [r.end];
      } else if r.kind == Child {
        var below := GetGeometryNodesFromIndex(r.end);
        result := result + below;
      }
      i := i + 1;
    }
  }

  lemma {:induction false} GeometriesUpToMember(n: Node, k: nat, g: Node)
    requires k <= |n.out|
    ensures g in GeometriesUpTo(n, k) <==>
              exists i :: 0 <= i < k &&
                ((n.out[i].kind == Reference && n.out[i].end == g) ||
                 (n.out[i].kind == Child && g in GeometriesFromIndex(n.out[i].end)))
  {
    if k > 0 {
      GeometriesUpToMember(n, k - 1, g);
    }
  }

  /**
   * A geometry is found below n exactly when n references it directly or one of n's
   * children finds it: CHILD* followed by one REFERENCE.
   */
  lemma GeometriesFromIndexMember(n: Node, g: Node)
    ensures g in GeometriesFromIndex(n) <==>
              (exists r :: r in n.out && r.kind == Reference && r.end == g) ||
              (exists r :: r in n.out && r.kind == Child && g in GeometriesFromIndex(r.end))
  {
    GeometriesUpToMember(n, |n.out|, g);
    if (exists r :: r in n.out && r.kind == Reference && r.end == g) {
      var r :| r in n.out && r.kind == Reference && r.end == g;
      var i :| 0 <= i < |n.out| && n.out[i] == r;
    }
    if (exists r :: r in n.out && r.kind == Child && g in GeometriesFromIndex(r.end)) {
      var r :| r in n.out && r.kind == Child && g in GeometriesFromIndex(r.end);
      var i :| 0 <= i < |n.out| && n.out[i] == r;
    }
  }

  lemma {:induction false} LeafGeometriesUpTo(n: Node, k: nat)
    requires k <= |n.out| && NodeIsLeaf(n)
    ensures GeometriesUpTo(n, k) == Ends(RelsOf(n.out[..k], Reference))
  {
    if k > 0 {
      LeafGeometriesUpTo(n, k - 1);
      assert n.out[..k][..k - 1] == n.out[..k - 1];
      assert n.out[k - 1] in n.out;
      EndsAppend(RelsOf(n.out[..k - 1], Reference),
                 if n.out[k - 1].kind == Reference then [n.out[k - 1]] else []);
    }
  }

  /** For a leaf, getGeometryNodesFromIndex is exactly its referenced nodes, in order. */
  lemma LeafGeometries(n: Node)
    requires NodeIsLeaf(n)
    ensures GeometriesFromIndex(n) == Ends(RelsOf(n.out, Reference))
  {
    LeafGeometriesUpTo(n, |n.out|);
    assert n.out[..|n.out|] == n.out;
  }

  /** The end nodes of some relationships. */
  function Ends(rels: seq<Rel>): (r: seq<Node>)
    ensures |r| == |rels| && forall i :: 0 <= i < |rels| ==> r[i] == rels[i].end
  {
    seq(|rels|, i requires 0 <= i < |rels| => rels[i].end)
  }

  lemma EndsAppend(a: seq<Rel>, b: seq<Rel>)
    ensures Ends(a + b) == Ends(a) + Ends(b)
  {
  }

  // ---------------------------------------------------- getJoinOutputFromIndexPair

  function RowJoin(x: Node, b: seq<Node>): (r: seq<JoinOutput>)
    ensures |r| == |b| && forall j :: 0 <= j < |b| ==> r[j] == JoinOutput(x, b[j])
  {
    seq(|b|, j requires 0 <= j < |b| => JoinOutput(x, b[j]))
  }

  /** The full cross product of two geometry lists, row by row. */
  function CrossJoin(a: seq<Node>, b: seq<Node>): seq<JoinOutput>
  {
    if a == [] then [] else CrossJoin(a[..|a| - 1], b) + RowJoin(a[|a| - 1], b)
  }

  /** getJoinOutputFromIndexPair: the nested loop over both trees' geometries. */
  method JoinOutputFromIndexPair(index1: Node, index2: Node) returns (results: seq<JoinOutput>)
    ensures results == CrossJoin(GeometriesFromIndex(index1), GeometriesFromIndex(index2))
  {
    results := [];
    var geomNodes1 := GetGeometryNodesFromIndex(index1);
    var geomNodes2 := GetGeometryNodesFromIndex(index2);
    var i := 0;
    while i < |geomNodes1|
      invariant 0 <= i <= |geomNodes1|
      invariant results == CrossJoin(geomNodes1[..i], geomNodes2)
    {
      var j := 0;
      while j < |geomNodes2|
        invariant 0 <= j <= |geomNodes2|
        invariant results == CrossJoin(geomNodes1[..i], geomNodes2) + RowJoin(geomNodes1[i], geomNodes2[..j])
      {
        results := results + [JoinOutput(geomNodes1[i], geomNodes2[j])];
        j := j + 1;
      }
      assert geomNodes2[..j] == geomNodes2;
      assert geomNodes1[..i + 1][..i] == geomNodes1[..i];
      i := i + 1;
    }
    assert geomNodes1[..i] == geomNodes1;
  }

  /** The cross product has |a|*|b| entries and holds (x, y) exactly when x is in a and y in b. */
  lemma {:induction false} CrossJoinShape(a: seq<Node>, b: seq<Node>)
    ensures |CrossJoin(a, b)| == |a| * |b|
    ensures forall p :: p in CrossJoin(a, b) <==> p.node1 in a && p.node2 in b
  {
    if a != [] {
      var front := a[..|a| - 1];
      CrossJoinShape(front, b);
      assert a == front + [a[|a| - 1]];
      calc {
        |CrossJoin(a, b)|;
        |CrossJoin(front, b)| + |b|;
        |front| * |b| + |b|;
        (|front| + 1) * |b|;
      }
      forall p
        ensures p in CrossJoin(a, b) <==> p.node1 in a && p.node2 in b
      {
        if p in RowJoin(a[|a| - 1], b) {
          var j :| 0 <= j < |b| && RowJoin(a[|a| - 1], b)[j] == p;
        }
        if p.node1 == a[|a| - 1] && p.node2 in b {
          var j :| 0 <= j < |b| && b[j] == p.node2;
          assert RowJoin(a[|a| - 1], b)[j] == p;
        }
      }
    }
  }

  /** Row-major order: entry i*|b| + j pairs a[i] with b[j]. */
  lemma {:induction false} CrossJoinIndex(a: seq<Node>, b: seq<Node>, i: nat, j: nat)
    requires i < |a| && j < |b|
    ensures i * |b| + j < |CrossJoin(a, b)|
    ensures CrossJoin(a, b)[i * |b| + j] == JoinOutput(a[i], b[j])
  {
    var front := a[..|a| - 1];
    CrossJoinShape(front, b);
    CrossJoinShape(a, b);
    if i < |a| - 1 {
      CrossJoinIndex(front, b, i, j);
      assert i * |b| + j < |front| * |b| by {
        MulStrict(i, |front|, |b|, j);
      }
    } else {
      assert i * |b| == |front| * |b|;
    }
  }

  lemma MulStrict(i: nat, m: nat, w: nat, j: nat)
    requires i < m && j < w
    ensures i * w + j < m * w
  {
    assert (m - i) * w >= w by {
      assert m - i >= 1;
    }
    assert m * w == i * w + (m - i) * w;
  }
}
