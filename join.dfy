/**
 * Join: the spatial join of two R-tree indexes (Join.java). Both trees are descended
 * together from their roots; at every level the children whose envelopes meet the current
 * window are sorted by minX and paired by a sweep over the x axis; pairs of leaves are
 * collected, a leaf paired with a directory is resolved by a window query on the other tree,
 * and two directories recurse with the window narrowed to their intersection. The geometry
 * pairs under the collected leaf pairs whose stored envelopes intersect are then handed to
 * the topology predicate.
 */
module Join {
  import opened Wrappers
  import opened Boxes
  import opened Graph
  import opened QueryUtils
  import opened Seqs
  import opened Sorting
  import opened Arguments
  import opened JoinOperations

  // ------------------------------------------------------------ entries and envelopes

  /**
   * nwe.envelope.intersects(rect). The source dereferences the envelope; the callers
   * below only pass entries that have one, and a missing envelope meets nothing here.
   */
  predicate MeetsRect(e: NodeWithEnvelope, rect: Rect)
  {
    e.envelope.Some? && Intersects(e.envelope.value, rect)
  }

  /** a.envelope.intersects(b.envelope). */
  predicate Meets(a: NodeWithEnvelope, b: NodeWithEnvelope)
  {
    a.envelope.Some? && b.envelope.Some? && Intersects(a.envelope.value, b.envelope.value)
  }

  /** The sort and sweep key envelope.getMinX(); 0 stands in for a missing envelope. */
  function MinXOf(e: NodeWithEnvelope): real
  {
    if e.envelope.Some? then MinX(e.envelope.value) else 0.0
  }

  function MaxXOf(e: NodeWithEnvelope): real
  {
    if e.envelope.Some? then MaxX(e.envelope.value) else 0.0
  }

  /** Meeting entries overlap on the x axis, which is what the sweep relies on. */
  lemma MeetsOnX(a: NodeWithEnvelope, b: NodeWithEnvelope)
    requires Meets(a, b)
    ensures MinXOf(b) <= MaxXOf(a) && MinXOf(a) <= MaxXOf(b)
  {
    assert Dim(a.envelope.value) == 2;
  }

  // ------------------------------------------------------------------- the x sweep

  /** The pairs (t, e), e running through s in order, whose envelopes meet. */
  function Row(t: NodeWithEnvelope, s: seq<NodeWithEnvelope>): (r: seq<EnvelopePair>)
    ensures forall p :: p in r <==> p.nwe1 == t && p.nwe2 in s && Meets(t, p.nwe2)
  {
    if s == [] then []
    else
      assert forall e :: e in s <==> e == s[0] || e in s[1..];
      (if Meets(t, s[0]) then [EnvelopePair(t, s[0])] else []) + Row(t, s[1..])
  }

  /** The meeting pairs of s1 x s2, row by row: what the sweep computes. */
  function Cross(s1: seq<NodeWithEnvelope>, s2: seq<NodeWithEnvelope>): (r: seq<EnvelopePair>)
    ensures forall p :: p in r <==> p.nwe1 in s1 && p.nwe2 in s2 && Meets(p.nwe1, p.nwe2)
  {
    if s1 == [] then []
    else
      var front := s1[..|s1| - 1];
      assert forall e :: e in s1 <==> e in front || e == s1[|s1| - 1];
      Cross(front, s2) + Row(s1[|s1| - 1], s2)
  }

  /**
   * internalLoop(t, unmarked, Sseq, output): from index unmarked on, while the entry's minX
   * does not pass t's maxX, the entries meeting t paired with it.
   */
  function Sweep(t: NodeWithEnvelope, s: seq<NodeWithEnvelope>, k: nat): seq<EnvelopePair>
    decreases |s| - k
  {
    if k >= |s| || MinXOf(s[k]) > MaxXOf(t) then []
    else (if Meets(t, s[k]) then [EnvelopePair(t, s[k])] else []) + Sweep(t, s, k + 1)
  }

  /** internalLoop. */
  method InternalLoop(t: NodeWithEnvelope, unmarked: nat, sseq: seq<NodeWithEnvelope>,
                      output: seq<EnvelopePair>) returns (out: seq<EnvelopePair>)
    ensures out == output + Sweep(t, sseq, unmarked)
  {
    out := output;
    var k := unmarked;
    while k < |sseq| && MinXOf(sseq[k]) <= MaxXOf(t)
      invariant k >= unmarked
      invariant out + Sweep(t, sseq, k) == output + Sweep(t, sseq, unmarked)
      decreases |sseq| - k
    {
      if Meets(t, sseq[k]) {
        out := out + [EnvelopePair(t, sseq[k])];
      }
      k := k + 1;
    }
  }

  /** On a list sorted by minX the sweep stops only where nothing further can meet t. */
  lemma {:induction false} SweepIsRow(t: NodeWithEnvelope, s: seq<NodeWithEnvelope>, k: nat)
    requires SortedBy(s, MinXOf) && k <= |s|
    ensures Sweep(t, s, k) == Row(t, s[k..])
    decreases |s| - k
  {
    if k == |s| {
    } else if MinXOf(s[k]) > MaxXOf(t) {
      forall e | e in s[k..]
        ensures !Meets(t, e)
      {
        if Meets(t, e) {
          MeetsOnX(t, e);
        }
      }
      RowNone(t, s[k..]);
    } else {
      SweepIsRow(t, s, k + 1);
      assert s[k..][1..] == s[k + 1..];
    }
  }

  /** A row none of whose entries meets t is empty. */
  lemma {:induction false} RowNone(t: NodeWithEnvelope, s: seq<NodeWithEnvelope>)
    requires forall e :: e in s ==> !Meets(t, e)
    ensures Row(t, s) == []
  {
    if s != [] {
      RowNone(t, s[1..]);
    }
  }

  /** Entries lying wholly left of t on the x axis contribute nothing to t's row. */
  lemma {:induction false} RowSkip(t: NodeWithEnvelope, s: seq<NodeWithEnvelope>, j: nat)
    requires j <= |s| && forall k :: 0 <= k < j ==> MaxXOf(s[k]) < MinXOf(t)
    ensures Row(t, s) == Row(t, s[j..])
  {
    if j > 0 {
      if Meets(t, s[0]) {
        MeetsOnX(t, s[0]);
      }
      RowSkip(t, s[1..], j - 1);
      assert s[1..][j - 1..] == s[j..];
    }
  }

  /** A row of which every entry lies left of t is empty. */
  lemma RowEmpty(t: NodeWithEnvelope, s: seq<NodeWithEnvelope>)
    requires forall k :: 0 <= k < |s| ==> MaxXOf(s[k]) < MinXOf(t)
    ensures Row(t, s) == []
  {
    RowSkip(t, s, |s|);
  }

  /** Once every entry of s2 lies left of s1[i], the remaining rows are empty. */
  lemma {:induction false} CrossRest(s1: seq<NodeWithEnvelope>, s2: seq<NodeWithEnvelope>, i: nat)
    requires SortedBy(s1, MinXOf) && i < |s1|
    requires forall k :: 0 <= k < |s2| ==> MaxXOf(s2[k]) < MinXOf(s1[i])
    ensures Cross(s1, s2) == Cross(s1[..i], s2)
    decreases |s1|
  {
    if |s1| - 1 > i {
      CrossRest(s1[..|s1| - 1], s2, i);
      assert s1[..|s1| - 1][..i] == s1[..i];
    } else {
      assert s1[..|s1| - 1] == s1[..i];
    }
    RowEmpty(s1[|s1| - 1], s2);
  }

  /**
   * sortedIntersectionTest: on two lists sorted by minX, the plane sweep yields exactly the
   * meeting pairs of l1 x l2, each oriented (l1 entry, l2 entry), row by row.
   */
  method SortedIntersectionTest(l1: seq<NodeWithEnvelope>, l2: seq<NodeWithEnvelope>)
    returns (output: seq<EnvelopePair>)
    requires SortedBy(l1, MinXOf) && SortedBy(l2, MinXOf)
    ensures output == Cross(l1, l2)
  {
    output := [];
    var i, j := 0, 0;
    while i < |l1| && j < |l2|
      invariant 0 <= i <= |l1| && 0 <= j <= |l2|
      invariant output == Cross(l1[..i], l2)
      invariant i < |l1| ==> forall k :: 0 <= k < j ==> MaxXOf(l2[k]) < MinXOf(l1[i])
    {
      if MinXOf(l1[i]) <= MaxXOf(l2[j]) {
        output := InternalLoop(l1[i], j, l2, output);
        SweepIsRow(l1[i], l2, j);
        RowSkip(l1[i], l2, j);
        assert l1[..i + 1][..i] == l1[..i];
        i := i + 1;
      } else {
        output := InternalLoop(l2[j], i, l1, output);
        j := j + 1;
      }
    }
    if i < |l1| {
      CrossRest(l1, l2, i);
    } else {
      assert l1[..i] == l1;
    }
  }

  // -------------------------------------------------------------------- the trees

  /** Every CHILD relationship below n ends at a node with a bbox: the join reads them all. */
  predicate Boxed(n: Node)
  {
    forall r :: r in n.out && r.kind == Child ==> r.end.bbox.Some? && Boxed(r.end)
  }

  /** e is one of the entries getIndexChildren(n) returns. */
  predicate ChildOf(e: NodeWithEnvelope, n: Node)
  {
    exists r :: r in n.out && r.kind == Child && e == NodeWithEnvelope(r.end, r.end.bbox)
  }

  /** n lies strictly below top along CHILD relationships. */
  predicate Below(n: Node, top: Node)
  {
    exists r :: r in top.out && r.kind == Child && (r.end == n || Below(n, r.end))
  }

  lemma ChildFacts(e: NodeWithEnvelope, n: Node)
    requires ChildOf(e, n)
    ensures Height(e.node) < Height(n) && e.envelope == e.node.bbox && Below(e.node, n)
    ensures Boxed(n) ==> e.envelope.Some? && Boxed(e.node)
  {
    var r :| r in n.out && r.kind == Child && e == NodeWithEnvelope(r.end, r.end.bbox);
    var i :| 0 <= i < |n.out| && n.out[i] == r;
    HeightDecreases(n, i);
  }

  lemma BelowChild(m: Node, e: NodeWithEnvelope, n: Node)
    requires ChildOf(e, n) && Below(m, e.node)
    ensures Below(m, n)
  {
    var r :| r in n.out && r.kind == Child && e == NodeWithEnvelope(r.end, r.end.bbox);
    assert r.end == e.node;
  }

  /**
   * The first two steps of spatialJoin4: getIndexChildren(n) filtered by the window, then
   * sorted by minX: exactly the children meeting the window, in minX order.
   */
  function Candidates(n: Node, rect: Rect): (r: seq<NodeWithEnvelope>)
    ensures SortedBy(r, MinXOf)
    ensures forall e :: e in r <==> ChildOf(e, n) && MeetsRect(e, rect)
  {
    var c := Filter(IndexChildren(n), e => MeetsRect(e, rect));
    SortBySorted(c, MinXOf);
    SortBy(c, MinXOf)
  }

  /** envelope.intersection(other) of two meeting rectangles: a rectangle inside both. */
  function Overlap(a: Rect, b: Rect): (c: Rect)
    requires Intersects(a, b)
    ensures Covers(a, c) && Covers(b, c)
  {
    IntersectionCovered(a, b);
    IntersectionOf(a, b)
  }

  lemma MeetsSymmetric(a: NodeWithEnvelope, b: NodeWithEnvelope)
    ensures Meets(a, b) == Meets(b, a)
  {
    if a.envelope.Some? && b.envelope.Some? {
      IntersectsSymmetric(a.envelope.value, b.envelope.value);
    }
  }

  // ---------------------------------------------------------------- windowQuery

  /**
   * What windowQuery(leafNwe, dirNode, ..., isLeft) may return: leafNwe on the side isLeft
   * names, and on the other side a leaf strictly below dirNode, carrying its own bbox, that
   * meets leafNwe.
   */
  predicate WindowPair(leafNwe: NodeWithEnvelope, dirNode: Node, isLeft: bool, p: EnvelopePair)
  {
    var o := if isLeft then p.nwe2 else p.nwe1;
    (if isLeft then p.nwe1 else p.nwe2) == leafNwe &&
    NodeIsLeaf(o.node) && o.envelope == o.node.bbox && Meets(leafNwe, o) && Below(o.node, dirNode)
  }

  /**
   * windowQuery: the children of dirNode meeting the window and the leaf, each either a
   * leaf paired with leafNwe or searched the same way with the window narrowed to it.
   */
  function WindowQuery(leafNwe: NodeWithEnvelope, dirNode: Node, rect: Rect, isLeft: bool)
    : (r: seq<EnvelopePair>)
    requires Boxed(dirNode)
    ensures forall p :: p in r ==> WindowPair(leafNwe, dirNode, isLeft, p)
    decreases Height(dirNode), 1
  {
    WindowEntries(leafNwe, dirNode, WindowDirs(leafNwe, dirNode, rect), rect, isLeft)
  }

  /** The two filters of windowQuery: the children meeting the window and the leaf. */
  function WindowDirs(leafNwe: NodeWithEnvelope, dirNode: Node, rect: Rect): (r: seq<NodeWithEnvelope>)
    ensures forall e :: e in r <==> ChildOf(e, dirNode) && MeetsRect(e, rect) && Meets(leafNwe, e)
  {
    Filter(Filter(IndexChildren(dirNode), e => MeetsRect(e, rect)), e => Meets(leafNwe, e))
  }

  /** The flatMap of windowQuery over the filtered children, in order. */
  function WindowEntries(leafNwe: NodeWithEnvelope, dirNode: Node, dirs: seq<NodeWithEnvelope>,
                         rect: Rect, isLeft: bool): (r: seq<EnvelopePair>)
    requires Boxed(dirNode)
    requires forall e :: e in dirs ==> ChildOf(e, dirNode) && MeetsRect(e, rect) && Meets(leafNwe, e)
    ensures forall p :: p in r ==> WindowPair(leafNwe, dirNode, isLeft, p)
    decreases Height(dirNode), 0, |dirs|
  {
    if dirs == [] then []
    else
      var front := dirs[..|dirs| - 1];
      assert forall e :: e in front ==> e in dirs;
      WindowEntries(leafNwe, dirNode, front, rect, isLeft) +
        WindowEntry(leafNwe, dirNode, dirs[|dirs| - 1], rect, isLeft)
  }

  /** One step of the flatMap: a leaf entry is paired, a directory entry is searched. */
  function WindowEntry(leafNwe: NodeWithEnvelope, dirNode: Node, dirEntry: NodeWithEnvelope,
                       rect: Rect, isLeft: bool): (r: seq<EnvelopePair>)
    requires Boxed(dirNode)
    requires ChildOf(dirEntry, dirNode) && MeetsRect(dirEntry, rect) && Meets(leafNwe, dirEntry)
    ensures forall p :: p in r ==> WindowPair(leafNwe, dirNode, isLeft, p)
    decreases Height(dirNode), 0, 0
  {
    ChildFacts(dirEntry, dirNode);
    if NodeIsLeaf(dirEntry.node) then
      [EnvelopePair(if isLeft then leafNwe else dirEntry, if isLeft then dirEntry else leafNwe)]
    else
      var r := WindowQuery(leafNwe, dirEntry.node, Overlap(dirEntry.envelope.value, rect), isLeft);
      forall p | p in r
        ensures Below((if isLeft then p.nwe2 else p.nwe1).node, dirNode)
      {
        BelowChild((if isLeft then p.nwe2 else p.nwe1).node, dirEntry, dirNode);
      }
      r
  }

  // ---------------------------------------------------------------- spatialJoin4

  /**
   * A pair spatialJoin4(n1, n2, ...) may return: a leaf strictly below n1 and a leaf strictly
   * below n2, in that order, each with its own bbox, whose bboxes intersect.
   */
  predicate LeafPair(p: EnvelopePair, n1: Node, n2: Node)
  {
    NodeIsLeaf(p.nwe1.node) && NodeIsLeaf(p.nwe2.node) &&
    p.nwe1.envelope == p.nwe1.node.bbox && p.nwe2.envelope == p.nwe2.node.bbox &&
    Meets(p.nwe1, p.nwe2) && Below(p.nwe1.node, n1) && Below(p.nwe2.node, n2)
  }

  /** A pair the sweep over the candidates of n1 and n2 produces. */
  predicate ChildPair(p: EnvelopePair, n1: Node, n2: Node)
  {
    ChildOf(p.nwe1, n1) && ChildOf(p.nwe2, n2) && Meets(p.nwe1, p.nwe2)
  }

  /** What spatialJoin4(n1, n2, rect) returns. */
  ghost function SpatialJoin(n1: Node, n2: Node, rect: Rect): (r: seq<EnvelopePair>)
    requires Boxed(n1) && Boxed(n2)
    ensures forall p :: p in r ==> LeafPair(p, n1, n2)
    decreases Height(n1) + Height(n2), 1
  {
    JoinPairs(n1, n2, Cross(Candidates(n1, rect), Candidates(n2, rect)))
  }

  /** The loop of spatialJoin4 over the sweep's pairs. */
  ghost function JoinPairs(n1: Node, n2: Node, pairs: seq<EnvelopePair>): (r: seq<EnvelopePair>)
    requires Boxed(n1) && Boxed(n2)
    requires forall p :: p in pairs ==> ChildPair(p, n1, n2)
    ensures forall p :: p in r ==> LeafPair(p, n1, n2)
    decreases Height(n1) + Height(n2), 0, |pairs|
  {
    if pairs == [] then []
    else
      var front := pairs[..|pairs| - 1];
      assert forall p :: p in front ==> p in pairs;
      JoinPairs(n1, n2, front) + JoinPair(n1, n2, pairs[|pairs| - 1])
  }

  /**
   * One pass of that loop: two leaves are kept, a leaf and a directory go to windowQuery,
   * two directories recurse; the window is the pair's envelope intersection.
   */
  ghost function JoinPair(n1: Node, n2: Node, p: EnvelopePair): (r: seq<EnvelopePair>)
    requires Boxed(n1) && Boxed(n2) && ChildPair(p, n1, n2)
    ensures forall q :: q in r ==> LeafPair(q, n1, n2)
    decreases Height(n1) + Height(n2), 0, 0
  {
    ChildFacts(p.nwe1, n1);
    ChildFacts(p.nwe2, n2);
    var child1, child2 := p.nwe1.node, p.nwe2.node;
    var inter := Overlap(p.nwe1.envelope.value, p.nwe2.envelope.value);
    if NodeIsLeaf(child1) && NodeIsLeaf(child2) then [p]
    else if NodeIsLeaf(child1) then
      var r := WindowQuery(p.nwe1, child2, inter, true);
      forall q | q in r
        ensures Below(q.nwe2.node, n2)
      {
        BelowChild(q.nwe2.node, p.nwe2, n2);
      }
      r
    else if NodeIsLeaf(child2) then
      var r := WindowQuery(p.nwe2, child1, inter, false);
      forall q | q in r
        ensures Below(q.nwe1.node, n1) && Meets(q.nwe1, q.nwe2)
      {
        BelowChild(q.nwe1.node, p.nwe1, n1);
        MeetsSymmetric(q.nwe1, q.nwe2);
      }
      r
    else
      var r := SpatialJoin(child1, child2, inter);
      forall q | q in r
        ensures Below(q.nwe1.node, n1) && Below(q.nwe2.node, n2)
      {
        BelowChild(q.nwe1.node, p.nwe1, n1);
        BelowChild(q.nwe2.node, p.nwe2, n2);
      }
      r
  }

  /** pinCounts.getOrDefault(node, 0). */
  function PinCount(pinCounts: map<Node, int>, node: Node): int
  {
    if node in pinCounts then pinCounts[node] else 0
  }

  /** incrementPinCount: node's count goes up by one; every other entry is kept. */
  function IncrementPinCount(pinCounts: map<Node, int>, node: Node): (r: map<Node, int>)
    ensures node in r && PinCount(r, node) == PinCount(pinCounts, node) + 1
    ensures forall n :: n != node ==> (n in r <==> n in pinCounts) && PinCount(r, n) == PinCount(pinCounts, n)
  {
    pinCounts[node := PinCount(pinCounts, node) + 1]
  }

  /**
   * decrementPinCount: node's count goes down by one and the entry is removed when that
   * reaches zero; every other entry is kept.
   */
  function DecrementPinCount(pinCounts: map<Node, int>, node: Node): (r: map<Node, int>)
    ensures PinCount(r, node) == PinCount(pinCounts, node) - 1
    ensures node in r <==> PinCount(pinCounts, node) != 1
    ensures forall n :: n != node ==> (n in r <==> n in pinCounts) && PinCount(r, n) == PinCount(pinCounts, n)
  {
    var count := PinCount(pinCounts, node) - 1;
    if count == 0 then pinCounts - {node} else pinCounts[node := count]
  }

  /** No entry holds a zero count, which a map built by the two helpers keeps. */
  predicate NoZeroPins(pinCounts: map<Node, int>)
  {
    forall n :: n in pinCounts ==> pinCounts[n] != 0
  }

  /** Pinning two nodes and unpinning them again restores the map, a == b included. */
  lemma PinCountsBalance(pinCounts: map<Node, int>, a: Node, b: Node)
    requires NoZeroPins(pinCounts)
    ensures DecrementPinCount(DecrementPinCount(
              IncrementPinCount(IncrementPinCount(pinCounts, a), b), a), b) == pinCounts
  {
    var m := DecrementPinCount(DecrementPinCount(IncrementPinCount(IncrementPinCount(pinCounts, a), b), a), b);
    assert forall n :: PinCount(m, n) == PinCount(pinCounts, n);
    assert m.Keys == pinCounts.Keys;
  }

  /**
   * spatialJoin4 on nodes whose whole subtrees carry bboxes: its result is SpatialJoin's,
   * every pair in it is two leaves from under node1 and node2 whose bboxes intersect.
   */
  method SpatialJoin4(node1: Node, node2: Node, intersectionRect: Rect)
    returns (leafPairs: seq<EnvelopePair>)
    requires Boxed(node1) && Boxed(node2)
    ensures leafPairs == SpatialJoin(node1, node2, intersectionRect)
    ensures forall p :: p in leafPairs ==> LeafPair(p, node1, node2)
    decreases Height(node1) + Height(node2), 2
  {
    var rtreeNodes1 := Candidates(node1, intersectionRect);
    var rtreeNodes2 := Candidates(node2, intersectionRect);
    var pairs := SortedIntersectionTest(rtreeNodes1, rtreeNodes2);
    leafPairs := VisitPairs(node1, node2, pairs);
  }

  /** The loop of spatialJoin4: its pin map is empty again after every pair. */
  method VisitPairs(node1: Node, node2: Node, pairs: seq<EnvelopePair>)
    returns (leafPairs: seq<EnvelopePair>)
    requires Boxed(node1) && Boxed(node2)
    requires forall p :: p in pairs ==> ChildPair(p, node1, node2)
    ensures leafPairs == JoinPairs(node1, node2, pairs)
    decreases Height(node1) + Height(node2), 1
  {
    leafPairs := [];
    var pinCounts: map<Node, int> := map[];
    var i := 0;
    while i < |pairs|
      invariant 0 <= i <= |pairs|
      invariant leafPairs == JoinPairs(node1, node2, pairs[..i])
      invariant pinCounts == map[]
    {
      assert pairs[..i + 1][..i] == pairs[..i];
      var found;
      found, pinCounts := VisitPair(node1, node2, pairs[i], pinCounts);
      leafPairs := leafPairs + found;
      i := i + 1;
    }
    assert pairs[..i] == pairs;
  }

  /** The body of spatialJoin4's loop for one pair, with the pinning around the recursion. */
  method VisitPair(node1: Node, node2: Node, pair: EnvelopePair, pinCounts: map<Node, int>)
    returns (found: seq<EnvelopePair>, pins: map<Node, int>)
    requires Boxed(node1) && Boxed(node2) && ChildPair(pair, node1, node2)
    requires NoZeroPins(pinCounts)
    ensures found == JoinPair(node1, node2, pair)
    ensures pins == pinCounts
    decreases Height(node1) + Height(node2), 0
  {
    ChildFacts(pair.nwe1, node1);
    ChildFacts(pair.nwe2, node2);
    var child1, child2 := pair.nwe1.node, pair.nwe2.node;
    var childIntersection := Overlap(pair.nwe1.envelope.value, pair.nwe2.envelope.value);
    pins := pinCounts;
    if NodeIsLeaf(child1) && NodeIsLeaf(child2) {
      found := [pair];
    } else if NodeIsLeaf(child1) {
      found := WindowQuery(pair.nwe1, child2, childIntersection, true);
    } else if NodeIsLeaf(child2) {
      found := WindowQuery(pair.nwe2, child1, childIntersection, false);
    } else {
      PinCountsBalance(pins, child1, child2);
      pins := IncrementPinCount(pins, child1);
      pins := IncrementPinCount(pins, child2);
      found := SpatialJoin4(child1, child2, childIntersection);
      pins := DecrementPinCount(pins, child1);
      pins := DecrementPinCount(pins, child2);
    }
  }

  // ---------------------------------------------------- executeSpatialOperations

  /** The pairs (g1, g2), g2 running through geoms, whose stored envelopes intersect. */
  function GeometryRow(g1: NodeWithGeometry, geoms: seq<NodeWithGeometry>): (r: seq<GeometryPair>)
    ensures forall p :: p in r <==> p.nwg1 == g1 && p.nwg2 in geoms && Intersects(g1.envelope, p.nwg2.envelope)
  {
    if geoms == [] then []
    else
      var front := geoms[..|geoms| - 1];
      var last := geoms[|geoms| - 1];
      assert forall g :: g in geoms <==> g in front || g == last;
      GeometryRow(g1, front) + (if Intersects(g1.envelope, last.envelope) then [GeometryPair(g1, last)] else [])
  }

  /**
   * The nested stream over the geometries of one leaf pair: every pair, row by row, whose
   * stored envelopes intersect.
   */
  function GeometryCross(geoms1: seq<NodeWithGeometry>, geoms2: seq<NodeWithGeometry>): (r: seq<GeometryPair>)
    ensures forall p :: p in r <==>
              p.nwg1 in geoms1 && p.nwg2 in geoms2 && Intersects(p.nwg1.envelope, p.nwg2.envelope)
  {
    if geoms1 == [] then []
    else
      var front := geoms1[..|geoms1| - 1];
      assert forall g :: g in geoms1 <==> g in front || g == geoms1[|geoms1| - 1];
      GeometryCross(front, geoms2) + GeometryRow(geoms1[|geoms1| - 1], geoms2)
  }

  /** The candidate geometry pairs of one pair of leaves. */
  function LeafGeometryPairs(pair: EnvelopePair): seq<GeometryPair>
  {
    GeometryCross(GeometryNodes(pair.nwe1.node), GeometryNodes(pair.nwe2.node))
  }

  /** The candidate geometry pairs of all leaf pairs, in order. */
  function CandidateGeometries(leafPairs: seq<EnvelopePair>): (r: seq<GeometryPair>)
    ensures forall p :: p in r <==> exists lp :: lp in leafPairs && p in LeafGeometryPairs(lp)
  {
    if leafPairs == [] then []
    else
      var front := leafPairs[..|leafPairs| - 1];
      assert forall lp :: lp in leafPairs <==> lp in front || lp == leafPairs[|leafPairs| - 1];
      CandidateGeometries(front) + LeafGeometryPairs(leafPairs[|leafPairs| - 1])
  }

  /**
   * The key node1.getElementId() + "_" + node2.getElementId(). Element ids contain no
   * underscore, so the key determines the pair of ids.
   */
  function Key(o: JoinOutput): (int, int)
  {
    (o.node1.id, o.node2.id)
  }

  /** The keys of the INTERSECTS results, as the set the source collects. */
  function KeysOf(found: seq<JoinOutput>): (keys: set<(int, int)>)
    ensures forall k :: k in keys <==> exists f :: f in found && Key(f) == k
  {
    set f | f in found :: Key(f)
  }

  /** The DISJOINT post-filter: the outputs of all whose key is not in keys, in order. */
  function Complement(all: seq<JoinOutput>, keys: set<(int, int)>): (r: seq<JoinOutput>)
    ensures forall o :: o in r <==> o in all && Key(o) !in keys
  {
    if all == [] then []
    else
      var front := all[..|all| - 1];
      var last := all[|all| - 1];
      assert forall o :: o in all <==> o in front || o == last;
      Complement(front, keys) + (if Key(last) in keys then [] else [last])
  }

  /** With no keys the post-filter keeps every output. */
  lemma {:induction false} ComplementOfNothing(all: seq<JoinOutput>)
    ensures Complement(all, {}) == all
  {
    if all != [] {
      ComplementOfNothing(all[..|all| - 1]);
      assert all == all[..|all| - 1] + [all[|all| - 1]];
    }
  }

  /** The state the constructor sets up. */
  datatype JoinState = JoinState(root1: Node, root2: Node, operationString: string,
                                 isDisjoint: bool, executor: JoinOperation)

  /** What executeSpatialOperations(leafPairs) returns. */
  ghost function Finish(j: JoinState, leafPairs: seq<EnvelopePair>,
                        holds: (JoinOperation, Node, Node) -> bool): seq<JoinOutput>
  {
    var results := ExecuteOperation(j.executor, CandidateGeometries(leafPairs), holds);
    if j.isDisjoint then
      Complement(CrossJoin(GeometriesFromIndex(j.root1), GeometriesFromIndex(j.root2)), KeysOf(results))
    else results
  }

  /**
   * executeSpatialOperations: the candidate pairs are collected leaf pair by leaf pair, the
   * predicate is applied, and for DISJOINT the result is every pair of the two indexes'
   * geometries that the INTERSECTS pass did not report.
   */
  method ExecuteSpatialOperations(j: JoinState, leafPairs: seq<EnvelopePair>,
                                  holds: (JoinOperation, Node, Node) -> bool)
    returns (results: seq<JoinOutput>)
    ensures results == Finish(j, leafPairs, holds)
  {
    var pairs: seq<GeometryPair> := [];
    var i := 0;
    while i < |leafPairs|
      invariant 0 <= i <= |leafPairs|
      invariant pairs == CandidateGeometries(leafPairs[..i])
    {
      assert leafPairs[..i + 1][..i] == leafPairs[..i];
      var geomNodes1 := GetGeometryNodes(leafPairs[i].nwe1.node);
      var geomNodes2 := GetGeometryNodes(leafPairs[i].nwe2.node);
      pairs := pairs + GeometryCross(geomNodes1, geomNodes2);
      i := i + 1;
    }
    assert leafPairs[..i] == leafPairs;
    results := ExecuteOperation(j.executor, pairs, holds);
    if j.isDisjoint {
      var allResults := JoinOutputFromIndexPair(j.root1, j.root2);
      var intersectsResultsSet := KeysOf(results);
      results := Complement(allResults, intersectsResultsSet);
    }
  }

  // ------------------------------------------------------------------ the roots

  /** A root as an entry: the node with its own bbox. */
  function RootEntry(root: Node): NodeWithEnvelope
  {
    NodeWithEnvelope(root, root.bbox)
  }

  /** n is top or lies below it. */
  predicate Under(n: Node, top: Node)
  {
    n == top || Below(n, top)
  }

  /** A leaf pair of the whole join: leaves under root1 and root2 whose bboxes intersect. */
  predicate RootLeafPair(p: EnvelopePair, root1: Node, root2: Node)
  {
    NodeIsLeaf(p.nwe1.node) && NodeIsLeaf(p.nwe2.node) &&
    p.nwe1.envelope == p.nwe1.node.bbox && p.nwe2.envelope == p.nwe2.node.bbox &&
    Meets(p.nwe1, p.nwe2) && Under(p.nwe1.node, root1) && Under(p.nwe2.node, root2)
  }

  /**
   * The leaf pairs of two roots whose bboxes meet, with the roots handled as spatialJoin4
   * handles a pair of children: two leaf roots are a leaf pair, a leaf root is window-queried
   * against the other tree, and two directory roots go to spatialJoin4.
   */
  ghost function RootPairs(root1: Node, root2: Node): (r: seq<EnvelopePair>)
    requires Boxed(root1) && Boxed(root2) && Meets(RootEntry(root1), RootEntry(root2))
    ensures forall p :: p in r ==> RootLeafPair(p, root1, root2)
  {
    var nwe1, nwe2 := RootEntry(root1), RootEntry(root2);
    var rect := Overlap(root1.bbox.value, root2.bbox.value);
    if NodeIsLeaf(root1) && NodeIsLeaf(root2) then [EnvelopePair(nwe1, nwe2)]
    else if NodeIsLeaf(root1) then WindowQuery(nwe1, root2, rect, true)
    else if NodeIsLeaf(root2) then
      var r := WindowQuery(nwe2, root1, rect, false);
      forall q | q in r
        ensures Meets(q.nwe1, q.nwe2)
      {
        MeetsSymmetric(q.nwe1, q.nwe2);
      }
      r
    else SpatialJoin(root1, root2, rect)
  }

  /** The corrected start of the join: RootPairs computed. */
  method JoinRoots(root1: Node, root2: Node) returns (leafPairs: seq<EnvelopePair>)
    requires Boxed(root1) && Boxed(root2) && Meets(RootEntry(root1), RootEntry(root2))
    ensures leafPairs == RootPairs(root1, root2)
  {
    var nwe1, nwe2 := RootEntry(root1), RootEntry(root2);
    var rect := Overlap(root1.bbox.value, root2.bbox.value);
    if NodeIsLeaf(root1) && NodeIsLeaf(root2) {
      leafPairs := [EnvelopePair(nwe1, nwe2)];
    } else if NodeIsLeaf(root1) {
      leafPairs := WindowQuery(nwe1, root2, rect, true);
    } else if NodeIsLeaf(root2) {
      leafPairs := WindowQuery(nwe2, root1, rect, false);
    } else {
      leafPairs := SpatialJoin4(root1, root2, rect);
    }
  }

  // ------------------------------------------------------ constructor and query

  /**
   * args.get(0).toString(). A string gives its own text and null has no toString. Any other
   * value prints as text that names no operation (a number, a node, a list); the empty
   * string stands for that text, which the executor rejects alike.
   */
  function OperationText(v: Value): (r: Result<string>)
    ensures r.Err? <==> v.VNull?
    ensures r.Err? ==> r.error == NullPointer
    ensures v.VString? ==> r == Ok(v.s)
    ensures r.Ok? && !v.VString? ==> forall op: JoinOperation :: Name(op) != ToUpper(r.value)
  {
    match v
    case VString(s) => Ok(s)
    case VNull => Err(NullPointer)
    case _ => NamesListed(""); Ok("")
  }

  /** Both layers give a root. */
  predicate RootsFound(layers: seq<Node>)
  {
    |layers| >= 2 && IndexRoot(layers[0]).Ok? && IndexRoot(layers[1]).Ok?
  }

  /**
   * The constructor: the two roots, the upper-cased operation name, whether it is DISJOINT,
   * and the executor, built for INTERSECTS when it is. Failures come in the source's order:
   * a missing layer, a root lookup, a missing or null argument, and an unknown operation.
   */
  function NewJoin(layers: seq<Node>, args: seq<Value>): (r: Result<JoinState>)
    ensures r.Ok? <==> RootsFound(layers) && |args| >= 1 && args[0].VString? && IsTopologyOperation(args[0].s)
    ensures r.Ok? ==>
              r.value.root1 == IndexRoot(layers[0]).value && r.value.root2 == IndexRoot(layers[1]).value &&
              r.value.operationString == ToUpper(args[0].s) &&
              (r.value.isDisjoint <==> r.value.operationString == "DISJOINT") &&
              (r.value.isDisjoint ==> r.value.executor == INTERSECTS) &&
              (!r.value.isDisjoint ==> Name(r.value.executor) == r.value.operationString)
    ensures |layers| == 0 ==> r == Err(IndexOutOfBounds)
    ensures |layers| >= 1 && IndexRoot(layers[0]).Err? ==> r == Err(IndexRoot(layers[0]).error)
    ensures |layers| == 1 && IndexRoot(layers[0]).Ok? ==> r == Err(IndexOutOfBounds)
    ensures |layers| >= 2 && IndexRoot(layers[0]).Ok? && IndexRoot(layers[1]).Err? ==>
              r == Err(IndexRoot(layers[1]).error)
    ensures RootsFound(layers) && |args| == 0 ==> r == Err(IndexOutOfBounds)
    ensures RootsFound(layers) && |args| >= 1 && args[0] == VNull ==> r == Err(NullPointer)
    ensures RootsFound(layers) && |args| >= 1 && args[0] != VNull && r.Err? ==> r.error == IllegalArgument
  {
    if |layers| == 0 then Err(IndexOutOfBounds)
    else
      match IndexRoot(layers[0])
      case Err(e) => Err(e)
      case Ok(root1) =>
        if |layers| == 1 then Err(IndexOutOfBounds)
        else
          match IndexRoot(layers[1])
          case Err(e) => Err(e)
          case Ok(root2) =>
            if |args| == 0 then Err(IndexOutOfBounds)
            else
              match OperationText(args[0])
              case Err(e) => Err(e)
              case Ok(text) =>
                match Executor(text)
                case Err(e) => Err(e)
                case Ok(ex) => Ok(JoinState(root1, root2, ToUpper(text), ex.0, ex.1))
  }

  /**
   * The constructor's last steps on the argument's text: upper-case it, test it for
   * DISJOINT, and build the executor, for INTERSECTS when it is DISJOINT.
   */
  function Executor(text: string): (r: Result<(bool, JoinOperation)>)
    ensures r.Ok? <==> IsTopologyOperation(text)
    ensures r.Ok? ==> (r.value.0 <==> ToUpper(text) == "DISJOINT")
    ensures r.Ok? && r.value.0 ==> r.value.1 == INTERSECTS
    ensures r.Ok? && !r.value.0 ==> Name(r.value.1) == ToUpper(text)
    ensures r.Err? ==> r.error == IllegalArgument
  {
    var operationString := ToUpper(text);
    var isDisjoint := operationString == "DISJOINT";
    DisjointIsOperation();
    match NewExecutor(if isDisjoint then "INTERSECTS" else operationString)
    case Err(e) => Err(e)
    case Ok(executor) => Ok((isDisjoint, executor))
  }

  /** The DISJOINT name is what the executor's INTERSECTS stands in for. */
  lemma DisjointIsOperation()
    ensures IsTopologyOperation("DISJOINT") && NewExecutor("INTERSECTS") == Ok(INTERSECTS)
  {
    NameIsUpper(DISJOINT);
    NameIsUpper(INTERSECTS);
    NameInjective(NewExecutor("INTERSECTS").value, INTERSECTS);
  }

  /** What query() returns: the join with the corrected root handling. */
  ghost function QueryResult(j: JoinState, holds: (JoinOperation, Node, Node) -> bool)
    : Result<seq<JoinOutput>>
    requires Boxed(j.root1) && Boxed(j.root2)
  {
    if j.root1.bbox.None? || j.root2.bbox.None? then Err(NullPointer)
    else if Intersects(j.root1.bbox.value, j.root2.bbox.value) then Ok(Finish(j, RootPairs(j.root1, j.root2), holds))
    else if j.isDisjoint then Ok(CrossJoin(GeometriesFromIndex(j.root1), GeometriesFromIndex(j.root2)))
    else Ok([])
  }

  /**
   * query(): a root without a bbox fails; roots whose bboxes meet are joined; otherwise
   * DISJOINT is every pair of the two indexes' geometries and any other operation nothing.
   */
  method Query(j: JoinState, holds: (JoinOperation, Node, Node) -> bool)
    returns (r: Result<seq<JoinOutput>>)
    requires Boxed(j.root1) && Boxed(j.root2)
    ensures r == QueryResult(j, holds)
    ensures r.Err? <==> j.root1.bbox.None? || j.root2.bbox.None?
  {
    if j.root1.bbox.None? || j.root2.bbox.None? {
      return Err(NullPointer);
    }
    var env1, env2 := j.root1.bbox.value, j.root2.bbox.value;
    if Intersects(env1, env2) {
      var leafPairs := JoinRoots(j.root1, j.root2);
      var results := ExecuteSpatialOperations(j, leafPairs, holds);
      r := Ok(results);
    } else if j.isDisjoint {
      var results := JoinOutputFromIndexPair(j.root1, j.root2);
      r := Ok(results);
    } else {
      r := Ok([]);
    }
  }

  // ------------------------------------------------------- the leaf-root finding

  /** Pairing the children of two nodes finds nothing when either has no children. */
  lemma {:induction false} CrossEmptyRight(s1: seq<NodeWithEnvelope>)
    ensures Cross(s1, []) == []
  {
    if s1 != [] {
      CrossEmptyRight(s1[..|s1| - 1]);
    }
  }

  /**
   * query() as written hands the two roots to spatialJoin4, which pairs their children: a
   * root that is a leaf has none, and no leaf pair is found.
   */
  lemma AsWrittenLeafRoot(root1: Node, root2: Node, rect: Rect)
    requires Boxed(root1) && Boxed(root2) && (NodeIsLeaf(root1) || NodeIsLeaf(root2))
    ensures SpatialJoin(root1, root2, rect) == []
  {
    LeafIffNoChildren(root1);
    LeafIffNoChildren(root2);
    if !NodeIsLeaf(root1) {
      assert Candidates(root2, rect) == [];
      CrossEmptyRight(Candidates(root1, rect));
    }
  }

  /** query() as written: the roots go straight to spatialJoin4. */
  ghost function QueryAsWritten(j: JoinState, holds: (JoinOperation, Node, Node) -> bool)
    : (r: Result<seq<JoinOutput>>)
    requires Boxed(j.root1) && Boxed(j.root2)
    ensures r.Err? <==> j.root1.bbox.None? || j.root2.bbox.None?
    ensures r.Err? ==> r.error == NullPointer
    ensures r.Ok? && !Intersects(j.root1.bbox.value, j.root2.bbox.value) && !j.isDisjoint ==> r.value == []
  {
    if j.root1.bbox.None? || j.root2.bbox.None? then Err(NullPointer)
    else if Intersects(j.root1.bbox.value, j.root2.bbox.value) then
      Ok(Finish(j, SpatialJoin(j.root1, j.root2, Overlap(j.root1.bbox.value, j.root2.bbox.value)), holds))
    else if j.isDisjoint then Ok(CrossJoin(GeometriesFromIndex(j.root1), GeometriesFromIndex(j.root2)))
    else Ok([])
  }

  const UnitSquare: Rect := Bounds([0.0, 0.0], [1.0, 1.0])
  const Geometry1: Node := Node(1, None, [])
  const Geometry2: Node := Node(2, None, [])
  /** Two one-leaf indexes, each holding one geometry stored with the unit square. */
  const LeafRoot1: Node := Node(10, Some(UnitSquare), [Rel(Reference, UnitSquare, Geometry1)])
  const LeafRoot2: Node := Node(20, Some(UnitSquare), [Rel(Reference, UnitSquare, Geometry2)])

  /** What the two one-leaf indexes hold. */
  lemma LeafRootsContents()
    ensures GeometryNodes(LeafRoot1) == [NodeWithGeometry(Geometry1, UnitSquare)]
    ensures GeometryNodes(LeafRoot2) == [NodeWithGeometry(Geometry2, UnitSquare)]
    ensures GeometriesFromIndex(LeafRoot1) == [Geometry1]
    ensures GeometriesFromIndex(LeafRoot2) == [Geometry2]
    ensures CrossJoin([Geometry1], [Geometry2]) == [JoinOutput(Geometry1, Geometry2)]
  {
    assert GeometriesUpTo(LeafRoot1, 0) == [];
    assert GeometriesUpTo(LeafRoot2, 0) == [];
    assert CrossJoin([], [Geometry2]) == [];
  }

  /** With no leaf pairs there are no candidates, and DISJOINT reports every pair. */
  lemma FinishNothing(j: JoinState, holds: (JoinOperation, Node, Node) -> bool)
    ensures Finish(j, [], holds) ==
            if j.isDisjoint then CrossJoin(GeometriesFromIndex(j.root1), GeometriesFromIndex(j.root2)) else []
  {
    assert CandidateGeometries([]) == [];
    assert KeysOf([]) == {};
    ComplementOfNothing(CrossJoin(GeometriesFromIndex(j.root1), GeometriesFromIndex(j.root2)));
  }

  /** The as-written query on the two one-leaf indexes finds no leaf pair. */
  lemma AsWrittenLeafRootsPairs(j: JoinState, holds: (JoinOperation, Node, Node) -> bool)
    requires j.root1 == LeafRoot1 && j.root2 == LeafRoot2
    ensures QueryAsWritten(j, holds) == Ok(Finish(j, [], holds))
  {
    assert NodeIsLeaf(LeafRoot1) && Boxed(LeafRoot1) && Boxed(LeafRoot2);
    assert Intersects(UnitSquare, UnitSquare);
    AsWrittenLeafRoot(LeafRoot1, LeafRoot2, Overlap(UnitSquare, UnitSquare));
  }

  /**
   * As written, on two one-leaf indexes whose geometries share the unit square, the join
   * reports nothing for INTERSECTS and reports the pair for DISJOINT, whatever the
   * predicate says of the two geometries.
   */
  lemma AsWrittenMissesLeafRoots(holds: (JoinOperation, Node, Node) -> bool)
    ensures QueryAsWritten(JoinState(LeafRoot1, LeafRoot2, "INTERSECTS", false, INTERSECTS), holds) == Ok([])
    ensures QueryAsWritten(JoinState(LeafRoot1, LeafRoot2, "DISJOINT", true, INTERSECTS), holds) ==
            Ok([JoinOutput(Geometry1, Geometry2)])
  {
    var ji := JoinState(LeafRoot1, LeafRoot2, "INTERSECTS", false, INTERSECTS);
    var jd := JoinState(LeafRoot1, LeafRoot2, "DISJOINT", true, INTERSECTS);
    LeafRootsContents();
    AsWrittenLeafRootsPairs(ji, holds);
    AsWrittenLeafRootsPairs(jd, holds);
    FinishNothing(ji, holds);
    FinishNothing(jd, holds);
  }

  /**
   * The corrected query on the same indexes, where the two geometries intersect: the pair
   * is reported for INTERSECTS and not for DISJOINT.
   */
  lemma CorrectedFindsLeafRoots(holds: (JoinOperation, Node, Node) -> bool)
    requires holds(INTERSECTS, Geometry1, Geometry2)
    ensures QueryResult(JoinState(LeafRoot1, LeafRoot2, "INTERSECTS", false, INTERSECTS), holds) ==
            Ok([JoinOutput(Geometry1, Geometry2)])
    ensures QueryResult(JoinState(LeafRoot1, LeafRoot2, "DISJOINT", true, INTERSECTS), holds) == Ok([])
  {
    LeafRootsContents();
    var g1, g2 := NodeWithGeometry(Geometry1, UnitSquare), NodeWithGeometry(Geometry2, UnitSquare);
    var o := JoinOutput(Geometry1, Geometry2);
    var lp := EnvelopePair(RootEntry(LeafRoot1), RootEntry(LeafRoot2));
    assert RootPairs(LeafRoot1, LeafRoot2) == [lp];
    assert GeometryRow(g1, [g2]) == [GeometryPair(g1, g2)];
    assert GeometryCross([g1], [g2]) == [GeometryPair(g1, g2)];
    assert CandidateGeometries([lp]) == [GeometryPair(g1, g2)];
    assert ExecuteOperation(INTERSECTS, [GeometryPair(g1, g2)], holds) == [o];
    assert Complement([o], KeysOf([o])) == [];
  }

  // ------------------------------------------------ completeness on R-trees

  /**
   * The R-tree invariant: a node's bbox covers its children's bboxes and the envelopes
   * stored on its references, all the way down.
   */
  predicate Nested(n: Node)
  {
    (forall r :: r in n.out && r.kind == Child ==>
       n.bbox.Some? && r.end.bbox.Some? && Covers(n.bbox.value, r.end.bbox.value) && Nested(r.end)) &&
    (forall r :: r in n.out && r.kind == Reference ==> n.bbox.Some? && Covers(n.bbox.value, r.env))
  }

  lemma {:induction false} NestedBoxed(n: Node)
    requires Nested(n)
    ensures Boxed(n)
  {
    forall r | r in n.out && r.kind == Child
      ensures Boxed(r.end)
    {
      NestedBoxed(r.end);
    }
  }

  /** A node under n in an R-tree has a bbox inside n's. */
  lemma {:induction false} CoveredUnder(l: Node, n: Node)
    requires Nested(n) && Under(l, n) && (l == n ==> l.bbox.Some?)
    ensures n.bbox.Some? && l.bbox.Some? && Covers(n.bbox.value, l.bbox.value) && Nested(l)
  {
    if l != n {
      var r :| r in n.out && r.kind == Child && (r.end == l || Below(l, r.end));
      if r.end != l {
        CoveredUnder(l, r.end);
        CoversTransitive(n.bbox.value, r.end.bbox.value, l.bbox.value);
      }
    }
  }

  /** The child entry of n on the way down to a node below n. */
  lemma PathChild(l: Node, n: Node) returns (e: NodeWithEnvelope)
    requires Below(l, n)
    ensures ChildOf(e, n) && Under(l, e.node)
  {
    var r :| r in n.out && r.kind == Child && (r.end == l || Below(l, r.end));
    e := NodeWithEnvelope(r.end, r.end.bbox);
  }

  /** Nothing lies below a leaf. */
  lemma LeafUnder(l: Node, m: Node)
    requires NodeIsLeaf(m) && Under(l, m)
    ensures l == m
  {
  }

  /**
   * The entry of n on the way to a leaf l of an R-tree covers whatever l's bbox covers;
   * meeting the window and the box x, it passes both window filters.
   */
  lemma EntryCovers(l: Node, e: NodeWithEnvelope, n: Node, x: Box)
    requires Nested(n) && ChildOf(e, n) && Under(l, e.node)
    requires l.bbox.Some? && Valid(x) && Covers(l.bbox.value, x)
    ensures e.envelope.Some? && Covers(e.envelope.value, x)
  {
    ChildFacts(e, n);
    NestedBoxed(n);
    var r :| r in n.out && r.kind == Child && e == NodeWithEnvelope(r.end, r.end.bbox);
    CoveredUnder(l, e.node);
    CoversTransitive(e.envelope.value, l.bbox.value, x);
  }

  /** Every pair one entry contributes is among those of all entries. */
  lemma {:induction false} WindowEntriesMember(leafNwe: NodeWithEnvelope, dirNode: Node,
                                               dirs: seq<NodeWithEnvelope>, rect: Rect, isLeft: bool,
                                               e: NodeWithEnvelope, p: EnvelopePair)
    requires Boxed(dirNode)
    requires forall d :: d in dirs ==> ChildOf(d, dirNode) && MeetsRect(d, rect) && Meets(leafNwe, d)
    requires e in dirs && p in WindowEntry(leafNwe, dirNode, e, rect, isLeft)
    ensures p in WindowEntries(leafNwe, dirNode, dirs, rect, isLeft)
  {
    var front := dirs[..|dirs| - 1];
    if e != dirs[|dirs| - 1] {
      assert e in front;
      WindowEntriesMember(leafNwe, dirNode, front, rect, isLeft, e, p);
    }
  }

  /**
   * windowQuery misses no leaf below dirNode whose bbox shares a box x with the leaf entry
   * and with the window.
   */
  lemma {:induction false} WindowComplete(leafNwe: NodeWithEnvelope, dirNode: Node, rect: Rect,
                                          isLeft: bool, l: Node, x: Box)
    requires Nested(dirNode) && Boxed(dirNode) && NodeIsLeaf(l) && Below(l, dirNode)
    requires Valid(x) && l.bbox.Some? && Covers(l.bbox.value, x) && Covers(rect, x)
    requires leafNwe.envelope.Some? && Covers(leafNwe.envelope.value, x)
    ensures EnvelopePair(if isLeft then leafNwe else RootEntry(l), if isLeft then RootEntry(l) else leafNwe)
              in WindowQuery(leafNwe, dirNode, rect, isLeft)
    decreases Height(dirNode)
  {
    var e := PathChild(l, dirNode);
    ChildFacts(e, dirNode);
    EntryCovers(l, e, dirNode, x);
    IntersectionGreatest(e.envelope.value, rect, x);
    IntersectionGreatest(leafNwe.envelope.value, e.envelope.value, x);
    var dirs := WindowDirs(leafNwe, dirNode, rect);
    assert e in dirs;
    var target := EnvelopePair(if isLeft then leafNwe else RootEntry(l), if isLeft then RootEntry(l) else leafNwe);
    if NodeIsLeaf(e.node) {
      LeafUnder(l, e.node);
    } else {
      var inner := Overlap(e.envelope.value, rect);
      WindowComplete(leafNwe, e.node, inner, isLeft, l, x);
    }
    assert target in WindowEntry(leafNwe, dirNode, e, rect, isLeft);
    WindowEntriesMember(leafNwe, dirNode, dirs, rect, isLeft, e, target);
  }

  /** Every leaf pair one sweep pair contributes is among those of all sweep pairs. */
  lemma {:induction false} JoinPairsMember(n1: Node, n2: Node, pairs: seq<EnvelopePair>,
                                           p: EnvelopePair, q: EnvelopePair)
    requires Boxed(n1) && Boxed(n2) && forall d :: d in pairs ==> ChildPair(d, n1, n2)
    requires p in pairs && q in JoinPair(n1, n2, p)
    ensures q in JoinPairs(n1, n2, pairs)
  {
    var front := pairs[..|pairs| - 1];
    if p != pairs[|pairs| - 1] {
      assert p in front;
      JoinPairsMember(n1, n2, front, p, q);
    }
  }

  /**
   * spatialJoin4 misses no pair of leaves, below node1 and node2, whose bboxes share a box
   * x that lies in the window.
   */
  lemma {:induction false} SpatialJoinComplete(n1: Node, n2: Node, rect: Rect, l1: Node, l2: Node, x: Box)
    requires Nested(n1) && Nested(n2) && Boxed(n1) && Boxed(n2)
    requires NodeIsLeaf(l1) && NodeIsLeaf(l2) && Below(l1, n1) && Below(l2, n2)
    requires Valid(x) && l1.bbox.Some? && l2.bbox.Some? && Covers(rect, x)
    requires Covers(l1.bbox.value, x) && Covers(l2.bbox.value, x)
    ensures EnvelopePair(RootEntry(l1), RootEntry(l2)) in SpatialJoin(n1, n2, rect)
    decreases Height(n1) + Height(n2), 1
  {
    var e1 := PathChild(l1, n1);
    var e2 := PathChild(l2, n2);
    EntryCovers(l1, e1, n1, x);
    EntryCovers(l2, e2, n2, x);
    IntersectionGreatest(e1.envelope.value, rect, x);
    IntersectionGreatest(e2.envelope.value, rect, x);
    IntersectionGreatest(e1.envelope.value, e2.envelope.value, x);
    var c1, c2 := Candidates(n1, rect), Candidates(n2, rect);
    assert e1 in c1 && e2 in c2;
    var p := EnvelopePair(e1, e2);
    assert p in Cross(c1, c2);
    var target := EnvelopePair(RootEntry(l1), RootEntry(l2));
    JoinPairComplete(n1, n2, p, l1, l2, x);
    JoinPairsMember(n1, n2, Cross(c1, c2), p, target);
  }

  /** The same for one sweep pair whose entries lead down to l1 and l2. */
  lemma {:induction false} JoinPairComplete(n1: Node, n2: Node, p: EnvelopePair, l1: Node, l2: Node, x: Box)
    requires Nested(n1) && Nested(n2) && Boxed(n1) && Boxed(n2) && ChildPair(p, n1, n2)
    requires NodeIsLeaf(l1) && NodeIsLeaf(l2) && Under(l1, p.nwe1.node) && Under(l2, p.nwe2.node)
    requires Valid(x) && l1.bbox.Some? && l2.bbox.Some? && Covers(l1.bbox.value, x) && Covers(l2.bbox.value, x)
    requires p.nwe1.envelope.Some? && p.nwe2.envelope.Some?
    requires Covers(p.nwe1.envelope.value, x) && Covers(p.nwe2.envelope.value, x)
    ensures EnvelopePair(RootEntry(l1), RootEntry(l2)) in JoinPair(n1, n2, p)
    decreases Height(n1) + Height(n2), 0
  {
    ChildFacts(p.nwe1, n1);
    ChildFacts(p.nwe2, n2);
    var child1, child2 := p.nwe1.node, p.nwe2.node;
    IntersectionGreatest(p.nwe1.envelope.value, p.nwe2.envelope.value, x);
    var inter := Overlap(p.nwe1.envelope.value, p.nwe2.envelope.value);
    Nested1(n1, p.nwe1);
    Nested1(n2, p.nwe2);
    if NodeIsLeaf(child1) && NodeIsLeaf(child2) {
      LeafUnder(l1, child1);
      LeafUnder(l2, child2);
    } else if NodeIsLeaf(child1) {
      LeafUnder(l1, child1);
      WindowComplete(p.nwe1, child2, inter, true, l2, x);
    } else if NodeIsLeaf(child2) {
      LeafUnder(l2, child2);
      WindowComplete(p.nwe2, child1, inter, false, l1, x);
    } else {
      SpatialJoinComplete(child1, child2, inter, l1, l2, x);
    }
  }

  /** A child of an R-tree node is one too. */
  lemma Nested1(n: Node, e: NodeWithEnvelope)
    requires Nested(n) && ChildOf(e, n)
    ensures Nested(e.node)
  {
  }

  /** With the corrected root handling, no pair of leaves of two R-trees whose bboxes share x is missed. */
  lemma RootPairsComplete(root1: Node, root2: Node, l1: Node, l2: Node, x: Box)
    requires Nested(root1) && Nested(root2) && Boxed(root1) && Boxed(root2)
    requires NodeIsLeaf(l1) && NodeIsLeaf(l2) && Under(l1, root1) && Under(l2, root2)
    requires Valid(x) && l1.bbox.Some? && l2.bbox.Some? && Covers(l1.bbox.value, x) && Covers(l2.bbox.value, x)
    ensures Meets(RootEntry(root1), RootEntry(root2))
    ensures EnvelopePair(RootEntry(l1), RootEntry(l2)) in RootPairs(root1, root2)
  {
    CoveredUnder(l1, root1);
    CoveredUnder(l2, root2);
    var b1, b2 := root1.bbox.value, root2.bbox.value;
    CoversTransitive(b1, l1.bbox.value, x);
    CoversTransitive(b2, l2.bbox.value, x);
    IntersectionGreatest(b1, b2, x);
    var rect := Overlap(b1, b2);
    if NodeIsLeaf(root1) && NodeIsLeaf(root2) {
      LeafUnder(l1, root1);
      LeafUnder(l2, root2);
    } else if NodeIsLeaf(root1) {
      LeafUnder(l1, root1);
      WindowComplete(RootEntry(root1), root2, rect, true, l2, x);
    } else if NodeIsLeaf(root2) {
      LeafUnder(l2, root2);
      WindowComplete(RootEntry(root2), root1, rect, false, l1, x);
    } else {
      SpatialJoinComplete(root1, root2, rect, l1, l2, x);
    }
  }

  /** g is referenced from a leaf under root with the stored envelope env. */
  predicate StoredUnder(g: Node, env: Rect, leaf: Node, root: Node)
  {
    NodeIsLeaf(leaf) && Under(leaf, root) && Rel(Reference, env, g) in leaf.out
  }

  /** Such a pair of geometries is among the candidate pairs of the corrected join. */
  lemma CandidateFound(root1: Node, root2: Node, g1: Node, env1: Rect, leaf1: Node,
                       g2: Node, env2: Rect, leaf2: Node)
    requires Nested(root1) && Nested(root2) && Boxed(root1) && Boxed(root2)
    requires StoredUnder(g1, env1, leaf1, root1) && StoredUnder(g2, env2, leaf2, root2)
    requires Intersects(env1, env2)
    ensures Meets(RootEntry(root1), RootEntry(root2))
    ensures GeometryPair(NodeWithGeometry(g1, env1), NodeWithGeometry(g2, env2))
              in CandidateGeometries(RootPairs(root1, root2))
  {
    CoveredUnder(leaf1, root1);
    CoveredUnder(leaf2, root2);
    var x := Overlap(env1, env2);
    CoversTransitive(leaf1.bbox.value, env1, x);
    CoversTransitive(leaf2.bbox.value, env2, x);
    RootPairsComplete(root1, root2, leaf1, leaf2, x);
    var lp := EnvelopePair(RootEntry(leaf1), RootEntry(leaf2));
    var gp := GeometryPair(NodeWithGeometry(g1, env1), NodeWithGeometry(g2, env2));
    assert gp in LeafGeometryPairs(lp);
  }

  /**
   * The corrected join on two R-trees misses nothing: a pair of geometries whose stored
   * envelopes intersect is reported by any operation other than DISJOINT whose predicate
   * holds on it.
   */
  lemma QueryComplete(j: JoinState, holds: (JoinOperation, Node, Node) -> bool,
                      g1: Node, env1: Rect, leaf1: Node, g2: Node, env2: Rect, leaf2: Node)
    requires Nested(j.root1) && Nested(j.root2) && Boxed(j.root1) && Boxed(j.root2)
    requires StoredUnder(g1, env1, leaf1, j.root1) && StoredUnder(g2, env2, leaf2, j.root2)
    requires Intersects(env1, env2) && !j.isDisjoint && holds(j.executor, g1, g2)
    ensures QueryResult(j, holds).Ok? && JoinOutput(g1, g2) in QueryResult(j, holds).value
  {
    CandidateFound(j.root1, j.root2, g1, env1, leaf1, g2, env2, leaf2);
    QueryJoinsMeetingRoots(j, holds);
  }

  /**
   * Everything a join other than DISJOINT reports is a pair of geometries, referenced from
   * a leaf pair under the two roots with intersecting stored envelopes, on which the
   * operation's predicate holds.
   */
  lemma QuerySound(j: JoinState, holds: (JoinOperation, Node, Node) -> bool, o: JoinOutput)
    requires Boxed(j.root1) && Boxed(j.root2) && !j.isDisjoint
    requires QueryResult(j, holds).Ok? && o in QueryResult(j, holds).value
    ensures holds(j.executor, o.node1, o.node2)
    ensures exists lp, gp :: RootLeafPair(lp, j.root1, j.root2) && gp in LeafGeometryPairs(lp) &&
              o == JoinOutput(gp.nwg1.node, gp.nwg2.node)
  {
    QueryJoinsMeetingRoots(j, holds);
    var leafPairs := RootPairs(j.root1, j.root2);
    var gp :| gp in CandidateGeometries(leafPairs) && holds(j.executor, gp.nwg1.node, gp.nwg2.node) &&
              o == JoinOutput(gp.nwg1.node, gp.nwg2.node);
    var lp :| lp in leafPairs && gp in LeafGeometryPairs(lp);
  }

  /**
   * DISJOINT on two R-trees never reports a pair of geometries, nor any pair with the same
   * element ids, whose stored envelopes intersect and on which INTERSECTS holds.
   */
  lemma DisjointExcludesIntersecting(j: JoinState, holds: (JoinOperation, Node, Node) -> bool,
                                     g1: Node, env1: Rect, leaf1: Node, g2: Node, env2: Rect, leaf2: Node)
    requires Nested(j.root1) && Nested(j.root2) && Boxed(j.root1) && Boxed(j.root2)
    requires StoredUnder(g1, env1, leaf1, j.root1) && StoredUnder(g2, env2, leaf2, j.root2)
    requires Intersects(env1, env2) && j.isDisjoint && j.executor == INTERSECTS && holds(INTERSECTS, g1, g2)
    ensures QueryResult(j, holds).Ok?
    ensures forall o :: o in QueryResult(j, holds).value ==> Key(o) != Key(JoinOutput(g1, g2))
  {
    CandidateFound(j.root1, j.root2, g1, env1, leaf1, g2, env2, leaf2);
    var leafPairs := RootPairs(j.root1, j.root2);
    var results := ExecuteOperation(INTERSECTS, CandidateGeometries(leafPairs), holds);
    assert JoinOutput(g1, g2) in results;
    var k := Key(JoinOutput(g1, g2));
    assert k in KeysOf(results);
    QueryJoinsMeetingRoots(j, holds);
    DisjointResult(j, leafPairs, holds);
    forall o | o in Finish(j, leafPairs, holds)
      ensures Key(o) != k
    {
    }
  }

  /** Roots whose bboxes meet are joined through RootPairs. */
  lemma QueryJoinsMeetingRoots(j: JoinState, holds: (JoinOperation, Node, Node) -> bool)
    requires Boxed(j.root1) && Boxed(j.root2) && Meets(RootEntry(j.root1), RootEntry(j.root2))
    ensures QueryResult(j, holds) == Ok(Finish(j, RootPairs(j.root1, j.root2), holds))
  {
  }

  /** What DISJOINT's post-filter leaves of a join's INTERSECTS results. */
  lemma DisjointResult(j: JoinState, leafPairs: seq<EnvelopePair>, holds: (JoinOperation, Node, Node) -> bool)
    requires j.isDisjoint
    ensures forall o :: o in Finish(j, leafPairs, holds) <==>
              o in CrossJoin(GeometriesFromIndex(j.root1), GeometriesFromIndex(j.root2)) &&
              Key(o) !in KeysOf(ExecuteOperation(j.executor, CandidateGeometries(leafPairs), holds))
  {
  }
}
