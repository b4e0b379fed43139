/**
 * What the pruning of visitKnn leaves out: on an index whose CHILD bboxes bound the
 * distances of the geometries below them, the corrected visitor returns the k nearest of
 * all the geometries of the layers, not only of those it was offered. The proof follows
 * nnDistTemp, which under the corrected rule never grows, and shows that every geometry
 * below a visited node is either offered or farther than nnDistTemp at the end.
 */
module KnnCompleteness {
  import opened Wrappers
  import opened Boxes
  import opened Graph
  import opened QueryUtils
  import opened Sorting
  import opened Arguments
  import opened Knn

  // ------------------------------------------------------------ nnDistTemp only shrinks

  /** nnDistTemp a is at most b, with Double.MAX_VALUE above every distance. */
  predicate NnAtMost(a: NnDist, b: NnDist)
  {
    b.MaxValue? || (a.Dist? && a.value <= b.value)
  }

  /** t follows s: s's offers come first in t's, and under the corrected rule nnDistTemp has not grown. */
  ghost predicate Grows(c: Config, s: Search, t: Search)
  {
    |s.offered| <= |t.offered| && t.offered[..|s.offered|] == s.offered &&
    (c.rule == Corrected ==> NnAtMost(t.nn, s.nn))
  }

  lemma GrowsRefl(c: Config, s: Search)
    ensures Grows(c, s, s)
  {
    assert s.offered[..|s.offered|] == s.offered;
  }

  lemma GrowsTrans(c: Config, s: Search, t: Search, u: Search)
    requires Grows(c, s, t) && Grows(c, t, u)
    ensures Grows(c, s, u)
  {
    assert u.offered[..|s.offered|] == u.offered[..|t.offered|][..|s.offered|];
  }

  /** An offer keeps what was offered and, corrected, never raises nnDistTemp. */
  lemma StepGrows(c: Config, s: Search, dropped: seq<KnnOutput>, x: KnnOutput)
    requires Inv(c, s, dropped)
    ensures Grows(c, s, Step(c, s, x))
  {
    var t := Step(c, s, x);
    assert t.offered[..|s.offered|] == s.offered;
    if c.rule == Corrected && |s.heap| == c.k && Nearer(x.distance, s.nn) {
      OfferFullNarrows(s.heap, c.k, x);
    }
  }

  /** A corrected offer to a full queue that takes the entry leaves a head no farther than before. */
  lemma OfferFullNarrows(heap: seq<KnnOutput>, k: int, x: KnnOutput)
    requires 1 <= k && |heap| == k && Nearer(x.distance, NnOf(heap, k))
    ensures NnAtMost(NnOf(Offer(heap, k, x), k), NnOf(heap, k))
  {
    var p := Poll(heap);
    var t := Offer(heap, k, x);
    HeadIsFarthest(heap);
    assert t == p + [x];
    var m := MaxAt(t);
    if m < |p| {
      assert t[m] == p[m];
    } else {
      assert t[m] == x;
    }
  }

  // ------------------------------------------------------------ the walk keeps the invariant

  lemma {:induction false} OfferAllKeeps(c: Config, s: Search, dropped: seq<KnnOutput>, xs: seq<KnnOutput>)
    returns (d: seq<KnnOutput>)
    requires Inv(c, s, dropped)
    ensures Inv(c, OfferAll(c, s, xs), d) && Grows(c, s, OfferAll(c, s, xs))
    decreases |xs|
  {
    if xs == [] {
      d := dropped;
      GrowsRefl(c, s);
    } else {
      var front, x := xs[..|xs| - 1], xs[|xs| - 1];
      var d1 := OfferAllKeeps(c, s, dropped, front);
      var t := OfferAll(c, s, front);
      StepInv(c, t, d1, x);
      StepGrows(c, t, d1, x);
      d := d1 + StepDropped(c, t, x);
      GrowsTrans(c, s, t, Step(c, t, x));
    }
  }

  /** visitKnn keeps the visitor invariant, keeps what was offered, and never raises a corrected nnDistTemp. */
  lemma {:induction false} VisitKeeps(c: Config, n: Node, s: Search, dropped: seq<KnnOutput>)
    returns (d: seq<KnnOutput>)
    requires Inv(c, s, dropped)
    ensures Inv(c, Visit(c, n, s).0, d) && Grows(c, s, Visit(c, n, s).0)
    decreases n, 1
  {
    if NodeIsLeaf(n) {
      d := OfferAllKeeps(c, s, dropped, Offers(c.distanceTo, RelsOf(n.out, Reference)));
    } else if MissingChildBbox(n) {
      d := dropped;
      GrowsRefl(c, s);
    } else {
      var children := Distances(RelsOf(n.out, Child), c.coords);
      VisitInner(c, n, s);
      SortBySorted(children, DistanceOf);
      d := VisitFromKeeps(c, n, SortBy(children, DistanceOf), s, dropped);
    }
  }

  lemma {:induction false} VisitFromKeeps(c: Config, n: Node, children: seq<KnnOutput>, s: Search,
                                          dropped: seq<KnnOutput>) returns (d: seq<KnnOutput>)
    requires Inv(c, s, dropped) && ChildEntries(n, c.coords, children)
    ensures Inv(c, VisitFrom(c, n, children, s).0, d) && Grows(c, s, VisitFrom(c, n, children, s).0)
    decreases n, 0, |children|
  {
    if children == [] || Farther(children[0].distance, s.nn) {
      d := dropped;
      GrowsRefl(c, s);
    } else {
      VisitFromAt(c, n, children, 0, s);
      assert children[0] in children && children[0..] == children;
      var r :| r in n.out && r.kind == Child && r.end == children[0].node;
      var first := Visit(c, children[0].node, s);
      var d1 := VisitKeeps(c, children[0].node, s, dropped);
      if first.1.Done? {
        d := VisitFromKeeps(c, n, children[1..], first.0, d1);
        GrowsTrans(c, s, first.0, VisitFrom(c, n, children[1..], first.0).0);
      } else {
        d := d1;
      }
    }
  }

  lemma {:induction false} VisitAllKeeps(c: Config, roots: seq<KnnOutput>, s: Search, dropped: seq<KnnOutput>)
    returns (d: seq<KnnOutput>)
    requires Inv(c, s, dropped)
    ensures Inv(c, VisitAll(c, roots, s).0, d) && Grows(c, s, VisitAll(c, roots, s).0)
    decreases |roots|
  {
    if roots == [] {
      d := dropped;
      GrowsRefl(c, s);
    } else {
      var first := Visit(c, roots[0].node, s);
      var d1 := VisitKeeps(c, roots[0].node, s, dropped);
      if first.1.Done? {
        d := VisitAllKeeps(c, roots[1..], first.0, d1);
        GrowsTrans(c, s, first.0, VisitAll(c, roots[1..], first.0).0);
      } else {
        d := d1;
      }
    }
  }

  // ------------------------------------------------------------ the index

  /** A node with CHILD relationships has no REFERENCE ones. */
  predicate Unmixed(n: Node)
  {
    !NodeIsLeaf(n) ==> forall r :: r in n.out ==> r.kind != Reference
  }

  /** m has a bbox whose distance to the query point is at most that of every geometry below m. */
  ghost predicate BoundsBelow(c: Config, m: Node)
    requires c.Valid()
  {
    m.bbox.Some? &&
    forall g :: g in GeometriesFromIndex(m) ==> PointDistanceSq(m.bbox.value, c.coords) <= c.distanceTo(g)
  }

  /**
   * The index below n fits the query: no node mixes CHILD and REFERENCE relationships, and
   * the bbox of every CHILD is no farther from the query point than any geometry below it.
   */
  ghost predicate DistanceIndexed(c: Config, n: Node)
    requires c.Valid()
    decreases n
  {
    Unmixed(n) &&
    forall r :: r in n.out && r.kind == Child ==> BoundsBelow(c, r.end) && DistanceIndexed(c, r.end)
  }

  lemma {:induction false} IndexedBboxes(c: Config, n: Node)
    requires c.Valid() && DistanceIndexed(c, n)
    ensures ChildBboxes(n)
    decreases n
  {
    forall r | r in n.out && r.kind == Child
      ensures ChildBboxes(r.end)
    {
      IndexedBboxes(c, r.end);
    }
  }

  /** The children list of visitKnn at n, sorted by distance. */
  function SortedChildren(c: Config, n: Node): seq<KnnOutput>
    requires c.Valid() && !MissingChildBbox(n)
  {
    SortBy(Distances(RelsOf(n.out, Child), c.coords), DistanceOf)
  }

  /** A node with CHILD relationships, each with a bbox, runs the children loop over its sorted children. */
  lemma VisitSorted(c: Config, n: Node, s: Search)
    requires c.Valid() && |s.heap| <= c.k && !NodeIsLeaf(n) && !MissingChildBbox(n)
    ensures ChildEntries(n, c.coords, SortedChildren(c, n)) && SortedBy(SortedChildren(c, n), DistanceOf)
    ensures Visit(c, n, s) == VisitFrom(c, n, SortedChildren(c, n), s)
  {
    var children := Distances(RelsOf(n.out, Child), c.coords);
    VisitInner(c, n, s);
    SortBySorted(children, DistanceOf);
    assert SortedChildren(c, n) == SortBy(children, DistanceOf);
    assert VisitChildrenOf(c, n, children, s) == VisitFrom(c, n, SortBy(children, DistanceOf), s);
  }

  /** Every geometry below n is offered in t, or farther than t's nnDistTemp. */
  ghost predicate Accounted(c: Config, n: Node, t: Search)
  {
    forall g :: g in GeometriesFromIndex(n) ==>
      KnnOutput(g, c.distanceTo(g)) in t.offered || Farther(c.distanceTo(g), t.nn)
  }

  lemma AccountedLater(c: Config, n: Node, s: Search, t: Search)
    requires c.rule == Corrected && Accounted(c, n, s) && Grows(c, s, t)
    ensures Accounted(c, n, t)
  {
    forall g | g in GeometriesFromIndex(n)
      ensures KnnOutput(g, c.distanceTo(g)) in t.offered || Farther(c.distanceTo(g), t.nn)
    {
      var o := KnnOutput(g, c.distanceTo(g));
      if o in s.offered {
        var i :| 0 <= i < |s.offered| && s.offered[i] == o;
        assert t.offered[..|s.offered|][i] == o;
      }
    }
  }

  // ------------------------------------------------------------ every geometry is accounted for

  /** A child at or after a cut-off child has every geometry below it farther than nnDistTemp. */
  lemma PrunedAccounted(c: Config, n: Node, children: seq<KnnOutput>, s: Search, j: nat)
    requires c.Valid() && DistanceIndexed(c, n) && ChildEntries(n, c.coords, children)
    requires SortedBy(children, DistanceOf) && j < |children| && Farther(children[0].distance, s.nn)
    ensures Accounted(c, children[j].node, s)
  {
    var e := children[j];
    assert DistanceOf(children[0]) <= DistanceOf(e);
    assert e in children;
    var r :| r in n.out && r.kind == Child && r.end == e.node;
  }

  /** At a leaf, every REFERENCE end node is offered. */
  lemma LeafAccounted(c: Config, n: Node, s: Search)
    requires c.Valid() && |s.heap| <= c.k && NodeIsLeaf(n)
    ensures Accounted(c, n, Visit(c, n, s).0)
  {
    var t := Visit(c, n, s).0;
    var refs := RelsOf(n.out, Reference);
    VisitLeaf(c, n, s);
    LeafGeometries(n);
    forall g | g in GeometriesFromIndex(n)
      ensures KnnOutput(g, c.distanceTo(g)) in t.offered
    {
      var i :| 0 <= i < |refs| && Ends(refs)[i] == g;
      assert t.offered[|s.offered| + i] == KnnOutput(refs[i].end, c.distanceTo(refs[i].end));
    }
  }

  /** Below a node with CHILD relationships, every geometry lies below one of its children entries. */
  lemma InnerGeometry(c: Config, n: Node, g: Node)
    requires c.Valid() && !MissingChildBbox(n) && Unmixed(n) && !NodeIsLeaf(n) && g in GeometriesFromIndex(n)
    ensures exists e :: e in SortedChildren(c, n) && g in GeometriesFromIndex(e.node)
  {
    var rels := RelsOf(n.out, Child);
    var children := Distances(rels, c.coords);
    GeometriesFromIndexMember(n, g);
    var r :| r in n.out && r.kind == Child && g in GeometriesFromIndex(r.end);
    var i :| 0 <= i < |rels| && rels[i] == r;
    SortBySorted(children, DistanceOf);
    assert children[i].node == r.end;
    assert children[i] in children;
  }

  /** A node whose children entries are all accounted for is accounted for. */
  lemma InnerAccounted(c: Config, n: Node, t: Search)
    requires c.Valid() && !MissingChildBbox(n) && Unmixed(n) && !NodeIsLeaf(n)
    requires forall e :: e in SortedChildren(c, n) ==> Accounted(c, e.node, t)
    ensures Accounted(c, n, t)
  {
    forall g | g in GeometriesFromIndex(n)
      ensures KnnOutput(g, c.distanceTo(g)) in t.offered || Farther(c.distanceTo(g), t.nn)
    {
      InnerGeometry(c, n, g);
      var e :| e in SortedChildren(c, n) && g in GeometriesFromIndex(e.node);
    }
  }

  /** Accounting for the first entry and for the rest accounts for all of them. */
  lemma AccountedCons(c: Config, es: seq<KnnOutput>, t: Search)
    requires es != [] && Accounted(c, es[0].node, t)
    requires forall e :: e in es[1..] ==> Accounted(c, e.node, t)
    ensures forall e :: e in es ==> Accounted(c, e.node, t)
  {
    forall e | e in es
      ensures Accounted(c, e.node, t)
    {
      var j :| 0 <= j < |es| && es[j] == e;
      if j > 0 {
        assert es[1..][j - 1] == e;
      }
    }
  }

  lemma {:induction false} VisitAccounts(c: Config, n: Node, s: Search, dropped: seq<KnnOutput>)
    requires Inv(c, s, dropped) && c.rule == Corrected && DistanceIndexed(c, n)
    ensures Accounted(c, n, Visit(c, n, s).0)
    decreases n, 1
  {
    if NodeIsLeaf(n) {
      LeafAccounted(c, n, s);
    } else {
      assert !MissingChildBbox(n);
      VisitSorted(c, n, s);
      VisitFromAccounts(c, n, SortedChildren(c, n), s, dropped);
      InnerAccounted(c, n, Visit(c, n, s).0);
    }
  }

  lemma {:induction false} VisitFromAccounts(c: Config, n: Node, children: seq<KnnOutput>, s: Search,
                                             dropped: seq<KnnOutput>)
    requires Inv(c, s, dropped) && c.rule == Corrected && DistanceIndexed(c, n)
    requires ChildEntries(n, c.coords, children) && SortedBy(children, DistanceOf)
    ensures forall e :: e in children ==> Accounted(c, e.node, VisitFrom(c, n, children, s).0)
    decreases n, 0, |children|
  {
    if children == [] {
    } else if Farther(children[0].distance, s.nn) {
      forall e | e in children
        ensures Accounted(c, e.node, VisitFrom(c, n, children, s).0)
      {
        var j :| 0 <= j < |children| && children[j] == e;
        PrunedAccounted(c, n, children, s, j);
      }
    } else {
      VisitFromAt(c, n, children, 0, s);
      assert children[0] in children && children[0..] == children;
      var r :| r in n.out && r.kind == Child && r.end == children[0].node;
      var first := Visit(c, children[0].node, s);
      var d1 := VisitKeeps(c, children[0].node, s, dropped);
      VisitAccounts(c, children[0].node, s, dropped);
      IndexedBboxes(c, children[0].node);
      VisitDone(c, children[0].node, s);
      var rest := children[1..];
      SortedTail(children, DistanceOf);
      VisitFromAccounts(c, n, rest, first.0, d1);
      var d2 := VisitFromKeeps(c, n, rest, first.0, d1);
      var t := VisitFrom(c, n, rest, first.0).0;
      AccountedLater(c, children[0].node, first.0, t);
      AccountedCons(c, children, t);
    }
  }

  lemma {:induction false} VisitAllAccounts(c: Config, roots: seq<KnnOutput>, s: Search, dropped: seq<KnnOutput>)
    requires Inv(c, s, dropped) && c.rule == Corrected
    requires forall e :: e in roots ==> DistanceIndexed(c, e.node)
    ensures forall e :: e in roots ==> Accounted(c, e.node, VisitAll(c, roots, s).0)
    decreases |roots|
  {
    if roots != [] {
      assert roots[0] in roots;
      var first := Visit(c, roots[0].node, s);
      var d1 := VisitKeeps(c, roots[0].node, s, dropped);
      VisitAccounts(c, roots[0].node, s, dropped);
      IndexedBboxes(c, roots[0].node);
      VisitDone(c, roots[0].node, s);
      var rest := roots[1..];
      assert forall e :: e in rest ==> e in roots;
      VisitAllAccounts(c, rest, first.0, d1);
      var d2 := VisitAllKeeps(c, rest, first.0, d1);
      var t := VisitAll(c, rest, first.0).0;
      AccountedLater(c, roots[0].node, first.0, t);
      AccountedCons(c, roots, t);
    }
  }

  // ------------------------------------------------------------ the k nearest of the index

  /**
   * result answers a k-nearest query for the geometries below n: each of them is in result,
   * or result is full and every entry of it is at most as far as that geometry.
   */
  ghost predicate Covers(distanceTo: Node -> real, n: Node, result: seq<KnnOutput>, k: int)
  {
    forall g :: g in GeometriesFromIndex(n) ==>
      KnnOutput(g, distanceTo(g)) in result ||
      (|result| == k && forall x :: x in result ==> x.distance <= distanceTo(g))
  }

  /** An offered entry that is not kept was dropped from a full queue, and is at least as far as every kept one. */
  lemma DroppedBehindFull(c: Config, s: Search, dropped: seq<KnnOutput>, y: KnnOutput)
    requires Inv(c, s, dropped) && c.rule == Corrected && y in s.offered && y !in s.heap
    ensures |s.heap| == c.k && forall x :: x in s.heap ==> x.distance <= y.distance
  {
    assert multiset(s.offered) - multiset(s.heap) == multiset(dropped);
    assert y in multiset(s.offered) - multiset(s.heap);
    assert y in dropped;
    var b :| 0 <= b < |dropped| && dropped[b] == y;
    forall x | x in s.heap
      ensures x.distance <= y.distance
    {
      var a :| 0 <= a < |s.heap| && s.heap[a] == x;
    }
  }

  /** A distance beyond nnDistTemp is beyond a full queue's every entry. */
  lemma BeyondHead(c: Config, s: Search, dropped: seq<KnnOutput>, d: real)
    requires Inv(c, s, dropped) && c.rule == Corrected && Farther(d, s.nn)
    ensures |s.heap| == c.k && forall x :: x in s.heap ==> x.distance <= d
  {
    forall x | x in s.heap
      ensures x.distance <= d
    {
      var j :| 0 <= j < |s.heap| && s.heap[j] == x;
    }
  }

  /** Every accounted-for geometry is kept, dropped from a full queue, or beyond its head. */
  lemma AccountedCovers(c: Config, n: Node, s: Search, dropped: seq<KnnOutput>)
    requires Inv(c, s, dropped) && c.rule == Corrected && Accounted(c, n, s)
    ensures Covers(c.distanceTo, n, s.heap, c.k)
  {
    forall g | g in GeometriesFromIndex(n) && KnnOutput(g, c.distanceTo(g)) !in s.heap
      ensures |s.heap| == c.k && forall x :: x in s.heap ==> x.distance <= c.distanceTo(g)
    {
      var y := KnnOutput(g, c.distanceTo(g));
      if y in s.offered {
        DroppedBehindFull(c, s, dropped, y);
      } else {
        BeyondHead(c, s, dropped, c.distanceTo(g));
      }
    }
  }

  /**
   * The walk of query under the corrected rule, over roots whose indexes fit the query:
   * it completes, keeps the k nearest of what it was offered, and answers the query for
   * every geometry below every root, offered or pruned.
   */
  lemma WalkNearest(c: Config, roots: seq<KnnOutput>)
    requires c.Valid() && c.rule == Corrected
    requires forall e :: e in roots ==> DistanceIndexed(c, e.node)
    ensures QueryWalk(c, roots).Ok?
    ensures var s := QueryWalk(c, roots).value;
            NearestOf(s.heap, s.offered, c.k) &&
            forall e :: e in roots ==> Covers(c.distanceTo, e.node, s.heap, c.k)
  {
    var sorted := SortBy(roots, DistanceOf);
    SortBySorted(roots, DistanceOf);
    forall e | e in sorted
      ensures ChildBboxes(e.node)
    {
      IndexedBboxes(c, e.node);
    }
    VisitAllDone(c, sorted, Initial);
    assert Inv(c, Initial, []);
    var d := VisitAllKeeps(c, sorted, Initial, []);
    VisitAllAccounts(c, sorted, Initial, []);
    var s := VisitAll(c, sorted, Initial).0;
    assert QueryWalk(c, roots) == Ok(s);
    TopK(c, s, d);
    forall e | e in roots
      ensures Covers(c.distanceTo, e.node, s.heap, c.k)
    {
      AccountedCovers(c, e.node, s, d);
    }
  }

  /** The configuration query sets up from its arguments. */
  function QueryConfig(rule: Rule, args: seq<Value>, centroid: Node -> (real, real), distanceTo: Node -> real): (c: Config)
    requires Setup(args, centroid).Ok?
    ensures c.Valid() && c.rule == rule && c.distanceTo == distanceTo
  {
    Config(rule, Setup(args, centroid).value.1, Setup(args, centroid).value.0, distanceTo)
  }

  /** The index of every layer fits the query. */
  ghost predicate IndexedLayers(c: Config, layers: seq<Node>)
    requires c.Valid()
  {
    forall i :: 0 <= i < |layers| && IndexRoot(layers[i]).Ok? ==> DistanceIndexed(c, IndexRoot(layers[i]).value)
  }

  /**
   * Knn.query with the corrected visitor on layers whose indexes fit the query returns the
   * k nearest geometries of all the layers: every geometry below a layer's root is in the
   * result, or the result holds k entries none farther than it.
   */
  lemma QueryNearest(layers: seq<Node>, args: seq<Value>, centroid: Node -> (real, real), distanceTo: Node -> real)
    requires Setup(args, centroid).Ok? && RootDistances(layers, Setup(args, centroid).value.0).Ok?
    requires IndexedLayers(QueryConfig(Corrected, args, centroid, distanceTo), layers)
    ensures QueryRun(Corrected, layers, args, centroid, distanceTo).Ok?
    ensures var s := QueryRun(Corrected, layers, args, centroid, distanceTo).value;
            var k := Setup(args, centroid).value.1;
            NearestOf(s.heap, s.offered, k) &&
            forall i :: 0 <= i < |layers| ==>
              IndexRoot(layers[i]).Ok? && Covers(distanceTo, IndexRoot(layers[i]).value, s.heap, k)
  {
    var c := QueryConfig(Corrected, args, centroid, distanceTo);
    var roots := RootDistances(layers, c.coords).value;
    assert QueryRun(Corrected, layers, args, centroid, distanceTo) == QueryWalk(c, roots);
    RootsOfLayers(layers, c.coords, roots);
    forall e | e in roots
      ensures DistanceIndexed(c, e.node)
    {
      var i :| 0 <= i < |roots| && roots[i] == e;
      assert IsLayerRoot(layers, roots[i].node);
    }
    WalkNearest(c, roots);
    var s := QueryWalk(c, roots).value;
    forall i | 0 <= i < |layers|
      ensures IndexRoot(layers[i]).Ok? && Covers(distanceTo, IndexRoot(layers[i]).value, s.heap, c.k)
    {
      assert RootEntry(layers[i], c.coords, roots[i]);
      assert roots[i] in roots;
    }
  }

  /**
   * The rule as written breaks this on the two-leaf index of AsWrittenCutsOffEarly, which
   * fits the query: the second geometry, at squared distance 9, is neither returned nor
   * behind a full result.
   */
  lemma AsWrittenMissesGeometry()
    ensures DistanceIndexed(ExampleConfig(AsWritten), ExampleRoot())
    ensures var r := QueryWalk(ExampleConfig(AsWritten), [KnnOutput(ExampleRoot(), 0.0)]);
            r.Ok? && !Covers(ExampleDistance, ExampleRoot(), r.value.heap, 2)
  {
    ExampleIndexed(AsWritten);
    AsWrittenCutsOffEarly();
    ExampleRootGeometry();
    var heap := [KnnOutput(Geometry(1), 4.0)];
    assert KnnOutput(Geometry(2), 9.0) !in heap;
  }

  /** The second geometry lies below the example's root. */
  lemma ExampleRootGeometry()
    ensures Geometry(2) in GeometriesFromIndex(ExampleRoot())
  {
    ExampleLeafGeometries();
    GeometriesFromIndexMember(ExampleRoot(), Geometry(2));
    assert ExampleRoot().out[1] in ExampleRoot().out;
  }

  /** The geometries below the example's leaves. */
  lemma ExampleLeafGeometries()
    ensures GeometriesFromIndex(ExampleLeaf1()) == [Geometry(1)]
    ensures GeometriesFromIndex(ExampleLeaf2()) == [Geometry(2)]
  {
    LeafGeometries(ExampleLeaf1());
    LeafGeometries(ExampleLeaf2());
  }

  /** The example index fits a query from the origin. */
  lemma ExampleIndexed(rule: Rule)
    ensures DistanceIndexed(ExampleConfig(rule), ExampleRoot())
  {
    var c := ExampleConfig(rule);
    ExampleLeafGeometries();
    ExampleLeafDistances();
    ExampleRootRels();
    assert DistanceIndexed(c, ExampleLeaf1()) && DistanceIndexed(c, ExampleLeaf2());
    assert BoundsBelow(c, ExampleLeaf1()) && BoundsBelow(c, ExampleLeaf2());
  }
}
