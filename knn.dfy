/**
 * The k-nearest-neighbour query. KnnVisitor keeps a bounded max-priority queue of
 * (geometry node, distance) entries and nnDistTemp, the distance a new geometry must beat;
 * Knn walks the index depth-first, visiting children nearest first and stopping at the
 * first child farther than nnDistTemp.
 *
 * Distances are squared Euclidean distances throughout: squaring preserves every
 * comparison between non-negative distances, so every decision is the one the Java code
 * takes, and a reported distance is the square of the Java value.
 */
module Knn {
  import opened Wrappers
  import opened Boxes
  import opened Graph
  import opened QueryUtils
  import opened Sorting
  import opened Arguments

  /** RtreeUtility.KnnOutput. */
  datatype KnnOutput = KnnOutput(node: Node, distance: real)

  function DistanceOf(o: KnnOutput): real { o.distance }

  /** nnDistTemp: Double.MAX_VALUE until a distance is recorded. */
  datatype NnDist = MaxValue | Dist(value: real)

  /** distance < nnDistTemp. */
  predicate Nearer(d: real, nn: NnDist) { nn.MaxValue? || d < nn.value }

  /** distance > nnDistTemp. */
  predicate Farther(d: real, nn: NnDist) { nn.Dist? && d > nn.value }

  // ------------------------------------------------------------ the priority queue

  /** The position of the first entry of largest distance: what the reversed comparator puts at the head. */
  function MaxAt(s: seq<KnnOutput>): (i: nat)
    requires s != []
    ensures i < |s|
    ensures forall j :: 0 <= j < |s| ==> s[j].distance <= s[i].distance
  {
    if |s| == 1 then 0
    else
      var t := MaxAt(s[1..]);
      assert forall j :: 1 <= j < |s| ==> s[j] == s[1..][j - 1];
      if s[0].distance >= s[t + 1].distance then 0 else t + 1
  }

  /** poll(): the queue without its head. */
  function Poll(s: seq<KnnOutput>): (r: seq<KnnOutput>)
    requires s != []
    ensures |r| == |s| - 1
    ensures multiset(r) + multiset{s[MaxAt(s)]} == multiset(s)
  {
    var i := MaxAt(s);
    assert s == s[..i] + [s[i]] + s[i + 1..];
    s[..i] + s[i + 1..]
  }

  /** Every kept entry is at most as far as every dropped one. */
  predicate Separated(kept: seq<KnnOutput>, dropped: seq<KnnOutput>)
  {
    forall i, j :: 0 <= i < |kept| && 0 <= j < |dropped| ==> kept[i].distance <= dropped[j].distance
  }

  /** onIndexReference as written: nnDistTemp moves to the head only when the new distance beat it. */
  function OfferAsWritten(heap: seq<KnnOutput>, nn: NnDist, k: int, x: KnnOutput): (r: (seq<KnnOutput>, NnDist))
    requires 1 <= k && |heap| <= k
    ensures |r.0| <= k
  {
    if |heap| < k || Nearer(x.distance, nn) then
      var polled := if |heap| == k then Poll(heap) else heap;
      var added := polled + [x];
      (added, if Nearer(x.distance, nn) then Dist(added[MaxAt(added)].distance) else nn)
    else (heap, nn)
  }

  /**
   * What the rule as written does keep: an entry is inserted iff the queue is not full or it
   * beats nnDistTemp; a full queue first loses an entry of largest distance; a rejected entry
   * changes nothing.
   */
  lemma AsWrittenInsertion(heap: seq<KnnOutput>, nn: NnDist, k: int, x: KnnOutput)
    requires 1 <= k && |heap| <= k
    ensures var r := OfferAsWritten(heap, nn, k, x);
            (x in r.0 <==> |heap| < k || Nearer(x.distance, nn) || x in heap) &&
            (!(|heap| < k || Nearer(x.distance, nn)) ==> r == (heap, nn)) &&
            (|heap| < k ==> multiset(r.0) == multiset(heap) + multiset{x}) &&
            (|heap| == k && Nearer(x.distance, nn) ==>
               multiset(r.0) + multiset{heap[MaxAt(heap)]} == multiset(heap) + multiset{x})
  {
    var r := OfferAsWritten(heap, nn, k, x);
    if |heap| < k || Nearer(x.distance, nn) {
      var polled := if |heap| == k then Poll(heap) else heap;
      assert r.0 == polled + [x];
    }
  }

  /**
   * nnDistTemp as written moves only on an entry that beats it, and then to the largest
   * distance in the new queue.
   */
  lemma AsWrittenThreshold(heap: seq<KnnOutput>, nn: NnDist, k: int, x: KnnOutput)
    requires 1 <= k && |heap| <= k
    ensures var r := OfferAsWritten(heap, nn, k, x);
            r.1 != nn ==>
              Nearer(x.distance, nn) && r.1.Dist? &&
              (forall e :: e in r.0 ==> e.distance <= r.1.value) &&
              exists e :: e in r.0 && e.distance == r.1.value
  {
    var r := OfferAsWritten(heap, nn, k, x);
    if Nearer(x.distance, nn) {
      var polled := if |heap| == k then Poll(heap) else heap;
      var added := polled + [x];
      assert r.0 == added;
      assert added[MaxAt(added)] in r.0;
    }
  }

  /** The same three offers, from the empty queue with k = 2, at distances 5, 7 and 6. */
  lemma AsWrittenDropsNearer(a: Node, b: Node, c: Node)
    ensures var e5, e7, e6 := KnnOutput(a, 5.0), KnnOutput(b, 7.0), KnnOutput(c, 6.0);
            var s1 := OfferAsWritten([], MaxValue, 2, e5);
            var s2 := OfferAsWritten(s1.0, s1.1, 2, e7);
            var s3 := OfferAsWritten(s2.0, s2.1, 2, e6);
            s1 == ([e5], Dist(5.0)) && s2 == ([e5, e7], Dist(5.0)) && s3.0 == [e5, e7] &&
            !Separated(s3.0, [e6])
  {
    var e5, e7, e6 := KnnOutput(a, 5.0), KnnOutput(b, 7.0), KnnOutput(c, 6.0);
    assert [] + [e5] == [e5];
    assert MaxAt([e5]) == 0;
    var s1 := OfferAsWritten([], MaxValue, 2, e5);
    assert s1 == ([e5], Dist(5.0));
    assert [e5] + [e7] == [e5, e7];
    var s2 := OfferAsWritten(s1.0, s1.1, 2, e7);
    assert s2 == ([e5, e7], Dist(5.0));
    assert [e5, e7][1].distance > [e6][0].distance;
  }

  /** nnDistTemp as intended: the head's distance once the queue holds k entries. */
  function NnOf(heap: seq<KnnOutput>, k: int): NnDist
  {
    if |heap| == k && heap != [] then Dist(heap[MaxAt(heap)].distance) else MaxValue
  }

  /** onIndexReference with nnDistTemp reset to the head whenever the queue is full. */
  function Offer(heap: seq<KnnOutput>, k: int, x: KnnOutput): (r: seq<KnnOutput>)
    requires 1 <= k && |heap| <= k
    ensures |r| == if |heap| < k then |heap| + 1 else k
  {
    if |heap| < k || Nearer(x.distance, NnOf(heap, k)) then
      (if |heap| == k then Poll(heap) else heap) + [x]
    else heap
  }

  /** What an offer pushes out of the queue: nothing, the evicted head, or the offered entry. */
  function Evicted(heap: seq<KnnOutput>, k: int, x: KnnOutput): seq<KnnOutput>
    requires 1 <= k && |heap| <= k
  {
    if |heap| < k then []
    else if Nearer(x.distance, NnOf(heap, k)) then [heap[MaxAt(heap)]]
    else [x]
  }

  /** Every entry of the queue is at most as far as its head. */
  lemma HeadIsFarthest(heap: seq<KnnOutput>)
    requires heap != []
    ensures forall i :: 0 <= i < |Poll(heap)| ==> Poll(heap)[i].distance <= heap[MaxAt(heap)].distance
  {
    var p := Poll(heap);
    forall i | 0 <= i < |p|
      ensures p[i].distance <= heap[MaxAt(heap)].distance
    {
      assert p[i] in multiset(p);
      assert p[i] in multiset(heap);
    }
  }

  /** No entry is lost or invented by an offer: it is kept or evicted. */
  lemma OfferConserves(heap: seq<KnnOutput>, dropped: seq<KnnOutput>, k: int, x: KnnOutput)
    requires 1 <= k && |heap| <= k
    ensures multiset(Offer(heap, k, x)) + multiset(dropped + Evicted(heap, k, x)) ==
            multiset(heap) + multiset(dropped) + multiset{x}
  {
  }

  /** Offering to a full queue: the evicted entry is at least as far as every kept one. */
  lemma OfferSeparatesFull(heap: seq<KnnOutput>, dropped: seq<KnnOutput>, k: int, x: KnnOutput)
    requires 1 <= k && |heap| == k && Separated(heap, dropped)
    ensures Separated(Offer(heap, k, x), dropped + Evicted(heap, k, x))
  {
    var r := Offer(heap, k, x);
    var e := Evicted(heap, k, x);
    var m := heap[MaxAt(heap)];
    assert |e| == 1;
    if x.distance < m.distance {
      HeadIsFarthest(heap);
      assert e[0] == m;
      assert forall i :: 0 <= i < |r| ==> r[i].distance <= m.distance;
    } else {
      assert r == heap && e[0] == x;
    }
    SeparatedAppend(r, dropped, e);
  }

  lemma SeparatedAppend(kept: seq<KnnOutput>, d: seq<KnnOutput>, e: seq<KnnOutput>)
    requires Separated(kept, d) && Separated(kept, e)
    ensures Separated(kept, d + e)
  {
    forall i, j | 0 <= i < |kept| && 0 <= j < |d + e|
      ensures kept[i].distance <= (d + e)[j].distance
    {
      if j < |d| {
        assert (d + e)[j] == d[j];
      } else {
        assert (d + e)[j] == e[j - |d|];
      }
    }
  }

  /**
   * The queue holds the k nearest entries offered so far: an offer keeps every entry
   * accounted for, and every kept entry stays at most as far as every dropped one.
   */
  lemma OfferKeepsNearest(heap: seq<KnnOutput>, dropped: seq<KnnOutput>, k: int, x: KnnOutput)
    requires 1 <= k && |heap| <= k && Separated(heap, dropped)
    requires |heap| < k ==> dropped == []
    ensures Separated(Offer(heap, k, x), dropped + Evicted(heap, k, x))
    ensures multiset(Offer(heap, k, x)) + multiset(dropped + Evicted(heap, k, x)) ==
            multiset(heap) + multiset(dropped) + multiset{x}
    ensures |Offer(heap, k, x)| < k ==> dropped + Evicted(heap, k, x) == []
  {
    OfferConserves(heap, dropped, k, x);
    if |heap| == k {
      OfferSeparatesFull(heap, dropped, k, x);
    } else {
      assert dropped + Evicted(heap, k, x) == [];
    }
  }

  /** The two rules differ only in nnDistTemp, and only before the queue is full. */
  lemma AsWrittenAgreesWhenFull(heap: seq<KnnOutput>, k: int, x: KnnOutput)
    requires 1 <= k && |heap| == k
    ensures OfferAsWritten(heap, NnOf(heap, k), k, x).0 == Offer(heap, k, x)
  {
  }

  // ------------------------------------------------------------ the visitor's state

  /**
   * Which onIndexReference a visitor runs: the code as written, or the corrected one that
   * keeps nnDistTemp at the head's distance once the queue holds k entries.
   */
  datatype Rule = AsWritten | Corrected

  /** What a visitor is built with: its rule, k, queryPointCoords and the geometry distance. */
  datatype Config = Config(rule: Rule, k: int, coords: seq<real>, distanceTo: Node -> real)
  {
    predicate Valid() { 1 <= k && |coords| == 2 }
  }

  /** A visitor's state: nearestNodes, nnDistTemp and every entry offered so far. */
  datatype Search = Search(heap: seq<KnnOutput>, nn: NnDist, offered: seq<KnnOutput>)

  /** A new visitor's state: an empty queue, nnDistTemp at Double.MAX_VALUE. */
  const Initial: Search := Search([], MaxValue, [])

  /**
   * What a visitor's state keeps under either rule: at most k entries, all offered; under
   * the corrected rule also nnDistTemp at the head once full, and, with dropped the entries
   * pushed out or turned away, every queued entry at most as far as every dropped one.
   */
  ghost predicate Inv(c: Config, s: Search, dropped: seq<KnnOutput>)
  {
    c.Valid() && |s.heap| <= c.k && multiset(s.heap) <= multiset(s.offered) &&
    (c.rule == Corrected ==>
       s.nn == NnOf(s.heap, c.k) && Separated(s.heap, dropped) && (|s.heap| < c.k ==> dropped == []) &&
       multiset(s.heap) + multiset(dropped) == multiset(s.offered))
  }

  /** One onIndexReference call under c's rule. */
  function Step(c: Config, s: Search, x: KnnOutput): (r: Search)
    requires c.Valid() && |s.heap| <= c.k
    ensures |r.heap| <= c.k && r.offered == s.offered + [x]
  {
    match c.rule
    case AsWritten =>
      var next := OfferAsWritten(s.heap, s.nn, c.k, x);
      Search(next.0, next.1, s.offered + [x])
    case Corrected =>
      var heap := Offer(s.heap, c.k, x);
      Search(heap, NnOf(heap, c.k), s.offered + [x])
  }

  /** The entries a step drops: what the corrected rule evicts, and nothing under the rule as written. */
  function StepDropped(c: Config, s: Search, x: KnnOutput): seq<KnnOutput>
    requires c.Valid() && |s.heap| <= c.k
  {
    if c.rule == Corrected then Evicted(s.heap, c.k, x) else []
  }

  /** Each step keeps the invariant. */
  lemma StepInv(c: Config, s: Search, dropped: seq<KnnOutput>, x: KnnOutput)
    requires Inv(c, s, dropped)
    ensures Inv(c, Step(c, s, x), dropped + StepDropped(c, s, x))
  {
    if c.rule == Corrected {
      OfferKeepsNearest(s.heap, dropped, c.k, x);
    } else {
      AsWrittenKeepsOffered(s.heap, s.nn, c.k, x);
      assert multiset(s.offered + [x]) == multiset(s.offered) + multiset{x};
    }
  }

  /** As written, the queue after an offer holds only entries it held or the offered one. */
  lemma AsWrittenKeepsOffered(heap: seq<KnnOutput>, nn: NnDist, k: int, x: KnnOutput)
    requires 1 <= k && |heap| <= k
    ensures multiset(OfferAsWritten(heap, nn, k, x).0) <= multiset(heap) + multiset{x}
  {
    AsWrittenInsertion(heap, nn, k, x);
  }

  /** onIndexReference for each entry of xs in turn. */
  function OfferAll(c: Config, s: Search, xs: seq<KnnOutput>): (r: Search)
    requires c.Valid() && |s.heap| <= c.k
    ensures |r.heap| <= c.k && r.offered == s.offered + xs
  {
    if xs == [] then s
    else
      assert xs == xs[..|xs| - 1] + [xs[|xs| - 1]];
      Step(c, OfferAll(c, s, xs[..|xs| - 1]), xs[|xs| - 1])
  }

  lemma OfferAllSnoc(c: Config, s: Search, xs: seq<KnnOutput>, x: KnnOutput)
    requires c.Valid() && |s.heap| <= c.k
    ensures OfferAll(c, s, xs + [x]) == Step(c, OfferAll(c, s, xs), x)
  {
    assert (xs + [x])[..|xs|] == xs;
  }

  /**
   * The body of onIndexReference on the queue and nnDistTemp: the entry goes in when the
   * queue has room or it beats nnDistTemp, after polling the head of a full queue; as written,
   * nnDistTemp then moves to the head only if the entry beat it; corrected, it follows the
   * head once the queue holds k entries.
   */
  method StepQueue(c: Config, heap: seq<KnnOutput>, nn: NnDist, x: KnnOutput, ghost offered: seq<KnnOutput>)
    returns (h: seq<KnnOutput>, d: NnDist)
    requires c.Valid() && |heap| <= c.k
    requires c.rule == Corrected ==> nn == NnOf(heap, c.k)
    ensures Search(h, d, offered + [x]) == Step(c, Search(heap, nn, offered), x)
  {
    h, d := heap, nn;
    if |h| < c.k || Nearer(x.distance, d) {
      if |h| == c.k {
        h := Poll(h);
      }
      h := h + [x];
      if c.rule == AsWritten {
        if Nearer(x.distance, nn) {
          d := Dist(h[MaxAt(h)].distance);
        }
      } else if |h| == c.k {
        d := Dist(h[MaxAt(h)].distance);
      }
    }
  }

  // --------------------------------------------------------------- the visitor

  class KnnVisitor {
    const rule: Rule
    const k: int
    /** queryPointCoords: the centroid of the query geometry. */
    const coords: seq<real>
    /** The squared JTS distance from the query geometry to a geometry node. */
    const distanceTo: Node -> real
    /** nearestNodes, in no particular order. */
    var heap: seq<KnnOutput>
    var nn: NnDist
    ghost var offered: seq<KnnOutput>
    /** The entries the corrected rule has pushed out of the queue or turned away. */
    ghost var dropped: seq<KnnOutput>

    function Settings(): Config
    {
      Config(rule, k, coords, distanceTo)
    }

    ghost function State(): Search
      reads this
    {
      Search(heap, nn, offered)
    }

    ghost predicate Valid()
      reads this
    {
      Inv(Settings(), State(), dropped)
    }

    /** new PriorityQueue(k, ...) refuses k < 1, so the visitor always has k >= 1. */
    constructor (rule: Rule, k: int, coords: seq<real>, distanceTo: Node -> real)
      requires 1 <= k && |coords| == 2
      ensures Valid()
      ensures this.rule == rule && this.k == k && this.coords == coords && this.distanceTo == distanceTo
      ensures State() == Initial
    {
      this.rule := rule;
      this.k := k;
      this.coords := coords;
      this.distanceTo := distanceTo;
      heap := [];
      nn := MaxValue;
      offered := [];
      dropped := [];
    }

    /** needsToVisit: the envelope's distance is below nnDistTemp. */
    method NeedsToVisit(indexNodeEnvelope: Rect) returns (b: bool)
      requires |coords| == 2
      ensures b <==> Nearer(PointDistanceSq(indexNodeEnvelope, coords), nn)
    {
      var minDist := PointDistanceSq(indexNodeEnvelope, coords);
      b := nn.MaxValue? || minDist < nn.value;
    }

    /**
     * onIndexReference: the queue takes the geometry when it has room or the distance beats
     * nnDistTemp, polling the head first when full. As written, nnDistTemp then moves to the
     * head only if the distance beat it; corrected, it follows the head once the queue is full.
     */
    method OnIndexReference(geomNode: Node)
      requires Valid()
      modifies this
      ensures Valid()
      ensures State() == Step(Settings(), old(State()), KnnOutput(geomNode, distanceTo(geomNode)))
    {
      var x := KnnOutput(geomNode, distanceTo(geomNode));
      StepInv(Settings(), State(), dropped, x);
      dropped := dropped + StepDropped(Settings(), State(), x);
      heap, nn := StepQueue(Settings(), heap, nn, x, offered);
      offered := offered + [x];
    }

    method GetQueryPointCoords() returns (c: seq<real>)
      ensures c == coords
    {
      c := coords;
    }

    method GetNnDistTemp() returns (d: NnDist)
      ensures d == nn
    {
      d := nn;
    }
  }

  // --------------------------------------------------------------- the graph

  /** An entry for a geometry below n, at its distance. */
  predicate FoundBelow(distanceTo: Node -> real, n: Node, o: KnnOutput)
  {
    o.node in GeometriesFromIndex(n) && o.distance == distanceTo(o.node)
  }

  /** Each entry is a CHILD of n, at the squared distance from its bbox to the query point. */
  predicate ChildEntries(n: Node, coords: seq<real>, children: seq<KnnOutput>)
    requires |coords| == 2
  {
    forall c :: c in children ==>
      c.node.bbox.Some? && c.distance == PointDistanceSq(c.node.bbox.value, coords) &&
      exists r :: r in n.out && r.kind == Child && r.end == c.node
  }

  /** A CHILD relationship whose end node has no bbox. */
  predicate MissingChildBbox(n: Node)
  {
    exists r :: r in n.out && r.kind == Child && r.end.bbox.None?
  }

  /** Every CHILD below n, at any depth, has a bbox. */
  predicate ChildBboxes(n: Node)
    decreases n
  {
    !MissingChildBbox(n) && forall r :: r in n.out && r.kind == Child ==> ChildBboxes(r.end)
  }

  /** The entry of each relationship's end node, at the distance of its bbox. */
  function Distances(rels: seq<Rel>, coords: seq<real>): (r: seq<KnnOutput>)
    requires |coords| == 2 && forall i :: 0 <= i < |rels| ==> rels[i].end.bbox.Some?
    ensures |r| == |rels|
    ensures forall i :: 0 <= i < |rels| ==>
              r[i] == KnnOutput(rels[i].end, PointDistanceSq(rels[i].end.bbox.value, coords))
  {
    if rels == [] then []
    else
      var last := rels[|rels| - 1];
      Distances(rels[..|rels| - 1], coords) + [KnnOutput(last.end, PointDistanceSq(last.end.bbox.value, coords))]
  }

  lemma DistancesAreChildEntries(n: Node, coords: seq<real>)
    requires |coords| == 2 && !MissingChildBbox(n)
    ensures ChildEntries(n, coords, Distances(RelsOf(n.out, Child), coords))
  {
    var rs := RelsOf(n.out, Child);
    var d := Distances(rs, coords);
    forall c | c in d
      ensures c.node.bbox.Some? && c.distance == PointDistanceSq(c.node.bbox.value, coords)
      ensures exists r :: r in n.out && r.kind == Child && r.end == c.node
    {
      var i :| 0 <= i < |d| && d[i] == c;
      assert rs[i] in rs;
    }
  }

  /**
   * The children list of visitKnn: one entry per CHILD relationship, with the distance of
   * the child's bbox; a child without one fails with a NullPointerException.
   */
  method ChildDistances(indexNode: Node, coords: seq<real>) returns (r: Result<seq<KnnOutput>>)
    requires |coords| == 2
    ensures r.Err? <==> MissingChildBbox(indexNode)
    ensures r.Err? ==> r.error == NullPointer
    ensures r.Ok? ==> r.value == Distances(RelsOf(indexNode.out, Child), coords)
  {
    var rels := RelsOf(indexNode.out, Child);
    var children: seq<KnnOutput> := [];
    var j := 0;
    while j < |rels|
      invariant 0 <= j <= |rels|
      invariant forall i :: 0 <= i < j ==> rels[i].end.bbox.Some?
      invariant children == Distances(rels[..j], coords)
    {
      var child := rels[j].end;
      if child.bbox.None? {
        assert rels[j] in rels;
        return Err(NullPointer);
      }
      ghost var next := rels[..j + 1];
      assert next[..j] == rels[..j] && next[j] == rels[j];
      var distance := PointDistanceSq(child.bbox.value, coords);
      children := children + [KnnOutput(child, distance)];
      j := j + 1;
    }
    assert rels[..j] == rels;
    r := Ok(children);
  }

  /** The entries offered for the end nodes of rels, in order. */
  function Offers(distanceTo: Node -> real, rels: seq<Rel>): (r: seq<KnnOutput>)
    ensures |r| == |rels|
  {
    if rels == [] then []
    else Offers(distanceTo, rels[..|rels| - 1]) + [KnnOutput(rels[|rels| - 1].end, distanceTo(rels[|rels| - 1].end))]
  }

  lemma {:induction false} OffersAt(distanceTo: Node -> real, rels: seq<Rel>)
    ensures forall i :: 0 <= i < |rels| ==>
              Offers(distanceTo, rels)[i] == KnnOutput(rels[i].end, distanceTo(rels[i].end))
  {
    if rels != [] {
      var front := rels[..|rels| - 1];
      OffersAt(distanceTo, front);
      assert forall i :: 0 <= i < |front| ==> rels[i] == front[i];
    }
  }

  lemma OffersSnoc(distanceTo: Node -> real, rels: seq<Rel>, j: nat)
    requires j < |rels|
    ensures Offers(distanceTo, rels[..j + 1]) ==
            Offers(distanceTo, rels[..j]) + [KnnOutput(rels[j].end, distanceTo(rels[j].end))]
  {
    assert rels[..j + 1][..j] == rels[..j];
  }

  /** What the references loop offers is found below the node. */
  lemma ReferencesFound(distanceTo: Node -> real, n: Node)
    ensures forall o :: o in Offers(distanceTo, RelsOf(n.out, Reference)) ==> FoundBelow(distanceTo, n, o)
  {
    var rs := RelsOf(n.out, Reference);
    OffersAt(distanceTo, rs);
    forall i | 0 <= i < |rs|
      ensures FoundBelow(distanceTo, n, Offers(distanceTo, rs)[i])
    {
      assert rs[i] in rs;
      GeometriesFromIndexMember(n, rs[i].end);
    }
  }

  /** Everything below a child of n is below n. */
  lemma BelowChild(n: Node, i: nat)
    requires i < |n.out| && n.out[i].kind == Child
    ensures forall g :: g in GeometriesFromIndex(n.out[i].end) ==> g in GeometriesFromIndex(n)
  {
    forall g | g in GeometriesFromIndex(n.out[i].end)
      ensures g in GeometriesFromIndex(n)
    {
      assert n.out[i] in n.out;
      GeometriesFromIndexMember(n, g);
    }
  }

  // --------------------------------------------------------------- the walk

  /**
   * visitKnn from state s: a node with CHILD relationships visits its children sorted by
   * distance, stopping at the first farther than nnDistTemp, and a child without a bbox is
   * a NullPointerException; any other node offers each REFERENCE end node in order. The
   * result is the state left behind and whether the walk completed.
   */
  ghost function Visit(c: Config, n: Node, s: Search): (r: (Search, Outcome))
    requires c.Valid() && |s.heap| <= c.k
    ensures |r.0.heap| <= c.k
    ensures r.1.Fail? ==> r.1.error == NullPointer
    decreases n, 1
  {
    if NodeIsLeaf(n) then (OfferAll(c, s, Offers(c.distanceTo, RelsOf(n.out, Reference))), Done)
    else if MissingChildBbox(n) then (s, Fail(NullPointer))
    else
      DistancesAreChildEntries(n, c.coords);
      VisitChildrenOf(c, n, Distances(RelsOf(n.out, Child), c.coords), s)
  }

  /** The children of visitKnn sorted by distance, then visited until the cut-off. */
  ghost function VisitChildrenOf(c: Config, n: Node, children: seq<KnnOutput>, s: Search): (r: (Search, Outcome))
    requires c.Valid() && |s.heap| <= c.k && ChildEntries(n, c.coords, children)
    ensures |r.0.heap| <= c.k
    ensures r.1.Fail? ==> r.1.error == NullPointer
    decreases n, 0, |children| + 1
  {
    SortBySorted(children, DistanceOf);
    VisitFrom(c, n, SortBy(children, DistanceOf), s)
  }

  /** The children loop of visitKnn from state s, over the children still to visit. */
  ghost function VisitFrom(c: Config, n: Node, children: seq<KnnOutput>, s: Search): (r: (Search, Outcome))
    requires c.Valid() && |s.heap| <= c.k && ChildEntries(n, c.coords, children)
    ensures |r.0.heap| <= c.k
    ensures r.1.Fail? ==> r.1.error == NullPointer
    decreases n, 0, |children|
  {
    if children == [] || Farther(children[0].distance, s.nn) then (s, Done)
    else
      assert children[0] in children;
      var first := Visit(c, children[0].node, s);
      if first.1.Fail? then first else VisitFrom(c, n, children[1..], first.0)
  }

  /** The loop of query over the sorted initial nodes: each root visited, without a cut-off. */
  ghost function VisitAll(c: Config, roots: seq<KnnOutput>, s: Search): (r: (Search, Outcome))
    requires c.Valid() && |s.heap| <= c.k
    ensures |r.0.heap| <= c.k
    ensures r.1.Fail? ==> r.1.error == NullPointer
    decreases |roots|
  {
    if roots == [] then (s, Done)
    else
      assert roots[0] in roots;
      var first := Visit(c, roots[0].node, s);
      if first.1.Fail? then first else VisitAll(c, roots[1..], first.0)
  }

  /** An inner node with a bbox on every CHILD visits the children list of its CHILD relationships. */
  lemma VisitInner(c: Config, n: Node, s: Search)
    requires c.Valid() && |s.heap| <= c.k && !NodeIsLeaf(n) && !MissingChildBbox(n)
    ensures ChildEntries(n, c.coords, Distances(RelsOf(n.out, Child), c.coords))
    ensures Visit(c, n, s) == VisitChildrenOf(c, n, Distances(RelsOf(n.out, Child), c.coords), s)
  {
    DistancesAreChildEntries(n, c.coords);
  }

  /** One step of the children loop, at position i of the sorted children. */
  lemma VisitFromAt(c: Config, n: Node, children: seq<KnnOutput>, i: int, s: Search)
    requires c.Valid() && |s.heap| <= c.k && ChildEntries(n, c.coords, children) && 0 <= i < |children|
    ensures ChildEntries(n, c.coords, children[i..]) && ChildEntries(n, c.coords, children[i + 1..])
    ensures VisitFrom(c, n, children[i..], s) ==
            if Farther(children[i].distance, s.nn) then (s, Done)
            else
              var first := Visit(c, children[i].node, s);
              if first.1.Fail? then first else VisitFrom(c, n, children[i + 1..], first.0)
  {
    assert children[i..][0] == children[i] && children[i..][1..] == children[i + 1..];
  }

  /** With a bbox on every CHILD below n, visitKnn completes. */
  lemma {:induction false} VisitDone(c: Config, n: Node, s: Search)
    requires c.Valid() && |s.heap| <= c.k && ChildBboxes(n)
    ensures Visit(c, n, s).1 == Done
    decreases n, 1
  {
    if !NodeIsLeaf(n) {
      var children := Distances(RelsOf(n.out, Child), c.coords);
      DistancesAreChildEntries(n, c.coords);
      SortBySorted(children, DistanceOf);
      VisitFromDone(c, n, SortBy(children, DistanceOf), s);
    }
  }

  lemma {:induction false} VisitFromDone(c: Config, n: Node, children: seq<KnnOutput>, s: Search)
    requires c.Valid() && |s.heap| <= c.k && ChildEntries(n, c.coords, children) && ChildBboxes(n)
    ensures VisitFrom(c, n, children, s).1 == Done
    decreases n, 0, |children|
  {
    if children != [] && !Farther(children[0].distance, s.nn) {
      assert children[0] in children;
      var r :| r in n.out && r.kind == Child && r.end == children[0].node;
      VisitDone(c, children[0].node, s);
      VisitFromDone(c, n, children[1..], Visit(c, children[0].node, s).0);
    }
  }

  lemma {:induction false} VisitAllDone(c: Config, roots: seq<KnnOutput>, s: Search)
    requires c.Valid() && |s.heap| <= c.k && forall e :: e in roots ==> ChildBboxes(e.node)
    ensures VisitAll(c, roots, s).1 == Done
    decreases |roots|
  {
    if roots != [] {
      assert roots[0] in roots;
      VisitDone(c, roots[0].node, s);
      assert forall e :: e in roots[1..] ==> e in roots;
      VisitAllDone(c, roots[1..], Visit(c, roots[0].node, s).0);
    }
  }

  /** t continues s: it keeps every entry s offered and adds only entries found below n. */
  ghost predicate Extends(distanceTo: Node -> real, n: Node, s: Search, t: Search)
  {
    |s.offered| <= |t.offered| && t.offered[..|s.offered|] == s.offered &&
    forall i :: |s.offered| <= i < |t.offered| ==> FoundBelow(distanceTo, n, t.offered[i])
  }

  lemma ExtendsTrans(distanceTo: Node -> real, n: Node, s: Search, t: Search, u: Search)
    requires Extends(distanceTo, n, s, t) && Extends(distanceTo, n, t, u)
    ensures Extends(distanceTo, n, s, u)
  {
    assert u.offered[..|s.offered|] == u.offered[..|t.offered|][..|s.offered|];
    forall i | |s.offered| <= i < |u.offered|
      ensures FoundBelow(distanceTo, n, u.offered[i])
    {
      if i < |t.offered| {
        assert u.offered[i] == u.offered[..|t.offered|][i];
      }
    }
  }

  /** A walk below child i of n offers only entries found below n. */
  lemma ExtendsChild(distanceTo: Node -> real, n: Node, i: nat, s: Search, t: Search)
    requires i < |n.out| && n.out[i].kind == Child && Extends(distanceTo, n.out[i].end, s, t)
    ensures Extends(distanceTo, n, s, t)
  {
    BelowChild(n, i);
  }

  /** visitKnn keeps what was offered before and offers only geometries below the node, at their distances. */
  lemma {:induction false} VisitFound(c: Config, n: Node, s: Search)
    requires c.Valid() && |s.heap| <= c.k
    ensures Extends(c.distanceTo, n, s, Visit(c, n, s).0)
    decreases n, 1
  {
    if NodeIsLeaf(n) {
      var xs := Offers(c.distanceTo, RelsOf(n.out, Reference));
      var t := OfferAll(c, s, xs);
      ReferencesFound(c.distanceTo, n);
      assert t.offered[..|s.offered|] == s.offered;
      forall i | |s.offered| <= i < |t.offered|
        ensures FoundBelow(c.distanceTo, n, t.offered[i])
      {
        assert t.offered[i] == xs[i - |s.offered|];
        assert xs[i - |s.offered|] in xs;
      }
    } else if !MissingChildBbox(n) {
      var children := Distances(RelsOf(n.out, Child), c.coords);
      DistancesAreChildEntries(n, c.coords);
      SortBySorted(children, DistanceOf);
      VisitFromFound(c, n, SortBy(children, DistanceOf), s);
      assert Visit(c, n, s) == VisitFrom(c, n, SortBy(children, DistanceOf), s);
    } else {
      assert s.offered[..|s.offered|] == s.offered;
    }
  }

  /** The children loop keeps what was offered before and offers only geometries below the node. */
  lemma {:induction false} VisitFromFound(c: Config, n: Node, children: seq<KnnOutput>, s: Search)
    requires c.Valid() && |s.heap| <= c.k && ChildEntries(n, c.coords, children)
    ensures Extends(c.distanceTo, n, s, VisitFrom(c, n, children, s).0)
    decreases n, 0, |children|
  {
    if children == [] || Farther(children[0].distance, s.nn) {
      assert s.offered[..|s.offered|] == s.offered;
    } else {
      assert children[0] in children;
      var r :| r in n.out && r.kind == Child && r.end == children[0].node;
      var i :| 0 <= i < |n.out| && n.out[i] == r;
      var first := Visit(c, children[0].node, s);
      VisitFound(c, children[0].node, s);
      ExtendsChild(c.distanceTo, n, i, s, first.0);
      if first.1.Done? {
        VisitFromFound(c, n, children[1..], first.0);
        ExtendsTrans(c.distanceTo, n, s, first.0, VisitFrom(c, n, children[1..], first.0).0);
      }
    }
  }

  // ------------------------------------------------------------------ the query

  /**
   * The constructor's decoding: the query point from args[0], then k from args[1] as a
   * Long cut to an int, then the PriorityQueue's refusal of k < 1.
   */
  function Setup(args: seq<Value>, centroid: Node -> (real, real)): (r: Result<(seq<real>, int)>)
    ensures r.Ok? ==> |r.value.0| == 2 && 1 <= r.value.1
    ensures |args| == 0 ==> r == Err(IndexOutOfBounds)
    ensures |args| > 0 && DecodeQueryPoint(args[0], centroid).Err? ==> r == Err(DecodeQueryPoint(args[0], centroid).error)
    ensures |args| == 1 && DecodeQueryPoint(args[0], centroid).Ok? ==> r == Err(IndexOutOfBounds)
    ensures |args| >= 2 && DecodeQueryPoint(args[0], centroid).Ok? ==>
              r == (match DecodeK(args[1])
                    case Err(e) => Err(e)
                    case Ok(k) => if k < 1 then Err(IllegalArgument)
                                  else Ok((DecodeQueryPoint(args[0], centroid).value, k)))
  {
    if |args| == 0 then Err(IndexOutOfBounds)
    else
      match DecodeQueryPoint(args[0], centroid)
      case Err(e) => Err(e)
      case Ok(p) =>
        if |args| < 2 then Err(IndexOutOfBounds)
        else
          match DecodeK(args[1])
          case Err(e) => Err(e)
          case Ok(k) => if k < 1 then Err(IllegalArgument) else Ok((p, k))
  }

  /** A layer whose root getIndexRoot finds, and whose root has a bbox. */
  predicate RootFound(layer: Node)
  {
    IndexRoot(layer).Ok? && IndexRoot(layer).value.bbox.Some?
  }

  /** e is the initial node of layer: its root at the distance of the root's bbox. */
  predicate RootEntry(layer: Node, coords: seq<real>, e: KnnOutput)
    requires |coords| == 2
  {
    RootFound(layer) && e.node == IndexRoot(layer).value &&
    e.distance == PointDistanceSq(e.node.bbox.value, coords)
  }

  /** Every layer has a root with a bbox. */
  predicate AllRootsFound(layers: seq<Node>)
  {
    forall i :: 0 <= i < |layers| ==> RootFound(layers[i])
  }

  /** roots[i] is the initial node of layers[i], for each i. */
  predicate RootEntries(layers: seq<Node>, coords: seq<real>, roots: seq<KnnOutput>)
    requires |coords| == 2
  {
    |roots| == |layers| && forall i :: 0 <= i < |layers| ==> RootEntry(layers[i], coords, roots[i])
  }

  /** The initial nodes: each layer's root at the distance of its bbox; the first failure propagates. */
  function RootDistances(layers: seq<Node>, coords: seq<real>): (r: Result<seq<KnnOutput>>)
    requires |coords| == 2
    ensures r.Ok? <==> AllRootsFound(layers)
    ensures r.Ok? ==> RootEntries(layers, coords, r.value)
  {
    if layers == [] then Ok([])
    else
      var front := layers[..|layers| - 1];
      assert forall i :: 0 <= i < |front| ==> front[i] == layers[i];
      match RootDistances(front, coords)
      case Err(e) => Err(e)
      case Ok(rest) =>
        var last := layers[|layers| - 1];
        match IndexRoot(last)
        case Err(e) => assert !RootFound(last); Err(e)
        case Ok(root) =>
          if root.bbox.None? then assert !RootFound(last); Err(NullPointer)
          else
            var all := rest + [KnnOutput(root, PointDistanceSq(root.bbox.value, coords))];
            assert forall i :: 0 <= i < |front| ==> all[i] == rest[i];
            assert RootEntry(last, coords, all[|front|]);
            Ok(all)
  }

  /** The initial-nodes loop of query. */
  method GetRootDistances(layers: seq<Node>, coords: seq<real>) returns (r: Result<seq<KnnOutput>>)
    requires |coords| == 2
    ensures r == RootDistances(layers, coords)
  {
    var initialNodes: seq<KnnOutput> := [];
    var i := 0;
    while i < |layers|
      invariant 0 <= i <= |layers|
      invariant RootDistances(layers[..i], coords) == Ok(initialNodes)
    {
      assert layers[..i + 1][..i] == layers[..i];
      var root := IndexRoot(layers[i]);
      if root.Err? {
        RootFailureSticks(layers, coords, i + 1);
        return Err(root.error);
      }
      if root.value.bbox.None? {
        RootFailureSticks(layers, coords, i + 1);
        return Err(NullPointer);
      }
      var distance := PointDistanceSq(root.value.bbox.value, coords);
      initialNodes := initialNodes + [KnnOutput(root.value, distance)];
      i := i + 1;
    }
    assert layers[..i] == layers;
    r := Ok(initialNodes);
  }

  /** A failure among the first j layers is the failure of the whole list. */
  lemma {:induction false} RootFailureSticks(layers: seq<Node>, coords: seq<real>, j: nat)
    requires |coords| == 2 && j <= |layers| && RootDistances(layers[..j], coords).Err?
    ensures RootDistances(layers, coords) == RootDistances(layers[..j], coords)
    decreases |layers| - j
  {
    if j < |layers| {
      assert layers[..j + 1][..j] == layers[..j];
      RootFailureSticks(layers, coords, j + 1);
    } else {
      assert layers[..j] == layers;
    }
  }

  /** Every CHILD below the root of every layer has a bbox. */
  predicate LayersBboxes(layers: seq<Node>)
  {
    forall i :: 0 <= i < |layers| && IndexRoot(layers[i]).Ok? ==> ChildBboxes(IndexRoot(layers[i]).value)
  }

  /** Every initial node is the root of a layer, and so has every CHILD bbox when the layers do. */
  lemma RootsBboxes(layers: seq<Node>, coords: seq<real>)
    requires |coords| == 2 && RootDistances(layers, coords).Ok? && LayersBboxes(layers)
    ensures forall e :: e in RootDistances(layers, coords).value ==> ChildBboxes(e.node)
  {
    var roots := RootDistances(layers, coords).value;
    forall e | e in roots
      ensures ChildBboxes(e.node)
    {
      var i :| 0 <= i < |roots| && roots[i] == e;
      assert RootEntry(layers[i], coords, e);
    }
  }

  /**
   * Knn.query under a rule: the constructor's checks, the initial nodes sorted by
   * distance, then the walk from a new visitor; the final state on success.
   */
  ghost function QueryRun(rule: Rule, layers: seq<Node>, args: seq<Value>, centroid: Node -> (real, real),
                          distanceTo: Node -> real): (r: Result<Search>)
    ensures Setup(args, centroid).Err? ==> r == Err(Setup(args, centroid).error)
    ensures Setup(args, centroid).Ok? && RootDistances(layers, Setup(args, centroid).value.0).Err? ==>
              r == Err(RootDistances(layers, Setup(args, centroid).value.0).error)
    ensures r.Err? ==> Setup(args, centroid).Err? || RootDistances(layers, Setup(args, centroid).value.0).Err? ||
                       r.error == NullPointer
    ensures r.Ok? ==> Setup(args, centroid).Ok? && |r.value.heap| <= Setup(args, centroid).value.1
  {
    match Setup(args, centroid)
    case Err(e) => Err(e)
    case Ok(setup) =>
      var c := Config(rule, setup.1, setup.0, distanceTo);
      match RootDistances(layers, c.coords)
      case Err(e) => Err(e)
      case Ok(roots) => QueryWalk(c, roots)
  }

  /** The walk of query from a new visitor over the sorted initial nodes. */
  ghost function QueryWalk(c: Config, roots: seq<KnnOutput>): (r: Result<Search>)
    requires c.Valid()
    ensures r.Ok? ==> |r.value.heap| <= c.k
    ensures r.Err? ==> r.error == NullPointer
  {
    SortBySorted(roots, DistanceOf);
    var walk := VisitAll(c, SortBy(roots, DistanceOf), Initial);
    if walk.1.Fail? then Err(walk.1.error) else Ok(walk.0)
  }

  // ------------------------------------------------------------ what the walk does

  /**
   * At a node without CHILD relationships, visitKnn offers each REFERENCE end node exactly
   * once, in relationship order, at its distance, and nothing else; a node with neither kind
   * of relationship offers nothing.
   */
  lemma {:induction false} VisitLeaf(c: Config, n: Node, s: Search)
    requires c.Valid() && |s.heap| <= c.k && NodeIsLeaf(n)
    ensures var t := Visit(c, n, s);
            var refs := RelsOf(n.out, Reference);
            t.1 == Done && |t.0.offered| == |s.offered| + |refs| &&
            t.0.offered[..|s.offered|] == s.offered &&
            (forall i :: 0 <= i < |refs| ==>
               t.0.offered[|s.offered| + i] == KnnOutput(refs[i].end, c.distanceTo(refs[i].end)))
    ensures RelsOf(n.out, Reference) == [] ==> Visit(c, n, s) == (s, Done)
  {
    var refs := RelsOf(n.out, Reference);
    var xs := Offers(c.distanceTo, refs);
    OffersAt(c.distanceTo, refs);
    var t := OfferAll(c, s, xs);
    assert Visit(c, n, s) == (t, Done);
    assert t.offered == s.offered + xs;
  }

  /**
   * The cut-off: once a child of the sorted list is farther than nnDistTemp, so is every
   * later one, and the loop returns without visiting any of them.
   */
  lemma CutOff(c: Config, n: Node, children: seq<KnnOutput>, s: Search, i: nat)
    requires c.Valid() && |s.heap| <= c.k && ChildEntries(n, c.coords, children)
    requires SortedBy(children, DistanceOf) && i < |children| && Farther(children[i].distance, s.nn)
    ensures forall j :: i <= j < |children| ==> Farther(children[j].distance, s.nn)
    ensures VisitFrom(c, n, children[i..], s) == (s, Done)
  {
    assert DistanceOf(children[i]) == children[i].distance;
    forall j | i <= j < |children|
      ensures Farther(children[j].distance, s.nn)
    {
      assert DistanceOf(children[i]) <= DistanceOf(children[j]);
    }
    assert children[i..][0] == children[i];
  }

  /**
   * The corrected rule never cuts off while the queue has room: nnDistTemp stays at
   * Double.MAX_VALUE until the queue holds k entries.
   */
  lemma CorrectedNoCutWhileFilling(c: Config, s: Search, dropped: seq<KnnOutput>, d: real)
    requires Inv(c, s, dropped) && c.rule == Corrected && |s.heap| < c.k
    ensures !Farther(d, s.nn) && Nearer(d, s.nn)
  {
  }

  /** A geometry node: no bbox, no relationships. */
  function Geometry(id: int): Node { Node(id, None, []) }

  /** The leaves and the root of a small index: two leaves of one geometry each. */
  function ExampleLeaf1(): Node
  {
    var b := Box2D(0.0, 3.0, 0.0, 3.0);
    Node(11, Some(b), [Rel(Reference, b, Geometry(1))])
  }

  function ExampleLeaf2(): Node
  {
    var b := Box2D(3.0, 4.0, 0.0, 1.0);
    Node(12, Some(b), [Rel(Reference, b, Geometry(2))])
  }

  function ExampleRoot(): Node
  {
    Node(10, Some(Box2D(0.0, 4.0, 0.0, 3.0)),
         [Rel(Child, ExampleLeaf1().bbox.value, ExampleLeaf1()), Rel(Child, ExampleLeaf2().bbox.value, ExampleLeaf2())])
  }

  /** The squared distances of the two geometries from the origin. */
  function ExampleDistance(g: Node): real { if g == Geometry(1) then 4.0 else 9.0 }

  function ExampleConfig(rule: Rule): Config { Config(rule, 2, [0.0, 0.0], ExampleDistance) }

  /** The root's CHILD relationships in the example, in database order. */
  lemma ExampleRootRels()
    ensures RelsOf(ExampleRoot().out, Child) == ExampleRoot().out
    ensures !NodeIsLeaf(ExampleRoot()) && !MissingChildBbox(ExampleRoot())
  {
    var out := ExampleRoot().out;
    assert out[..1] == [out[0]];
    assert RelsOf([out[0]], Child) == [out[0]];
    assert out[0] in out;
  }

  /** The squared distances of the two leaves' bboxes from the origin. */
  lemma ExampleLeafDistances()
    ensures PointDistanceSq(ExampleLeaf1().bbox.value, [0.0, 0.0]) == 0.0
    ensures PointDistanceSq(ExampleLeaf2().bbox.value, [0.0, 0.0]) == 9.0
  {
  }

  /** Two entries already in order stay in order. */
  lemma ExampleSorted(e1: KnnOutput, e2: KnnOutput)
    requires e1.distance <= e2.distance
    ensures SortBy([e1, e2], DistanceOf) == [e1, e2]
  {
    assert [e1, e2][..1] == [e1];
    assert SortBy([e1], DistanceOf) == [e1];
  }

  /** The root's children list in the example, from the origin: leaf 1 at 0, leaf 2 at 9, already in order. */
  lemma ExampleChildren()
    ensures var children := [KnnOutput(ExampleLeaf1(), 0.0), KnnOutput(ExampleLeaf2(), 9.0)];
            !NodeIsLeaf(ExampleRoot()) && !MissingChildBbox(ExampleRoot()) &&
            Distances(RelsOf(ExampleRoot().out, Child), [0.0, 0.0]) == children &&
            SortBy(children, DistanceOf) == children
  {
    ExampleRootRels();
    ExampleLeafDistances();
    var children := [KnnOutput(ExampleLeaf1(), 0.0), KnnOutput(ExampleLeaf2(), 9.0)];
    var d := Distances(ExampleRoot().out, [0.0, 0.0]);
    assert d[0] == children[0] && d[1] == children[1];
    ExampleSorted(children[0], children[1]);
  }

  /**
   * The walk over the example from the origin: the root's children in the order leaf 1
   * (bbox distance 0), leaf 2 (bbox distance 9), and each leaf one offer.
   */
  lemma ExampleWalk(rule: Rule, s: Search)
    requires |s.heap| <= 2
    ensures var c := ExampleConfig(rule);
            var children := [KnnOutput(ExampleLeaf1(), 0.0), KnnOutput(ExampleLeaf2(), 9.0)];
            ChildEntries(ExampleRoot(), c.coords, children) &&
            Visit(c, ExampleRoot(), s) == VisitFrom(c, ExampleRoot(), children, s)
  {
    var c := ExampleConfig(rule);
    ExampleChildren();
    VisitInner(c, ExampleRoot(), s);
  }

  /** Each leaf of the example offers its one geometry. */
  lemma ExampleLeaves(rule: Rule, s: Search)
    requires |s.heap| <= 2
    ensures var c := ExampleConfig(rule);
            Visit(c, ExampleLeaf1(), s) == (Step(c, s, KnnOutput(Geometry(1), 4.0)), Done) &&
            Visit(c, ExampleLeaf2(), s) == (Step(c, s, KnnOutput(Geometry(2), 9.0)), Done)
  {
    var c := ExampleConfig(rule);
    var leaf1, leaf2 := ExampleLeaf1(), ExampleLeaf2();
    var x1, x2 := KnnOutput(Geometry(1), 4.0), KnnOutput(Geometry(2), 9.0);
    assert RelsOf(leaf1.out, Reference) == [leaf1.out[0]] && RelsOf(leaf2.out, Reference) == [leaf2.out[0]];
    assert Offers(ExampleDistance, [leaf1.out[0]]) == [x1] && Offers(ExampleDistance, [leaf2.out[0]]) == [x2];
    assert [x1][..0] == [] && [x2][..0] == [];
    assert OfferAll(c, s, [x1]) == Step(c, s, x1);
    assert OfferAll(c, s, [x2]) == Step(c, s, x2);
  }

  /** The query over the single root of the example: the walk from a new visitor. */
  lemma ExampleQuery(rule: Rule)
    ensures QueryWalk(ExampleConfig(rule), [KnnOutput(ExampleRoot(), 0.0)]) ==
            (var walk := VisitFrom(ExampleConfig(rule), ExampleRoot(),
                                   [KnnOutput(ExampleLeaf1(), 0.0), KnnOutput(ExampleLeaf2(), 9.0)], Initial);
             if walk.1.Fail? then Err(walk.1.error) else Ok(walk.0))
  {
    var single := [KnnOutput(ExampleRoot(), 0.0)];
    assert SortBy(single, DistanceOf) == single;
    assert single[1..] == [];
    ExampleWalk(rule, Initial);
  }

  /**
   * A node whose sorted children are a first child, whose walk offers one geometry x1, and a
   * second child farther than x1, walked with k = 2 from a new visitor: as written, offering
   * x1 moves nnDistTemp to x1's distance while the queue still has room, and the second
   * child is cut off; corrected, nnDistTemp stays at Double.MAX_VALUE and the second child
   * is visited.
   */
  lemma CutOffWhileFilling(c: Config, n: Node, e1: KnnOutput, e2: KnnOutput, x1: KnnOutput)
    requires c.Valid() && c.k == 2 && ChildEntries(n, c.coords, [e1, e2])
    requires Visit(c, e1.node, Initial) == (Step(c, Initial, x1), Done)
    requires x1.distance < e2.distance
    ensures c.rule == AsWritten ==>
              VisitFrom(c, n, [e1, e2], Initial) == (Search([x1], Dist(x1.distance), [x1]), Done)
    ensures c.rule == Corrected ==>
              Step(c, Initial, x1) == Search([x1], MaxValue, [x1]) &&
              VisitFrom(c, n, [e1, e2], Initial) == VisitFrom(c, n, [e2], Search([x1], MaxValue, [x1]))
  {
    FirstChild(c, n, e1, e2, x1);
    FirstOffer(c, x1);
    if c.rule == AsWritten {
      assert [e2][0] == e2;
    }
  }

  /** The walk over [e1, e2] is the walk over [e2] after e1's visit. */
  lemma FirstChild(c: Config, n: Node, e1: KnnOutput, e2: KnnOutput, x1: KnnOutput)
    requires c.Valid() && c.k == 2 && ChildEntries(n, c.coords, [e1, e2])
    requires Visit(c, e1.node, Initial) == (Step(c, Initial, x1), Done)
    ensures ChildEntries(n, c.coords, [e2])
    ensures VisitFrom(c, n, [e1, e2], Initial) == VisitFrom(c, n, [e2], Step(c, Initial, x1))
  {
    assert [e1, e2][0] == e1 && [e1, e2][1..] == [e2];
  }

  /** The first offer into a new visitor's queue: nnDistTemp moves to its distance as written, and stays put corrected. */
  lemma FirstOffer(c: Config, x1: KnnOutput)
    requires c.Valid() && c.k == 2
    ensures c.rule == AsWritten ==> Step(c, Initial, x1) == Search([x1], Dist(x1.distance), [x1])
    ensures c.rule == Corrected ==> Step(c, Initial, x1) == Search([x1], MaxValue, [x1])
  {
    assert [] + [x1] == [x1];
    assert MaxAt([x1]) == 0;
  }

  /**
   * The second difference between the rules, over a whole walk, with k = 2 and the query
   * point at the origin: a root with two leaf children, of bboxes [0, 3] x [0, 3] and
   * [3, 4] x [0, 1], holding one geometry each, at squared distances 4 and 9. As written,
   * the first offer moves nnDistTemp to 4 while the queue still has room, so the second
   * child (bbox distance 9) is cut off and the query returns one entry, although the index
   * holds two geometries and k is 2.
   */
  lemma AsWrittenCutsOffEarly()
    ensures var x1 := KnnOutput(Geometry(1), 4.0);
            QueryWalk(ExampleConfig(AsWritten), [KnnOutput(ExampleRoot(), 0.0)]) ==
              Ok(Search([x1], Dist(4.0), [x1]))
  {
    var w := ExampleConfig(AsWritten);
    ExampleQuery(AsWritten);
    ExampleWalk(AsWritten, Initial);
    ExampleLeaves(AsWritten, Initial);
    CutOffWhileFilling(w, ExampleRoot(), KnnOutput(ExampleLeaf1(), 0.0), KnnOutput(ExampleLeaf2(), 9.0),
                       KnnOutput(Geometry(1), 4.0));
  }

  /** On the same index the corrected rule keeps nnDistTemp at Double.MAX_VALUE and returns both geometries. */
  lemma CorrectedVisitsBoth()
    ensures var corrected := QueryWalk(ExampleConfig(Corrected), [KnnOutput(ExampleRoot(), 0.0)]);
            corrected.Ok? &&
            corrected.value.heap == [KnnOutput(Geometry(1), 4.0), KnnOutput(Geometry(2), 9.0)]
  {
    var x1, x2 := KnnOutput(Geometry(1), 4.0), KnnOutput(Geometry(2), 9.0);
    var e2 := KnnOutput(ExampleLeaf2(), 9.0);
    var k := ExampleConfig(Corrected);
    var t1 := Search([x1], MaxValue, [x1]);
    ExampleQuery(Corrected);
    ExampleWalk(Corrected, Initial);
    ExampleLeaves(Corrected, Initial);
    CutOffWhileFilling(k, ExampleRoot(), KnnOutput(ExampleLeaf1(), 0.0), e2, x1);
    ExampleLeaves(Corrected, t1);
    SecondLeaf(k, ExampleRoot(), e2, t1, x2);
  }

  /** Visiting the last child from a state with room and nnDistTemp at Double.MAX_VALUE adds its one offer. */
  lemma SecondLeaf(c: Config, n: Node, e2: KnnOutput, t1: Search, x2: KnnOutput)
    requires c.Valid() && c.rule == Corrected && c.k == 2 && ChildEntries(n, c.coords, [e2])
    requires |t1.heap| == 1 && t1.nn == MaxValue
    requires Visit(c, e2.node, t1) == (Step(c, t1, x2), Done)
    ensures VisitFrom(c, n, [e2], t1).1 == Done
    ensures VisitFrom(c, n, [e2], t1).0.heap == [t1.heap[0], x2]
  {
    assert [e2][0] == e2 && [e2][1..] == [];
  }

  /**
   * A query whose arguments decode and whose layers all have a root with a bbox fails only
   * on a CHILD without a bbox: with every bbox in place it succeeds.
   */
  lemma QueryRunSucceeds(rule: Rule, layers: seq<Node>, args: seq<Value>, centroid: Node -> (real, real),
                         distanceTo: Node -> real)
    requires Setup(args, centroid).Ok? && RootDistances(layers, Setup(args, centroid).value.0).Ok?
    requires LayersBboxes(layers)
    ensures QueryRun(rule, layers, args, centroid, distanceTo).Ok?
  {
    var setup := Setup(args, centroid).value;
    var c := Config(rule, setup.1, setup.0, distanceTo);
    var roots := RootDistances(layers, c.coords).value;
    RootsBboxes(layers, c.coords);
    SortBySorted(roots, DistanceOf);
    VisitAllDone(c, SortBy(roots, DistanceOf), Initial);
    assert QueryRun(rule, layers, args, centroid, distanceTo) == QueryWalk(c, roots);
  }

  /** An entry for a geometry below the root of one of the layers, at its distance. */
  predicate FromLayers(layers: seq<Node>, distanceTo: Node -> real, o: KnnOutput)
  {
    o.distance == distanceTo(o.node) &&
    exists i :: 0 <= i < |layers| && IndexRoot(layers[i]).Ok? && o.node in GeometriesFromIndex(IndexRoot(layers[i]).value)
  }

  /** Every entry of os is from the layers. */
  predicate AllFromLayers(layers: seq<Node>, distanceTo: Node -> real, os: seq<KnnOutput>)
  {
    forall t :: 0 <= t < |os| ==> FromLayers(layers, distanceTo, os[t])
  }

  /** Entries found below the root of layer j, appended to entries from the layers, are from the layers. */
  lemma StillFromLayers(distanceTo: Node -> real, layers: seq<Node>, j: nat, before: seq<KnnOutput>, after: seq<KnnOutput>)
    requires j < |layers| && IndexRoot(layers[j]).Ok?
    requires |before| <= |after| && after[..|before|] == before
    requires AllFromLayers(layers, distanceTo, before)
    requires forall t :: |before| <= t < |after| ==> FoundBelow(distanceTo, IndexRoot(layers[j]).value, after[t])
    ensures AllFromLayers(layers, distanceTo, after)
  {
    forall t | 0 <= t < |after|
      ensures FromLayers(layers, distanceTo, after[t])
    {
      if t < |before| {
        assert after[t] == before[t];
      } else {
        assert FoundBelow(distanceTo, IndexRoot(layers[j]).value, after[t]);
      }
    }
  }

  /** Visiting roots of the layers, after offers from the layers, offers only geometries from the layers. */
  lemma {:induction false} VisitAllFromLayers(c: Config, layers: seq<Node>, roots: seq<KnnOutput>, s: Search)
    requires c.Valid() && |s.heap| <= c.k
    requires forall e :: e in roots ==> IsLayerRoot(layers, e.node)
    requires AllFromLayers(layers, c.distanceTo, s.offered)
    ensures var u := VisitAll(c, roots, s).0;
            AllFromLayers(layers, c.distanceTo, u.offered)
    decreases |roots|
  {
    if roots != [] {
      assert roots[0] in roots;
      var j :| 0 <= j < |layers| && IndexRoot(layers[j]).Ok? && roots[0].node == IndexRoot(layers[j]).value;
      var first := Visit(c, roots[0].node, s);
      VisitFound(c, roots[0].node, s);
      StillFromLayers(c.distanceTo, layers, j, s.offered, first.0.offered);
      if first.1.Done? {
        assert forall e :: e in roots[1..] ==> e in roots;
        VisitAllFromLayers(c, layers, roots[1..], first.0);
        assert VisitAll(c, roots, s) == VisitAll(c, roots[1..], first.0);
      } else {
        assert VisitAll(c, roots, s) == first;
      }
    }
  }

  /** A node that is the root of one of the layers. */
  predicate IsLayerRoot(layers: seq<Node>, n: Node)
  {
    exists j :: 0 <= j < |layers| && IndexRoot(layers[j]).Ok? && n == IndexRoot(layers[j]).value
  }

  /** Each initial node is the root of one of the layers. */
  lemma RootsOfLayers(layers: seq<Node>, coords: seq<real>, roots: seq<KnnOutput>)
    requires |coords| == 2 && RootDistances(layers, coords) == Ok(roots)
    ensures forall i :: 0 <= i < |roots| ==> IsLayerRoot(layers, roots[i].node)
  {
    forall i | 0 <= i < |roots|
      ensures IsLayerRoot(layers, roots[i].node)
    {
      assert RootEntry(layers[i], coords, roots[i]);
    }
  }

  /** Every entry a walk over roots of the layers offers is from the layers. */
  lemma WalkFromLayers(c: Config, layers: seq<Node>, roots: seq<KnnOutput>)
    requires c.Valid() && forall i :: 0 <= i < |roots| ==> IsLayerRoot(layers, roots[i].node)
    ensures QueryWalk(c, roots).Ok? ==> AllFromLayers(layers, c.distanceTo, QueryWalk(c, roots).value.offered)
  {
    var sorted := SortBy(roots, DistanceOf);
    SortBySorted(roots, DistanceOf);
    forall e | e in sorted
      ensures IsLayerRoot(layers, e.node)
    {
      var i :| 0 <= i < |roots| && roots[i] == e;
    }
    VisitAllFromLayers(c, layers, sorted, Initial);
  }

  /** Every entry a query offers is a geometry below the root of one of the layers, at its distance. */
  lemma QueryFromLayers(rule: Rule, layers: seq<Node>, args: seq<Value>, centroid: Node -> (real, real),
                        distanceTo: Node -> real)
    requires QueryRun(rule, layers, args, centroid, distanceTo).Ok?
    ensures var s := QueryRun(rule, layers, args, centroid, distanceTo).value;
            AllFromLayers(layers, distanceTo, s.offered)
  {
    var setup := Setup(args, centroid).value;
    var c := Config(rule, setup.1, setup.0, distanceTo);
    var roots := RootDistances(layers, c.coords).value;
    assert QueryRun(rule, layers, args, centroid, distanceTo) == QueryWalk(c, roots);
    RootsOfLayers(layers, c.coords, roots);
    WalkFromLayers(c, layers, roots);
  }

  // ------------------------------------------------------------ the walk, imperatively

  /** visitKnn on a visitor: the state the walk function gives. */
  method VisitKnn(v: KnnVisitor, indexNode: Node) returns (o: Outcome)
    requires v.Valid()
    modifies v
    ensures v.Valid()
    ensures (v.State(), o) == Visit(v.Settings(), indexNode, old(v.State()))
    decreases indexNode, 1
  {
    if !NodeIsLeaf(indexNode) {
      var children := ChildDistances(indexNode, v.coords);
      if children.Err? {
        return Fail(children.error);
      }
      DistancesAreChildEntries(indexNode, v.coords);
      o := VisitChildren(v, indexNode, children.value);
    } else {
      OfferReferences(v, indexNode);
      o := Done;
    }
  }

  /** The children loop of visitKnn: children sorted by distance, cut off beyond nnDistTemp. */
  method VisitChildren(v: KnnVisitor, indexNode: Node, children: seq<KnnOutput>) returns (o: Outcome)
    requires v.Valid() && ChildEntries(indexNode, v.coords, children)
    modifies v
    ensures v.Valid()
    ensures (v.State(), o) == VisitChildrenOf(v.Settings(), indexNode, children, old(v.State()))
    decreases indexNode, 0
  {
    ghost var start := v.State();
    ghost var c := v.Settings();
    var sorted := SortBy(children, DistanceOf);
    SortBySorted(children, DistanceOf);
    assert sorted[0..] == sorted;
    var m := 0;
    while m < |sorted|
      invariant 0 <= m <= |sorted|
      invariant v.Valid() && v.Settings() == c
      invariant ChildEntries(indexNode, c.coords, sorted[m..])
      invariant VisitFrom(c, indexNode, sorted, start) == VisitFrom(c, indexNode, sorted[m..], v.State())
    {
      VisitFromAt(c, indexNode, sorted, m, v.State());
      var d := sorted[m];
      if Farther(d.distance, v.nn) {
        return Done;
      }
      o := VisitKnn(v, d.node);
      if o.Fail? {
        return o;
      }
      m := m + 1;
    }
    assert sorted[m..] == [];
    o := Done;
  }

  /** The references loop of visitKnn: every REFERENCE end node is offered, in order. */
  method OfferReferences(v: KnnVisitor, indexNode: Node)
    requires v.Valid()
    modifies v
    ensures v.Valid()
    ensures v.State() == OfferAll(v.Settings(), old(v.State()), Offers(v.distanceTo, RelsOf(indexNode.out, Reference)))
  {
    ghost var start := v.State();
    var rels := RelsOf(indexNode.out, Reference);
    var j := 0;
    while j < |rels|
      invariant 0 <= j <= |rels|
      invariant v.Valid()
      invariant v.State() == OfferAll(v.Settings(), start, Offers(v.distanceTo, rels[..j]))
    {
      OffersSnoc(v.distanceTo, rels, j);
      OfferAllSnoc(v.Settings(), start, Offers(v.distanceTo, rels[..j]), KnnOutput(rels[j].end, v.distanceTo(rels[j].end)));
      v.OnIndexReference(rels[j].end);
      j := j + 1;
    }
    assert rels[..j] == rels;
  }

  /** The loop of query over the sorted initial nodes. */
  method VisitRoots(v: KnnVisitor, roots: seq<KnnOutput>) returns (o: Outcome)
    requires v.Valid()
    modifies v
    ensures v.Valid()
    ensures (v.State(), o) == VisitAll(v.Settings(), SortBy(roots, DistanceOf), old(v.State()))
  {
    ghost var start := v.State();
    var sorted := SortBy(roots, DistanceOf);
    var i := 0;
    while i < |sorted|
      invariant 0 <= i <= |sorted|
      invariant v.Valid()
      invariant VisitAll(v.Settings(), sorted, start) == VisitAll(v.Settings(), sorted[i..], v.State())
    {
      assert sorted[i..][0] == sorted[i] && sorted[i..][1..] == sorted[i + 1..];
      o := VisitKnn(v, sorted[i].node);
      if o.Fail? {
        return o;
      }
      i := i + 1;
    }
    o := Done;
  }

  /**
   * Knn.query under a rule: the state the query function gives, whose queue is the result.
   * Under either rule the result is at most k entries of those offered; under the
   * corrected rule it is the k nearest of them.
   */
  method Query(rule: Rule, layers: seq<Node>, args: seq<Value>, centroid: Node -> (real, real), distanceTo: Node -> real)
    returns (r: Result<seq<KnnOutput>>, ghost offered: seq<KnnOutput>)
    ensures QueryRun(rule, layers, args, centroid, distanceTo).Err? ==>
              r == Err(QueryRun(rule, layers, args, centroid, distanceTo).error)
    ensures QueryRun(rule, layers, args, centroid, distanceTo).Ok? ==>
              r == Ok(QueryRun(rule, layers, args, centroid, distanceTo).value.heap) &&
              offered == QueryRun(rule, layers, args, centroid, distanceTo).value.offered
    ensures r.Ok? ==> multiset(r.value) <= multiset(offered)
    ensures r.Ok? && rule == Corrected ==> NearestOf(r.value, offered, Setup(args, centroid).value.1)
    ensures r.Ok? ==> AllFromLayers(layers, distanceTo, offered)
  {
    offered := [];
    var setup := Setup(args, centroid);
    if setup.Err? {
      return Err(setup.error), offered;
    }
    var coords, k := setup.value.0, setup.value.1;
    var initialNodes := GetRootDistances(layers, coords);
    if initialNodes.Err? {
      return Err(initialNodes.error), offered;
    }
    var v := new KnnVisitor(rule, k, coords, distanceTo);
    var o := VisitRoots(v, initialNodes.value);
    offered := v.offered;
    if o.Fail? {
      return Err(o.error), offered;
    }
    if rule == Corrected {
      TopK(v.Settings(), v.State(), v.dropped);
    }
    QueryFromLayers(rule, layers, args, centroid, distanceTo);
    r := Ok(v.heap);
  }

  /** result holds the k nearest entries of offered (or all of them, when there are fewer). */
  ghost predicate NearestOf(result: seq<KnnOutput>, offered: seq<KnnOutput>, k: int)
  {
    |result| == (if |offered| < k then |offered| else k) &&
    multiset(result) <= multiset(offered) &&
    forall x, y :: x in result && y in multiset(offered) - multiset(result) ==> x.distance <= y.distance
  }

  /** What a visitor under the corrected rule holds: the k nearest of everything it was offered. */
  lemma TopK(c: Config, s: Search, dropped: seq<KnnOutput>)
    requires Inv(c, s, dropped) && c.rule == Corrected
    ensures NearestOf(s.heap, s.offered, c.k)
  {
    assert |multiset(s.heap)| + |multiset(dropped)| == |multiset(s.offered)|;
    forall x, y | x in s.heap && y in multiset(s.offered) - multiset(s.heap)
      ensures x.distance <= y.distance
    {
      assert multiset(s.offered) - multiset(s.heap) == multiset(dropped);
      assert y in dropped;
      var a :| 0 <= a < |s.heap| && s.heap[a] == x;
      var b :| 0 <= b < |dropped| && dropped[b] == y;
    }
  }
}
