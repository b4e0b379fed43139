/**
 * RangeOld: the window query as a depth-first Neo4j traversal. From each index root it
 * expands outgoing CHILD and REFERENCE relationships; an evaluator decides, per path, to
 * continue below an index node whose bbox meets the search envelope, and to include a
 * geometry node whose decoded geometry envelope the search envelope covers. The evaluator
 * also records the decisions in an RTreeMonitor.
 *
 * The traversal is proved equal to a recursive walk, and on an index whose bboxes bound
 * what lies below them the walk is proved to return exactly the geometries whose envelope
 * the search envelope covers.
 */
module RangeOld {
  import opened Wrappers
  import opened Boxes
  import opened Graph
  import opened QueryUtils
  import opened SearchFilters
  import opened Arguments
  import opened Monitor

  /** The Neo4j traversal Evaluation values the evaluator returns. */
  datatype Evaluation = ExcludeAndContinue | ExcludeAndPrune | IncludeAndPrune

  predicate Includes(e: Evaluation) { e == IncludeAndPrune }

  predicate Continues(e: Evaluation) { e == ExcludeAndContinue }

  /** Both filters of query(): SearchCoveredByEnvelope on the search envelope. */
  function CoveredByFilter(q: Box): SearchFilter { Intersection(CoveredBy, q) }

  /** The relationship types the traversal description expands. */
  predicate Expanded(r: Rel) { r.kind == Child || r.kind == Reference }

  /**
   * SearchEvaluator.evaluate without its monitor and progress effects. last is the path's
   * last relationship (None for a start node); geomEnv decodes a geometry node's JTS
   * envelope. Ok(None) is the evaluator's null for any other relationship type.
   */
  function Decide(q: Box, last: Option<Rel>, node: Node, geomEnv: Node -> Result<Box>): (r: Result<Option<Evaluation>>)
    ensures last.None? ==> r == Ok(Some(ExcludeAndContinue))
    ensures last.Some? && last.value.kind == Child ==>
              (r.Err? <==> node.bbox.None?) &&
              (r.Ok? ==> r.value == Some(if Intersects(node.bbox.value, q) then ExcludeAndContinue else ExcludeAndPrune))
    ensures last.Some? && last.value.kind == Reference ==>
              (r.Err? <==> geomEnv(node).Err?) &&
              (r.Ok? && Valid(geomEnv(node).value) ==>
                 r.value == Some(if Covers(q, geomEnv(node).value) then IncludeAndPrune else ExcludeAndPrune))
    ensures last.Some? && !Expanded(last.value) ==> r == Ok(None)
  {
    match last
    case None => Ok(Some(ExcludeAndContinue))
    case Some(rel) =>
      if rel.kind == Child then
        match NeedsToVisit(CoveredByFilter(q), IndexNodeEnvelope(node))
        case Err(e) => Err(e)
        case Ok(shouldContinue) => Ok(Some(if shouldContinue then ExcludeAndContinue else ExcludeAndPrune))
      else if rel.kind == Reference then
        var found := GeometryMatches(CoveredByFilter(q), geomEnv(node));
        if found.Ok? && geomEnv(node).Ok? && Valid(geomEnv(node).value) then
          CoveredByMatchesIffCovered(q, geomEnv(node).value);
          Ok(Some(if found.value then IncludeAndPrune else ExcludeAndPrune))
        else
          match found
          case Err(e) => Err(e)
          case Ok(f) => Ok(Some(if f then IncludeAndPrune else ExcludeAndPrune))
      else Ok(None)
  }

  /** The case label evaluate passes to addCase. */
  function CaseLabel(kind: RelType, matched: bool): string
  {
    if kind == Child then (if matched then "Index Matches" else "Index Does NOT Match")
    else if matched then "Geometry Matches" else "Geometry Does NOT Match"
  }

  /**
   * What the depth-first traversal returns through n's first k relationships; a failing
   * evaluation ends the whole traversal.
   */
  function WalkUpTo(q: Box, n: Node, k: nat, geomEnv: Node -> Result<Box>): Result<seq<Node>>
    requires k <= |n.out|
    decreases n, k
  {
    if k == 0 then Ok([])
    else
      var prev := WalkUpTo(q, n, k - 1, geomEnv);
      var r := n.out[k - 1];
      if prev.Err? || !Expanded(r) then prev
      else
        var b := Branch(q, r, geomEnv);
        if b.Err? then b else Ok(prev.value + b.value)
  }

  /**
   * The branch through one expanded relationship: its end node if the evaluation includes
   * it, then the traversal below it if the evaluation continues; a null evaluation fails
   * with a NullPointerException.
   */
  function Branch(q: Box, r: Rel, geomEnv: Node -> Result<Box>): Result<seq<Node>>
    decreases r.end, |r.end.out| + 1
  {
    match Decide(q, Some(r), r.end, geomEnv)
    case Err(e) => Err(e)
    case Ok(None) => Err(NullPointer)
    case Ok(Some(ev)) =>
      var here := if Includes(ev) then [r.end] else [];
      if !Continues(ev) then Ok(here)
      else
        var below := WalkUpTo(q, r.end, |r.end.out|, geomEnv);
        if below.Err? then below else Ok(here + below.value)
  }

  function Walk(q: Box, n: Node, geomEnv: Node -> Result<Box>): Result<seq<Node>>
  {
    WalkUpTo(q, n, |n.out|, geomEnv)
  }

  /** The traversal from every start node in turn; a start node is excluded and expanded. */
  function WalkAll(q: Box, roots: seq<Node>, geomEnv: Node -> Result<Box>): Result<seq<Node>>
  {
    if roots == [] then Ok([])
    else
      var prev := WalkAll(q, roots[..|roots| - 1], geomEnv);
      var w := Walk(q, roots[|roots| - 1], geomEnv);
      if prev.Err? then prev else if w.Err? then w else Ok(prev.value + w.value)
  }

  /** Once the traversal has failed, it stays failed with the same error. */
  lemma {:induction false} WalkErrorSticks(q: Box, n: Node, k: nat, m: nat, geomEnv: Node -> Result<Box>)
    requires k <= m <= |n.out| && WalkUpTo(q, n, k, geomEnv).Err?
    ensures WalkUpTo(q, n, m, geomEnv) == WalkUpTo(q, n, k, geomEnv)
    decreases m
  {
    if m > k {
      WalkErrorSticks(q, n, k, m - 1, geomEnv);
    }
  }

  /** A visited child without a bbox makes the traversal fail with a NullPointerException. */
  lemma MissingBboxFails(q: Box, n: Node, geomEnv: Node -> Result<Box>)
    requires |n.out| > 0 && n.out[0].kind == Child && n.out[0].end.bbox.None?
    ensures Walk(q, n, geomEnv) == Err(NullPointer)
  {
    assert WalkUpTo(q, n, 1, geomEnv) == Err(NullPointer);
    WalkErrorSticks(q, n, 1, |n.out|, geomEnv);
  }

  // ------------------------------------------------------------- lossless pruning

  /** Every geometry below n through CHILD relationships whose envelope q covers. */
  function MatchingUpTo(q: Box, n: Node, k: nat, geomEnv: Node -> Result<Box>): seq<Node>
    requires k <= |n.out|
    decreases n, k
  {
    if k == 0 then []
    else
      var r := n.out[k - 1];
      MatchingUpTo(q, n, k - 1, geomEnv) +
        (if r.kind == Reference && geomEnv(r.end).Ok? && Covers(q, geomEnv(r.end).value) then [r.end]
         else if r.kind == Child then MatchingUpTo(q, r.end, |r.end.out|, geomEnv)
         else [])
  }

  function Matching(q: Box, n: Node, geomEnv: Node -> Result<Box>): seq<Node>
  {
    MatchingUpTo(q, n, |n.out|, geomEnv)
  }

  /** A referenced geometry that decodes to a valid envelope. */
  predicate Decodes(r: Rel, geomEnv: Node -> Result<Box>)
  {
    geomEnv(r.end).Ok? && Valid(geomEnv(r.end).value)
  }

  /** Below an envelope e: every geometry decodes inside e, every child has a bbox inside e that bounds it in turn. */
  predicate Indexed(n: Node, e: Box, geomEnv: Node -> Result<Box>)
    decreases n
  {
    forall i :: 0 <= i < |n.out| ==>
      (n.out[i].kind == Reference ==> Decodes(n.out[i], geomEnv) && Covers(e, geomEnv(n.out[i].end).value)) &&
      (n.out[i].kind == Child ==>
         n.out[i].end.bbox.Some? && Covers(e, n.out[i].end.bbox.value) &&
         Indexed(n.out[i].end, n.out[i].end.bbox.value, geomEnv))
  }

  /** The same for a start node, whose own bbox the traversal never reads. */
  predicate RootIndexed(n: Node, geomEnv: Node -> Result<Box>)
  {
    forall i :: 0 <= i < |n.out| ==>
      (n.out[i].kind == Reference ==> Decodes(n.out[i], geomEnv)) &&
      (n.out[i].kind == Child ==> n.out[i].end.bbox.Some? && Indexed(n.out[i].end, n.out[i].end.bbox.value, geomEnv))
  }

  lemma IndexedIsRootIndexed(n: Node, e: Box, geomEnv: Node -> Result<Box>)
    requires Indexed(n, e, geomEnv)
    ensures RootIndexed(n, geomEnv)
  {
  }

  /** Nothing below an envelope that misses q can be covered by q. */
  lemma {:induction false} NothingOutside(q: Box, n: Node, e: Box, k: nat, geomEnv: Node -> Result<Box>)
    requires k <= |n.out| && Indexed(n, e, geomEnv) && !Intersects(e, q)
    ensures MatchingUpTo(q, n, k, geomEnv) == []
    decreases n, k
  {
    if k > 0 {
      NothingOutside(q, n, e, k - 1, geomEnv);
      var r := n.out[k - 1];
      if r.kind == Reference {
        var g := geomEnv(r.end).value;
        if Covers(q, g) {
          CoversImpliesIntersects(q, g);
          IntersectsCovering(e, g, q);
        }
      } else if r.kind == Child {
        var b := r.end.bbox.value;
        if Intersects(b, q) {
          IntersectsCovering(e, b, q);
        }
        NothingOutside(q, r.end, b, |r.end.out|, geomEnv);
      }
    }
  }

  lemma {:induction false} WalkLosslessUpTo(q: Box, n: Node, k: nat, geomEnv: Node -> Result<Box>)
    requires k <= |n.out| && RootIndexed(n, geomEnv)
    ensures WalkUpTo(q, n, k, geomEnv) == Ok(MatchingUpTo(q, n, k, geomEnv))
    decreases n, k
  {
    if k > 0 {
      WalkLosslessUpTo(q, n, k - 1, geomEnv);
      var r := n.out[k - 1];
      if r.kind == Child {
        var b := r.end.bbox.value;
        if Intersects(b, q) {
          IndexedIsRootIndexed(r.end, b, geomEnv);
          WalkLosslessUpTo(q, r.end, |r.end.out|, geomEnv);
        } else {
          NothingOutside(q, r.end, b, |r.end.out|, geomEnv);
        }
        LosslessChild(q, n, k, geomEnv);
      } else {
        LosslessOther(q, n, k, geomEnv);
      }
    }
  }

  /** The step of WalkLosslessUpTo for a CHILD relationship. */
  lemma LosslessChild(q: Box, n: Node, k: nat, geomEnv: Node -> Result<Box>)
    requires 0 < k <= |n.out| && n.out[k - 1].kind == Child && n.out[k - 1].end.bbox.Some?
    requires WalkUpTo(q, n, k - 1, geomEnv) == Ok(MatchingUpTo(q, n, k - 1, geomEnv))
    requires var r := n.out[k - 1];
             if Intersects(r.end.bbox.value, q) then Walk(q, r.end, geomEnv) == Ok(Matching(q, r.end, geomEnv))
             else Matching(q, r.end, geomEnv) == []
    ensures WalkUpTo(q, n, k, geomEnv) == Ok(MatchingUpTo(q, n, k, geomEnv))
  {
    var prev := MatchingUpTo(q, n, k - 1, geomEnv);
    var r := n.out[k - 1];
    if Intersects(r.end.bbox.value, q) {
      assert [] + Matching(q, r.end, geomEnv) == Matching(q, r.end, geomEnv);
      assert Branch(q, r, geomEnv) == Ok(Matching(q, r.end, geomEnv));
    } else {
      assert Branch(q, r, geomEnv) == Ok([]);
      assert prev + [] == prev + Matching(q, r.end, geomEnv);
    }
  }

  /** The step of WalkLosslessUpTo for any other relationship. */
  lemma LosslessOther(q: Box, n: Node, k: nat, geomEnv: Node -> Result<Box>)
    requires 0 < k <= |n.out| && n.out[k - 1].kind != Child
    requires n.out[k - 1].kind == Reference ==> Decodes(n.out[k - 1], geomEnv)
    requires WalkUpTo(q, n, k - 1, geomEnv) == Ok(MatchingUpTo(q, n, k - 1, geomEnv))
    ensures WalkUpTo(q, n, k, geomEnv) == Ok(MatchingUpTo(q, n, k, geomEnv))
  {
    var prev := MatchingUpTo(q, n, k - 1, geomEnv);
    var r := n.out[k - 1];
    if r.kind == Reference {
      if Covers(q, geomEnv(r.end).value) {
        assert Branch(q, r, geomEnv) == Ok([r.end]);
      } else {
        assert Branch(q, r, geomEnv) == Ok([]);
        assert prev + [] == prev;
      }
    } else {
      assert WalkUpTo(q, n, k, geomEnv) == WalkUpTo(q, n, k - 1, geomEnv);
      assert MatchingUpTo(q, n, k, geomEnv) == prev + [] == prev;
    }
  }

  /**
   * Pruning loses nothing on a well-formed index: the traversal from a start node
   * returns, in depth-first order, every geometry below it whose envelope q covers.
   */
  lemma WalkLossless(q: Box, n: Node, geomEnv: Node -> Result<Box>)
    requires RootIndexed(n, geomEnv)
    ensures Walk(q, n, geomEnv) == Ok(Matching(q, n, geomEnv))
  {
    WalkLosslessUpTo(q, n, |n.out|, geomEnv);
  }

  // ------------------------------------------------------------- the traversal

  /**
   * SearchEvaluator.evaluate(path) for a path of length pathLength ending in node.
   * A CHILD match records node at that level; every decision on a CHILD or REFERENCE
   * relationship is counted under its case label; a geometry match sets the height.
   */
  method Evaluate(monitor: RTreeMonitor, q: Box, last: Option<Rel>, node: Node, pathLength: nat,
                  geomEnv: Node -> Result<Box>) returns (r: Result<Option<Evaluation>>)
    modifies monitor
    ensures r == Decide(q, last, node, geomEnv)
    ensures r.Err? || last.None? || !Expanded(last.value) ==>
              monitor.cases == old(monitor.cases) && monitor.matchedTreeNodes == old(monitor.matchedTreeNodes) &&
              monitor.height == old(monitor.height)
    ensures r.Ok? && last.Some? && last.value.kind == Child ==>
              var matched := r.value == Some(ExcludeAndContinue);
              monitor.cases == CountCase(old(monitor.cases), CaseLabel(Child, matched)) &&
              monitor.height == old(monitor.height) &&
              monitor.matchedTreeNodes ==
                (if matched
                 then var padded := PaddedTo(old(monitor.matchedTreeNodes), pathLength);
                      padded[pathLength := padded[pathLength] + [node]]
                 else old(monitor.matchedTreeNodes))
    ensures r.Ok? && last.Some? && last.value.kind == Reference ==>
              var found := r.value == Some(IncludeAndPrune);
              monitor.cases == CountCase(old(monitor.cases), CaseLabel(Reference, found)) &&
              monitor.height == (if found then pathLength else old(monitor.height)) &&
              monitor.matchedTreeNodes == old(monitor.matchedTreeNodes)
    ensures monitor.nbrSplit == old(monitor.nbrSplit) && monitor.nbrRebuilt == old(monitor.nbrRebuilt)
  {
    if last.None? {
      return Ok(Some(ExcludeAndContinue));
    }
    var rel := last.value;
    if rel.kind == Child {
      var visit := NeedsToVisit(CoveredByFilter(q), IndexNodeEnvelope(node));
      if visit.Err? {
        return Err(visit.error);
      }
      var shouldContinue := visit.value;
      if shouldContinue {
        var _ := monitor.MatchedTreeNode(pathLength, node);
      }
      monitor.AddCase(if shouldContinue then "Index Matches" else "Index Does NOT Match");
      return Ok(Some(if shouldContinue then ExcludeAndContinue else ExcludeAndPrune));
    } else if rel.kind == Reference {
      var matched := GeometryMatches(CoveredByFilter(q), geomEnv(node));
      if matched.Err? {
        return Err(matched.error);
      }
      var found := matched.value;
      monitor.AddCase(if found then "Geometry Matches" else "Geometry Does NOT Match");
      if found {
        monitor.SetHeight(pathLength);
      }
      return Ok(Some(if found then IncludeAndPrune else ExcludeAndPrune));
    }
    return Ok(None);
  }

  /** The depth-first traversal below n, which sits at depth on the current path. */
  method Traverse(monitor: RTreeMonitor, q: Box, n: Node, depth: nat, geomEnv: Node -> Result<Box>)
    returns (r: Result<seq<Node>>)
    modifies monitor
    ensures r == Walk(q, n, geomEnv)
    decreases n, |n.out|
  {
    var acc: seq<Node> := [];
    var j := 0;
    while j < |n.out|
      invariant 0 <= j <= |n.out|
      invariant WalkUpTo(q, n, j, geomEnv) == Ok(acc)
    {
      var rel := n.out[j];
      if rel.kind == Child || rel.kind == Reference {
        var b := TraverseBranch(monitor, q, rel, depth + 1, geomEnv);
        if b.Err? {
          WalkErrorSticks(q, n, j + 1, |n.out|, geomEnv);
          return b;
        }
        acc := acc + b.value;
      }
      j := j + 1;
    }
    r := Ok(acc);
  }

  /** The evaluation of the path ending in rel.end, at the given depth, and what lies beyond it. */
  method TraverseBranch(monitor: RTreeMonitor, q: Box, rel: Rel, depth: nat, geomEnv: Node -> Result<Box>)
    returns (r: Result<seq<Node>>)
    modifies monitor
    ensures r == Branch(q, rel, geomEnv)
    decreases rel.end, |rel.end.out| + 1
  {
    var ev := Evaluate(monitor, q, Some(rel), rel.end, depth, geomEnv);
    if ev.Err? {
      return Err(ev.error);
    }
    if ev.value.None? {
      return Err(NullPointer);
    }
    var e := ev.value.value;
    var here := if Includes(e) then [rel.end] else [];
    if !Continues(e) {
      return Ok(here);
    }
    var below := Traverse(monitor, q, rel.end, depth, geomEnv);
    if below.Err? {
      return below;
    }
    r := Ok(here + below.value);
  }

  /** searchIndex: the traversal from every root, each root evaluated as a start node. */
  method SearchIndex(monitor: RTreeMonitor, q: Box, roots: seq<Node>, geomEnv: Node -> Result<Box>)
    returns (r: Result<seq<Node>>)
    modifies monitor
    ensures r == WalkAll(q, roots, geomEnv)
  {
    var acc: seq<Node> := [];
    var i := 0;
    while i < |roots|
      invariant 0 <= i <= |roots|
      invariant WalkAll(q, roots[..i], geomEnv) == Ok(acc)
    {
      assert roots[..i + 1][..i] == roots[..i];
      var _ := Evaluate(monitor, q, None, roots[i], 0, geomEnv);
      var w := Traverse(monitor, q, roots[i], 0, geomEnv);
      if w.Err? {
        WalkAllErrorSticks(q, roots, i + 1, geomEnv);
        return w;
      }
      acc := acc + w.value;
      i := i + 1;
    }
    assert roots[..i] == roots;
    r := Ok(acc);
  }

  lemma {:induction false} WalkAllErrorSticks(q: Box, roots: seq<Node>, k: nat, geomEnv: Node -> Result<Box>)
    requires k <= |roots| && WalkAll(q, roots[..k], geomEnv).Err?
    ensures WalkAll(q, roots, geomEnv) == WalkAll(q, roots[..k], geomEnv)
    decreases |roots| - k
  {
    if k < |roots| {
      assert roots[..k + 1][..k] == roots[..k];
      WalkAllErrorSticks(q, roots, k + 1, geomEnv);
    } else {
      assert roots[..k] == roots;
    }
  }

  /** The constructor (roots first, then the search envelope) followed by query(). */
  function QueryResult(layers: seq<Node>, args: seq<Value>, bufferNode: (Node, real) -> Result<Rect>,
                       bufferPoint: (real, real, real) -> Result<Rect>, geomEnv: Node -> Result<Box>): Result<seq<Node>>
  {
    match IndexRoots(layers)
    case Err(e) => Err(e)
    case Ok(roots) =>
      match DecodeReferenceEnvelope(args, bufferNode, bufferPoint)
      case Err(e) => Err(e)
      case Ok(q) => WalkAll(q, roots, geomEnv)
  }

  /**
   * new RangeOld(tx, layers, args, ...).query(): a fresh monitor, then the traversal.
   * A failure of the constructor and a failure during the traversal are both Err.
   */
  method Query(layers: seq<Node>, args: seq<Value>, bufferNode: (Node, real) -> Result<Rect>,
               bufferPoint: (real, real, real) -> Result<Rect>, geomEnv: Node -> Result<Box>)
    returns (r: Result<seq<Node>>)
    ensures r == QueryResult(layers, args, bufferNode, bufferPoint, geomEnv)
  {
    var roots := IndexRoots(layers);
    if roots.Err? {
      return Err(roots.error);
    }
    var decoded := DecodeReferenceEnvelope(args, bufferNode, bufferPoint);
    if decoded.Err? {
      return Err(decoded.error);
    }
    var monitor := new RTreeMonitor();
    r := SearchIndex(monitor, decoded.value, roots.value, geomEnv);
  }

  /** On well-formed indexes the query returns exactly the covered geometries, root after root. */
  lemma {:induction false} WalkAllLossless(q: Box, roots: seq<Node>, geomEnv: Node -> Result<Box>)
    requires forall i :: 0 <= i < |roots| ==> RootIndexed(roots[i], geomEnv)
    ensures WalkAll(q, roots, geomEnv).Ok?
    ensures forall x :: x in WalkAll(q, roots, geomEnv).value <==>
                        exists i :: 0 <= i < |roots| && x in Matching(q, roots[i], geomEnv)
  {
    if roots != [] {
      var front := roots[..|roots| - 1];
      var last := roots[|roots| - 1];
      WalkAllLossless(q, front, geomEnv);
      WalkLossless(q, last, geomEnv);
      forall x ensures x in WalkAll(q, roots, geomEnv).value <==>
                       exists i :: 0 <= i < |roots| && x in Matching(q, roots[i], geomEnv)
      {
        if x in WalkAll(q, front, geomEnv).value {
          var i :| 0 <= i < |front| && x in Matching(q, front[i], geomEnv);
          assert roots[i] == front[i];
        }
        if exists i :: 0 <= i < |roots| && x in Matching(q, roots[i], geomEnv) {
          var i :| 0 <= i < |roots| && x in Matching(q, roots[i], geomEnv);
          if i < |front| {
            assert roots[i] == front[i];
          }
        }
      }
    }
  }
}
