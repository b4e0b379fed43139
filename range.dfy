/**
 * Range: the level-by-level window query. searchTree follows every ROOT or CHILD
 * relationship whose stored envelope meets the search envelope and collects the end of
 * every such REFERENCE relationship; the candidates are then filtered by an optional
 * Cypher query and by the exact JTS within test.
 *
 * The breadth-first search is proved to find, as a multiset, what a depth-first walk
 * with the same pruning finds, and, on an index whose stored envelopes bound everything
 * below them, exactly the references whose envelope meets the search envelope.
 */
module Range {
  import opened Wrappers
  import opened Boxes
  import opened Graph
  import opened QueryUtils
  import opened Seqs
  import opened Arguments

  /** A directory relationship searchTree expands. */
  predicate Followed(q: Box, r: Rel) { IsDirectoryRelationship(r) && Intersects(q, r.env) }

  /** A reference relationship whose end searchTree adds to the candidates. */
  predicate Collected(q: Box, r: Rel) { r.kind == Reference && Intersects(q, r.env) }

  /** The outgoing relationships of a level, node after node. */
  function LevelRels(level: seq<Node>): seq<Rel>
  {
    if level == [] then [] else LevelRels(level[..|level| - 1]) + level[|level| - 1].out
  }

  /** The ends of the followed relationships, in order: the next level. */
  function NextLevel(q: Box, rels: seq<Rel>): seq<Node>
  {
    if rels == [] then []
    else
      var last := rels[|rels| - 1];
      NextLevel(q, rels[..|rels| - 1]) + (if Followed(q, last) then [last.end] else [])
  }

  /** The ends of the collected relationships, in order. */
  function Found(q: Box, rels: seq<Rel>): seq<Node>
  {
    if rels == [] then []
    else
      var last := rels[|rels| - 1];
      Found(q, rels[..|rels| - 1]) + (if Collected(q, last) then [last.end] else [])
  }

  /** Every relationship of a level leaves one of its nodes. */
  lemma {:induction false} LevelRelsOrigin(level: seq<Node>, x: Rel)
    requires x in LevelRels(level)
    ensures exists i :: 0 <= i < |level| && x in level[i].out
  {
    var front := level[..|level| - 1];
    if x in LevelRels(front) {
      LevelRelsOrigin(front, x);
      var i :| 0 <= i < |front| && x in front[i].out;
      assert level[i] == front[i];
    } else {
      assert x in level[|level| - 1].out;
    }
  }

  /** Every node of the next level is the end of a followed relationship. */
  lemma {:induction false} NextLevelOrigin(q: Box, rels: seq<Rel>, x: Node)
    requires x in NextLevel(q, rels)
    ensures exists rel :: rel in rels && Followed(q, rel) && rel.end == x
  {
    var front := rels[..|rels| - 1];
    var last := rels[|rels| - 1];
    if x in NextLevel(q, front) {
      NextLevelOrigin(q, front, x);
      var rel :| rel in front && Followed(q, rel) && rel.end == x;
      assert rel in rels;
    } else {
      assert last in rels;
    }
  }

  /** Every find is the end of a collected relationship. */
  lemma {:induction false} FoundOrigin(q: Box, rels: seq<Rel>, x: Node)
    requires x in Found(q, rels)
    ensures exists rel :: rel in rels && Collected(q, rel) && rel.end == x
  {
    var front := rels[..|rels| - 1];
    var last := rels[|rels| - 1];
    if x in Found(q, front) {
      FoundOrigin(q, front, x);
      var rel :| rel in front && Collected(q, rel) && rel.end == x;
      assert rel in rels;
    } else {
      assert last in rels;
    }
  }

  /** How one more relationship extends the next level and the finds. */
  lemma StepRel(q: Box, done: seq<Rel>, rel: Rel)
    ensures NextLevel(q, done + [rel]) == NextLevel(q, done) + (if Followed(q, rel) then [rel.end] else [])
    ensures Found(q, done + [rel]) == Found(q, done) + (if Collected(q, rel) then [rel.end] else [])
  {
    assert (done + [rel])[..|done + [rel]| - 1] == done;
  }

  lemma StepLevel(level: seq<Node>, i: nat)
    requires i < |level|
    ensures LevelRels(level[..i + 1]) == LevelRels(level[..i]) + level[i].out
  {
    assert level[..i + 1][..i] == level[..i];
  }

  /** Every node of the next level is lower than the highest node of this one. */
  lemma NextLevelLower(q: Box, level: seq<Node>)
    requires NextLevel(q, LevelRels(level)) != []
    ensures LevelHeight(NextLevel(q, LevelRels(level))) < LevelHeight(level)
  {
    var next := NextLevel(q, LevelRels(level));
    forall j | 0 <= j < |next|
      ensures Height(next[j]) < LevelHeight(level)
    {
      assert next[j] in next;
      NextLevelOrigin(q, LevelRels(level), next[j]);
      var rel :| rel in LevelRels(level) && Followed(q, rel) && rel.end == next[j];
      LevelRelsOrigin(level, rel);
      var i :| 0 <= i < |level| && rel in level[i].out;
      var m :| 0 <= m < |level[i].out| && level[i].out[m] == rel;
      HeightDecreases(level[i], m);
    }
    assert next[0] in next;
    LevelHeightBelow(next, LevelHeight(level));
  }

  /** searchTree as a function: this level's finds, then the next level's, until a level is empty. */
  function LevelSearch(q: Box, level: seq<Node>): seq<Node>
    decreases LevelHeight(level)
  {
    var rels := LevelRels(level);
    var next := NextLevel(q, rels);
    Found(q, rels) + (if next == [] then [] else NextLevelLower(q, level); LevelSearch(q, next))
  }

  method ScanRelationships(q: Box, rels: seq<Rel>, next0: seq<Node>, candidates0: seq<Node>,
                           ghost level: seq<Rel>, ghost base: seq<Node>)
    returns (next: seq<Node>, candidates: seq<Node>)
    requires next0 == NextLevel(q, level) && candidates0 == base + Found(q, level)
    ensures next == NextLevel(q, level + rels) && candidates == base + Found(q, level + rels)
  {
    next, candidates := next0, candidates0;
    ghost var seen := level;
    var j := 0;
    assert rels[..0] == [];
    while j < |rels|
      invariant 0 <= j <= |rels|
      invariant seen == level + rels[..j]
      invariant next == NextLevel(q, seen)
      invariant candidates == base + Found(q, seen)
    {
      var rel := rels[j];
      StepRel(q, seen, rel);
      if IsRelevantRelationship(rel) {
        if Intersects(q, rel.env) {
          if IsDirectoryRelationship(rel) {
            next := next + [rel.end];
          } else {
            candidates := candidates + [rel.end];
          }
        }
      }
      seen := seen + [rel];
      assert rels[..j + 1] == rels[..j] + [rel];
      j := j + 1;
    }
    assert rels[..j] == rels;
  }

  lemma LevelSearchStep(q: Box, level: seq<Node>)
    ensures NextLevel(q, LevelRels(level)) == [] ==>
              LevelSearch(q, level) == Found(q, LevelRels(level))
    ensures NextLevel(q, LevelRels(level)) != [] ==>
              LevelSearch(q, level) == Found(q, LevelRels(level)) + LevelSearch(q, NextLevel(q, LevelRels(level)))
  {
  }

  /**
   * searchTree(indexes, candidateNodes): one pass over the level's relationships, which
   * appends collected ends to the shared candidate list and gathers the next level, then
   * a recursive call unless that level is empty.
   */
  method SearchTree(q: Box, indexes: seq<Node>, candidateNodes: seq<Node>) returns (result: seq<Node>)
    ensures result == candidateNodes + LevelSearch(q, indexes)
    decreases LevelHeight(indexes)
  {
    var candidates := candidateNodes;
    var next: seq<Node> := [];
    ghost var level: seq<Rel> := [];
    var i := 0;
    assert indexes[..0] == [];
    while i < |indexes|
      invariant 0 <= i <= |indexes|
      invariant level == LevelRels(indexes[..i])
      invariant next == NextLevel(q, level)
      invariant candidates == candidateNodes + Found(q, level)
    {
      var index := indexes[i];
      next, candidates := ScanRelationships(q, index.out, next, candidates, level, candidateNodes);
      StepLevel(indexes, i);
      level := level + index.out;
      i := i + 1;
    }
    assert indexes[..i] == indexes;
    LevelSearchStep(q, indexes);
    if next == [] {
      result := candidates;
    } else {
      NextLevelLower(q, indexes);
      result := SearchTree(q, next, candidates);
    }
  }

  // ------------------------------------------------------- the depth-first reference

  /** The references a depth-first walk with the same pruning finds through n's first k relationships. */
  function VisibleUpTo(q: Box, n: Node, k: nat): seq<Node>
    requires k <= |n.out|
    decreases n, k
  {
    if k == 0 then []
    else
      var r := n.out[k - 1];
      VisibleUpTo(q, n, k - 1) +
        (if Collected(q, r) then [r.end]
         else if Followed(q, r) then VisibleUpTo(q, r.end, |r.end.out|)
         else [])
  }

  function Visible(q: Box, n: Node): seq<Node> { VisibleUpTo(q, n, |n.out|) }

  /** What one relationship contributes to the depth-first walk. */
  function Contribution(q: Box, r: Rel): seq<Node>
  {
    if Collected(q, r) then [r.end] else if Followed(q, r) then Visible(q, r.end) else []
  }

  function VisibleRels(q: Box, rels: seq<Rel>): seq<Node>
  {
    if rels == [] then [] else VisibleRels(q, rels[..|rels| - 1]) + Contribution(q, rels[|rels| - 1])
  }

  /** The depth-first walk from every node of a level, in order. */
  function VisibleAll(q: Box, level: seq<Node>): seq<Node>
  {
    if level == [] then [] else VisibleAll(q, level[..|level| - 1]) + Visible(q, level[|level| - 1])
  }

  lemma {:induction false} VisibleRelsAppend(q: Box, a: seq<Rel>, b: seq<Rel>)
    ensures VisibleRels(q, a + b) == VisibleRels(q, a) + VisibleRels(q, b)
  {
    if b != [] {
      var front := b[..|b| - 1];
      VisibleRelsAppend(q, a, front);
      assert (a + b)[..|a + b| - 1] == a + front;
      assert (a + b)[|a + b| - 1] == b[|b| - 1];
    } else {
      assert a + b == a;
    }
  }

  lemma {:induction false} VisibleUpToRels(q: Box, n: Node, k: nat)
    requires k <= |n.out|
    ensures VisibleUpTo(q, n, k) == VisibleRels(q, n.out[..k])
  {
    if k > 0 {
      VisibleUpToRels(q, n, k - 1);
      assert n.out[..k][..k - 1] == n.out[..k - 1];
    }
  }

  lemma {:induction false} VisibleAllRels(q: Box, level: seq<Node>)
    ensures VisibleAll(q, level) == VisibleRels(q, LevelRels(level))
  {
    if level != [] {
      var front := level[..|level| - 1];
      var last := level[|level| - 1];
      VisibleAllRels(q, front);
      VisibleRelsAppend(q, LevelRels(front), last.out);
      VisibleUpToRels(q, last, |last.out|);
      assert last.out[..|last.out|] == last.out;
    }
  }

  /** The split of one level holds for rels. */
  predicate Splits(q: Box, rels: seq<Rel>)
  {
    multiset(VisibleRels(q, rels)) == multiset(Found(q, rels)) + multiset(VisibleAll(q, NextLevel(q, rels)))
  }

  lemma SplitCollected(q: Box, front: seq<Rel>, last: Rel)
    requires Splits(q, front) && Collected(q, last)
    ensures Splits(q, front + [last])
  {
    var rels := front + [last];
    assert rels[..|rels| - 1] == front;
    var c := [last.end];
    assert VisibleRels(q, rels) == VisibleRels(q, front) + c;
    assert Found(q, rels) == Found(q, front) + c;
    assert NextLevel(q, rels) == NextLevel(q, front);
  }

  lemma SplitFollowed(q: Box, front: seq<Rel>, last: Rel)
    requires Splits(q, front) && Followed(q, last)
    ensures Splits(q, front + [last])
  {
    var rels := front + [last];
    assert rels[..|rels| - 1] == front;
    var nf := NextLevel(q, front);
    var c := Visible(q, last.end);
    assert VisibleRels(q, rels) == VisibleRels(q, front) + c;
    assert Found(q, rels) == Found(q, front);
    assert NextLevel(q, rels) == nf + [last.end];
    VisibleAllSnoc(q, nf, last.end);
  }

  lemma SplitSkipped(q: Box, front: seq<Rel>, last: Rel)
    requires Splits(q, front) && !Collected(q, last) && !Followed(q, last)
    ensures Splits(q, front + [last])
  {
    var rels := front + [last];
    assert rels[..|rels| - 1] == front;
    assert Contribution(q, last) == [];
    assert VisibleRels(q, rels) == VisibleRels(q, front) + [] == VisibleRels(q, front);
    assert Found(q, rels) == Found(q, front) + [] == Found(q, front);
    assert NextLevel(q, rels) == NextLevel(q, front) + [] == NextLevel(q, front);
  }

  /** One level of the walk splits into its direct finds and the walk from the next level. */
  lemma {:induction false} SplitLevel(q: Box, rels: seq<Rel>)
    ensures multiset(VisibleRels(q, rels)) ==
            multiset(Found(q, rels)) + multiset(VisibleAll(q, NextLevel(q, rels)))
  {
    if rels != [] {
      var front := rels[..|rels| - 1];
      var last := rels[|rels| - 1];
      assert rels == front + [last];
      SplitLevel(q, front);
      if Collected(q, last) {
        SplitCollected(q, front, last);
      } else if Followed(q, last) {
        SplitFollowed(q, front, last);
      } else {
        SplitSkipped(q, front, last);
      }
    }
  }

  lemma VisibleAllSnoc(q: Box, level: seq<Node>, n: Node)
    ensures VisibleAll(q, level + [n]) == VisibleAll(q, level) + Visible(q, n)
  {
    assert (level + [n])[..|level + [n]| - 1] == level;
  }

  /** searchTree's breadth-first order finds the same multiset as the depth-first walk. */
  lemma {:induction false} BreadthFirstFindsVisible(q: Box, level: seq<Node>)
    ensures multiset(LevelSearch(q, level)) == multiset(VisibleAll(q, level))
    decreases LevelHeight(level)
  {
    var rels := LevelRels(level);
    var next := NextLevel(q, rels);
    VisibleAllRels(q, level);
    SplitLevel(q, rels);
    if next != [] {
      NextLevelLower(q, level);
      BreadthFirstFindsVisible(q, next);
    }
  }

  // ---------------------------------------------------------- lossless pruning

  /** The walk with no pruning of directory relationships: every reference whose envelope meets q. */
  function MatchingUpTo(q: Box, n: Node, k: nat): seq<Node>
    requires k <= |n.out|
    decreases n, k
  {
    if k == 0 then []
    else
      var r := n.out[k - 1];
      MatchingUpTo(q, n, k - 1) +
        (if Collected(q, r) then [r.end]
         else if IsDirectoryRelationship(r) then MatchingUpTo(q, r.end, |r.end.out|)
         else [])
  }

  function Matching(q: Box, n: Node): seq<Node> { MatchingUpTo(q, n, |n.out|) }

  /** The R-tree bounding invariant below a relationship envelope e. */
  predicate Bounded(n: Node, e: Box)
    decreases n
  {
    forall i :: 0 <= i < |n.out| ==>
      (IsRelevantRelationship(n.out[i]) ==> Covers(e, n.out[i].env)) &&
      (IsDirectoryRelationship(n.out[i]) ==> Bounded(n.out[i].end, n.out[i].env))
  }

  /** Every directory relationship of n bounds what lies below it. */
  predicate ChildrenBounded(n: Node)
  {
    forall i :: 0 <= i < |n.out| && IsDirectoryRelationship(n.out[i]) ==> Bounded(n.out[i].end, n.out[i].env)
  }

  lemma {:induction false} PruneOutside(q: Box, n: Node, e: Box, k: nat)
    requires k <= |n.out| && Bounded(n, e) && !Intersects(q, e)
    ensures MatchingUpTo(q, n, k) == []
    decreases n, k
  {
    if k > 0 {
      PruneOutside(q, n, e, k - 1);
      var r := n.out[k - 1];
      if IsRelevantRelationship(r) && Intersects(q, r.env) {
        IntersectsSymmetric(q, r.env);
        IntersectsCovering(e, r.env, q);
      }
      if IsDirectoryRelationship(r) {
        PruneOutside(q, r.end, r.env, |r.end.out|);
      }
    }
  }

  lemma {:induction false} PruningLosslessUpTo(q: Box, n: Node, k: nat)
    requires k <= |n.out| && ChildrenBounded(n)
    ensures VisibleUpTo(q, n, k) == MatchingUpTo(q, n, k)
    decreases n, k
  {
    if k > 0 {
      PruningLosslessUpTo(q, n, k - 1);
      var r := n.out[k - 1];
      if IsDirectoryRelationship(r) {
        assert Bounded(r.end, r.env);
        if Intersects(q, r.env) {
          PruningLosslessUpTo(q, r.end, |r.end.out|);
        } else {
          PruneOutside(q, r.end, r.env, |r.end.out|);
        }
      }
    }
  }

  /**
   * Skipping a directory relationship whose envelope misses the search envelope loses
   * nothing when each stored envelope bounds what lies below it: the walk finds every
   * reference below n whose envelope meets q.
   */
  lemma PruningLossless(q: Box, n: Node)
    requires ChildrenBounded(n)
    ensures Visible(q, n) == Matching(q, n)
  {
    PruningLosslessUpTo(q, n, |n.out|);
  }

  // --------------------------------------------------------- filters and query

  /** A Cypher query string: null, empty or a clause text. */
  predicate NoCypher(cypherQuery: Option<string>) { cypherQuery.None? || cypherQuery.value == [] }

  /**
   * filterCandidatesWithCypher: hasRow stands for running "WITH $node AS n <query>" on one
   * candidate and asking whether it yields a row.
   */
  method FilterCandidatesWithCypher(candidateNodes: seq<Node>, cypherQuery: Option<string>,
                                    hasRow: Node -> bool) returns (filtered: seq<Node>)
    ensures NoCypher(cypherQuery) ==> filtered == candidateNodes
    ensures !NoCypher(cypherQuery) ==> filtered == Filter(candidateNodes, hasRow)
  {
    if NoCypher(cypherQuery) {
      return candidateNodes;
    }
    filtered := [];
    var i := 0;
    while i < |candidateNodes|
      invariant 0 <= i <= |candidateNodes|
      invariant filtered == Filter(candidateNodes[..i], hasRow)
    {
      assert candidateNodes[..i + 1][..i] == candidateNodes[..i];
      if hasRow(candidateNodes[i]) {
        filtered := filtered + [candidateNodes[i]];
      }
      i := i + 1;
    }
    assert candidateNodes[..i] == candidateNodes;
  }

  /** Whether a candidate survives both filters of query(). */
  predicate Kept(cypherQuery: Option<string>, hasRow: Node -> bool, within: Node -> bool, x: Node)
  {
    (NoCypher(cypherQuery) || hasRow(x)) && within(x)
  }

  /**
   * The constructor's decoding followed by query(): search from the layer nodes, the
   * Cypher filter, then the JTS within test (within stands for geom.within(search polygon)).
   * The result holds every copy of a depth-first find that passes both filters, and nothing else.
   */
  method Query(args: seq<Value>, layers: seq<Node>, cypherQuery: Option<string>,
               bufferNode: (Node, real) -> Result<Rect>, bufferPoint: (real, real, real) -> Result<Rect>,
               hasRow: Node -> bool, within: (Node, Box) -> bool) returns (r: Result<seq<Node>>)
    ensures r.Err? <==> DecodeReferenceEnvelope(args, bufferNode, bufferPoint).Err?
    ensures r.Ok? ==>
              var q := DecodeReferenceEnvelope(args, bufferNode, bufferPoint).value;
              forall x :: multiset(r.value)[x] ==
                          if Kept(cypherQuery, hasRow, y => within(y, q), x)
                          then multiset(VisibleAll(q, layers))[x] else 0
  {
    var decoded := DecodeReferenceEnvelope(args, bufferNode, bufferPoint);
    if decoded.Err? {
      return Err(decoded.error);
    }
    var q := decoded.value;
    var candidates := SearchTree(q, layers, []);
    assert candidates == LevelSearch(q, layers);
    candidates := FilterCandidatesWithCypher(candidates, cypherQuery, hasRow);
    var keep := y => within(y, q);
    var results := Filter(candidates, keep);
    forall x
      ensures multiset(results)[x] ==
              if Kept(cypherQuery, hasRow, keep, x) then multiset(VisibleAll(q, layers))[x] else 0
    {
      BreadthFirstFindsVisible(q, layers);
      FilterCount(candidates, keep, x);
      if !NoCypher(cypherQuery) {
        FilterCount(LevelSearch(q, layers), hasRow, x);
      }
    }
    r := Ok(results);
  }
}
