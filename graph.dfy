/**
 * The part of the Neo4j graph the R-tree queries walk. An index node carries its decoded
 * "bbox" property (absent when the node has none) and its outgoing relationships in the
 * order the database returns them; each relationship carries the envelope decoded from
 * its min_x/max_x/min_y/max_y properties. Decoding itself, with its failures, is modelled
 * in module BboxDecoder; a graph value holds only what decoded successfully.
 */
module Graph {
  import opened Wrappers
  import opened Boxes

  /** What the 2-D constructor Envelope(xmin, xmax, ymin, ymax) lets through. */
  type Rect = b: Box | Dim(b) == 2 && Valid(b) witness Bounds([0.0, 0.0], [0.0, 0.0])

  /** The 2-D constructor Envelope(xmin, xmax, ymin, ymax), which checks min <= max per axis. */
  function NewRect(xmin: real, xmax: real, ymin: real, ymax: real): (r: Result<Rect>)
    ensures r.Ok? <==> xmin <= xmax && ymin <= ymax
    ensures r.Ok? ==> r.value.min == [xmin, ymin] && r.value.max == [xmax, ymax]
    ensures r.Err? ==> r.error == IllegalArgument
  {
    Box2DValid(xmin, xmax, ymin, ymax);
    if xmin <= xmax && ymin <= ymax then Ok(Box2D(xmin, xmax, ymin, ymax)) else Err(IllegalArgument)
  }

  /** RTreeRelationshipTypes, plus every other relationship type a node may have. */
  datatype RelType = Metadata | Root | Child | Reference | Other

  datatype Node = Node(id: int, bbox: Option<Rect>, out: seq<Rel>)

  datatype Rel = Rel(kind: RelType, env: Rect, end: Node)

  /** The smallest x coordinate of a 2-D envelope (Envelope.getMinX). */
  function MinX(r: Rect): real { r.min[0] }

  function MaxX(r: Rect): real { r.max[0] }

  function MaxOf(s: seq<nat>): (m: nat)
    ensures forall i :: 0 <= i < |s| ==> s[i] <= m
  {
    if s == [] then 0
    else
      var t := MaxOf(s[1..]);
      assert forall i :: 1 <= i < |s| ==> s[i] == s[1..][i - 1];
      if s[0] > t then s[0] else t
  }

  /** Number of levels below and including n. */
  function Height(n: Node): nat
    decreases n
  {
    1 + MaxOf(seq(|n.out|, i requires 0 <= i < |n.out| => Height(n.out[i].end)))
  }

  lemma HeightDecreases(n: Node, i: nat)
    requires i < |n.out|
    ensures Height(n.out[i].end) < Height(n)
  {
    var hs := seq(|n.out|, j requires 0 <= j < |n.out| => Height(n.out[j].end));
    assert hs[i] == Height(n.out[i].end);
  }

  lemma {:induction false} MaxOfBelow(s: seq<nat>, b: nat)
    requires b > 0 && forall i :: 0 <= i < |s| ==> s[i] < b
    ensures MaxOf(s) < b
  {
    if s != [] {
      assert forall i :: 1 <= i < |s| ==> s[1..][i - 1] == s[i];
      MaxOfBelow(s[1..], b);
    }
  }

  lemma LevelHeightBelow(ns: seq<Node>, b: nat)
    requires b > 0 && forall i :: 0 <= i < |ns| ==> Height(ns[i]) < b
    ensures LevelHeight(ns) < b
  {
    var hs := seq(|ns|, i requires 0 <= i < |ns| => Height(ns[i]));
    MaxOfBelow(hs, b);
  }

  /** The highest node of a list of nodes. */
  function LevelHeight(ns: seq<Node>): (h: nat)
    ensures forall i :: 0 <= i < |ns| ==> Height(ns[i]) <= h
  {
    var hs := seq(|ns|, i requires 0 <= i < |ns| => Height(ns[i]));
    assert forall i :: 0 <= i < |ns| ==> hs[i] == Height(ns[i]);
    MaxOf(hs)
  }
}
