/**
 * JoinOld: the earlier spatial join. A nested loop pairs every entry of the first list with
 * every entry of the second. A meeting pair of leaves is recorded in a map from a leaf of
 * the first tree to the leaves of the second that it meets; any other meeting pair is
 * joined recursively, a leaf side standing as a one-entry list, and the child map is
 * merged in. Every pair of geometries of a recorded leaf pair is then a candidate for the
 * operation's predicate, whatever the envelopes stored for the two geometries.
 */
module JoinOld {
  import opened Wrappers
  import opened Boxes
  import opened Graph
  import opened QueryUtils
  import opened Arguments
  import opened JoinOperations
  import opened Seqs
  import opened Join

  // ----------------------------------------------------------------- the leaf map

  /** Map<Node, ArrayList<Node>>: a leaf of tree 1 and the leaves of tree 2 it meets. */
  type LeafMap = map<Node, seq<Node>>

  /** The list under k, empty when k has none. */
  function Get(m: LeafMap, k: Node): seq<Node>
  {
    if k in m then m[k] else []
  }

  /** computeIfAbsent(k, new list).add(v): v appended under k, every other key as it was. */
  function AddPair(m: LeafMap, k: Node, v: Node): (r: LeafMap)
    ensures r.Keys == m.Keys + {k}
    ensures forall x :: x in r ==> r[x] == Get(m, x) + (if x == k then [v] else [])
  {
    m[k := Get(m, k) + [v]]
  }

  /** Every entry of c merged into m, the lists under a shared key concatenated. */
  function Merge(m: LeafMap, c: LeafMap): (r: LeafMap)
    ensures r.Keys == m.Keys + c.Keys
    ensures forall x :: x in r ==> r[x] == Get(m, x) + Get(c, x)
  {
    map x | x in m.Keys + c.Keys :: Get(m, x) + Get(c, x)
  }

  /** A map with the keys and lists of Merge(m, c) is Merge(m, c). */
  lemma MergeEqual(r: LeafMap, m: LeafMap, c: LeafMap)
    requires r.Keys == m.Keys + c.Keys
    requires forall x :: x in r ==> r[x] == Get(m, x) + Get(c, x)
    ensures r == Merge(m, c)
  {
  }

  /**
   * childResults.forEach((key, value) -> indexPairs.merge(key, value, addAll)): the keys of
   * the child map visited in whatever order the map yields them.
   */
  method MergeInto(indexPairs: LeafMap, childResults: LeafMap) returns (r: LeafMap)
    ensures r == Merge(indexPairs, childResults)
  {
    r := indexPairs;
    var todo := childResults.Keys;
    while todo != {}
      invariant todo <= childResults.Keys
      invariant r.Keys == indexPairs.Keys + (childResults.Keys - todo)
      invariant forall x :: x in r ==> r[x] == Get(indexPairs, x) + (if x in todo then [] else Get(childResults, x))
      decreases todo
    {
      var key :| key in todo;
      var value := childResults[key];
      if key in r {
        r := r[key := r[key] + value];
      } else {
        r := r[key := value];
      }
      todo := todo - {key};
    }
    MergeEqual(r, indexPairs, childResults);
  }

  // ------------------------------------------------------------ the entry lists

  /** An entry as the old join meets it: a node of a boxed tree with its own bbox. */
  predicate Entry(e: NodeWithEnvelope)
  {
    e.envelope == e.node.bbox && e.node.bbox.Some? && Boxed(e.node)
  }

  predicate Entries(l: seq<NodeWithEnvelope>)
  {
    forall e :: e in l ==> Entry(e)
  }

  /** The highest node of a list of entries. */
  function EntriesHeight(l: seq<NodeWithEnvelope>): (h: nat)
    ensures forall i :: 0 <= i < |l| ==> Height(l[i].node) <= h
  {
    var ns := seq(|l|, i requires 0 <= i < |l| => l[i].node);
    assert forall i :: 0 <= i < |l| ==> ns[i] == l[i].node;
    LevelHeight(ns)
  }

  lemma EntriesHeightAtMost(l: seq<NodeWithEnvelope>, b: nat)
    requires forall i :: 0 <= i < |l| ==> Height(l[i].node) <= b
    ensures EntriesHeight(l) <= b
  {
    var ns := seq(|l|, i requires 0 <= i < |l| => l[i].node);
    LevelHeightBelow(ns, b + 1);
  }

  /** A prefix of an entry list is one too, and no higher. */
  lemma PrefixEntries(l: seq<NodeWithEnvelope>, k: nat)
    requires Entries(l) && k <= |l|
    ensures Entries(l[..k]) && EntriesHeight(l[..k]) <= EntriesHeight(l)
  {
    forall i | 0 <= i < k
      ensures Height(l[..k][i].node) <= EntriesHeight(l)
    {
      assert l[..k][i] == l[i];
    }
    EntriesHeightAtMost(l[..k], EntriesHeight(l));
  }

  /** The children of a boxed node are entries, all lower than the node. */
  lemma ChildEntries(n: Node)
    requires Boxed(n)
    ensures Entries(IndexChildren(n)) && EntriesHeight(IndexChildren(n)) < Height(n)
  {
    var c := IndexChildren(n);
    forall e | e in c
      ensures Entry(e) && Height(e.node) < Height(n)
    {
      ChildFacts(e, n);
    }
    forall i | 0 <= i < |c|
      ensures Height(c[i].node) <= Height(n) - 1
    {
      assert c[i] in c;
    }
    EntriesHeightAtMost(c, Height(n) - 1);
  }

  /** A one-entry list is as high as its entry. */
  lemma SingletonHeight(e: NodeWithEnvelope)
    requires Entry(e)
    ensures Entries([e]) && EntriesHeight([e]) <= Height(e.node)
  {
    EntriesHeightAtMost([e], Height(e.node));
  }

  // ------------------------------------------------------ oldRecursiveSpatialJoin

  /** oldRecursiveSpatialJoin(l1, l2): the entries of l1 in turn, each against all of l2. */
  function OldJoin(l1: seq<NodeWithEnvelope>, l2: seq<NodeWithEnvelope>): LeafMap
    requires Entries(l1) && Entries(l2)
    decreases EntriesHeight(l1) + EntriesHeight(l2), 2, |l1|
  {
    if l1 == [] then map[]
    else
      PrefixEntries(l1, |l1| - 1);
      assert l1[|l1| - 1] in l1;
      OldRow(OldJoin(l1[..|l1| - 1], l2), l1[|l1| - 1], l2)
  }

  /** The inner loop: nwe1 against each entry of l2 in turn, starting from the map m. */
  function OldRow(m: LeafMap, nwe1: NodeWithEnvelope, l2: seq<NodeWithEnvelope>): LeafMap
    requires Entry(nwe1) && Entries(l2)
    decreases Height(nwe1.node) + EntriesHeight(l2), 1, |l2|
  {
    if l2 == [] then m
    else
      PrefixEntries(l2, |l2| - 1);
      assert l2[|l2| - 1] in l2;
      OldStep(OldRow(m, nwe1, l2[..|l2| - 1]), nwe1, l2[|l2| - 1])
  }

  /**
   * One step of the nested loop: entries that do not meet leave the map alone; two leaves
   * are recorded; two directory nodes join their children; a leaf and a directory node
   * join the leaf, as a one-entry list, with the directory node's children.
   */
  function OldStep(m: LeafMap, nwe1: NodeWithEnvelope, nwe2: NodeWithEnvelope): LeafMap
    requires Entry(nwe1) && Entry(nwe2)
    decreases Height(nwe1.node) + Height(nwe2.node), 0, 0
  {
    if !Meets(nwe1, nwe2) then m
    else if NodeIsLeaf(nwe1.node) && NodeIsLeaf(nwe2.node) then AddPair(m, nwe1.node, nwe2.node)
    else if !NodeIsLeaf(nwe1.node) && !NodeIsLeaf(nwe2.node) then
      ChildEntries(nwe1.node);
      ChildEntries(nwe2.node);
      Merge(m, OldJoin(IndexChildren(nwe1.node), IndexChildren(nwe2.node)))
    else if NodeIsLeaf(nwe1.node) then
      ChildEntries(nwe2.node);
      SingletonHeight(nwe1);
      Merge(m, OldJoin([nwe1], IndexChildren(nwe2.node)))
    else
      ChildEntries(nwe1.node);
      SingletonHeight(nwe2);
      Merge(m, OldJoin(IndexChildren(nwe1.node), [nwe2]))
  }

  /** oldRecursiveSpatialJoin: the two nested for-loops over the entry lists. */
  method OldRecursiveSpatialJoin(rtreeNodes1: seq<NodeWithEnvelope>, rtreeNodes2: seq<NodeWithEnvelope>)
    returns (indexPairs: LeafMap)
    requires Entries(rtreeNodes1) && Entries(rtreeNodes2)
    ensures indexPairs == OldJoin(rtreeNodes1, rtreeNodes2)
    decreases EntriesHeight(rtreeNodes1) + EntriesHeight(rtreeNodes2), 1
  {
    indexPairs := map[];
    for i := 0 to |rtreeNodes1|
      invariant Entries(rtreeNodes1[..i])
      invariant indexPairs == OldJoin(rtreeNodes1[..i], rtreeNodes2)
    {
      var nwe1 := rtreeNodes1[i];
      PrefixEntries(rtreeNodes1, i + 1);
      assert rtreeNodes1[..i + 1][..i] == rtreeNodes1[..i];
      ghost var rowStart := indexPairs;
      for j := 0 to |rtreeNodes2|
        invariant Entries(rtreeNodes2[..j])
        invariant indexPairs == OldRow(rowStart, nwe1, rtreeNodes2[..j])
      {
        PrefixEntries(rtreeNodes2, j + 1);
        assert rtreeNodes2[..j + 1][..j] == rtreeNodes2[..j];
        indexPairs := OldVisit(indexPairs, nwe1, rtreeNodes2[j]);
      }
      assert rtreeNodes2[..|rtreeNodes2|] == rtreeNodes2;
    }
    assert rtreeNodes1[..|rtreeNodes1|] == rtreeNodes1;
  }

  /** The body of the inner loop for one pair of entries. */
  method OldVisit(indexPairs: LeafMap, nwe1: NodeWithEnvelope, nwe2: NodeWithEnvelope) returns (r: LeafMap)
    requires Entry(nwe1) && Entry(nwe2)
    ensures r == OldStep(indexPairs, nwe1, nwe2)
    decreases Height(nwe1.node) + Height(nwe2.node), 0
  {
    var env1, env2 := nwe1.envelope.value, nwe2.envelope.value;
    if !Intersects(env1, env2) {
      return indexPairs;
    }
    if NodeIsLeaf(nwe1.node) && NodeIsLeaf(nwe2.node) {
      var overlapLeafs := if nwe1.node in indexPairs then indexPairs[nwe1.node] else [];
      r := indexPairs[nwe1.node := overlapLeafs + [nwe2.node]];
    } else if !NodeIsLeaf(nwe1.node) && !NodeIsLeaf(nwe2.node) {
      var children1 := GetIndexChildren(nwe1.node);
      var children2 := GetIndexChildren(nwe2.node);
      ChildEntries(nwe1.node);
      ChildEntries(nwe2.node);
      var childResults := OldRecursiveSpatialJoin(children1, children2);
      r := MergeInto(indexPairs, childResults);
    } else if NodeIsLeaf(nwe1.node) {
      var children2 := GetIndexChildren(nwe2.node);
      ChildEntries(nwe2.node);
      SingletonHeight(nwe1);
      var childResults := OldRecursiveSpatialJoin([nwe1], children2);
      r := MergeInto(indexPairs, childResults);
    } else {
      var children1 := GetIndexChildren(nwe1.node);
      ChildEntries(nwe1.node);
      SingletonHeight(nwe2);
      var childResults := OldRecursiveSpatialJoin(children1, [nwe2]);
      r := MergeInto(indexPairs, childResults);
    }
  }

  // -------------------------------------------------------- what the map records

  /** n is reached from one of the entries of l. */
  predicate UnderOne(n: Node, l: seq<NodeWithEnvelope>)
  {
    exists e :: e in l && Under(n, e.node)
  }

  /** A leaf pair of l1 and l2: leaves with meeting bboxes, one under l1 and one under l2. */
  predicate OldPair(k: Node, v: Node, l1: seq<NodeWithEnvelope>, l2: seq<NodeWithEnvelope>)
  {
    NodeIsLeaf(k) && NodeIsLeaf(v) && Meets(RootEntry(k), RootEntry(v)) && UnderOne(k, l1) && UnderOne(v, l2)
  }

  lemma UnderOneWiden(n: Node, a: seq<NodeWithEnvelope>, b: seq<NodeWithEnvelope>)
    requires UnderOne(n, a) && forall e :: e in a ==> e in b
    ensures UnderOne(n, b)
  {
  }

  /** What lies under a child of n lies below n. */
  lemma UnderChildren(x: Node, n: Node)
    requires UnderOne(x, IndexChildren(n))
    ensures Below(x, n)
  {
    var e :| e in IndexChildren(n) && Under(x, e.node);
    var r :| r in n.out && r.kind == Child && e == NodeWithEnvelope(r.end, r.end.bbox);
    if x != e.node {
      BelowChild(x, e, n);
    }
  }

  /** The child map of a step: what the recursive call of oldRecursiveSpatialJoin returns. */
  function ChildMap(nwe1: NodeWithEnvelope, nwe2: NodeWithEnvelope): LeafMap
    requires Entry(nwe1) && Entry(nwe2) && !(NodeIsLeaf(nwe1.node) && NodeIsLeaf(nwe2.node))
  {
    ChildEntries(nwe1.node);
    ChildEntries(nwe2.node);
    SingletonHeight(nwe1);
    SingletonHeight(nwe2);
    OldJoin(if NodeIsLeaf(nwe1.node) then [nwe1] else IndexChildren(nwe1.node),
            if NodeIsLeaf(nwe2.node) then [nwe2] else IndexChildren(nwe2.node))
  }

  /** A step on meeting entries that are not both leaves merges in the child map. */
  lemma OldStepMerges(m: LeafMap, nwe1: NodeWithEnvelope, nwe2: NodeWithEnvelope)
    requires Entry(nwe1) && Entry(nwe2) && Meets(nwe1, nwe2) && !(NodeIsLeaf(nwe1.node) && NodeIsLeaf(nwe2.node))
    ensures OldStep(m, nwe1, nwe2) == Merge(m, ChildMap(nwe1, nwe2))
  {
  }

  /** The child map holds only pairs of meeting leaves under the two entries. */
  lemma ChildMapSound(nwe1: NodeWithEnvelope, nwe2: NodeWithEnvelope)
    requires Entry(nwe1) && Entry(nwe2) && !(NodeIsLeaf(nwe1.node) && NodeIsLeaf(nwe2.node))
    ensures forall k, v :: k in ChildMap(nwe1, nwe2) && v in ChildMap(nwe1, nwe2)[k] ==>
              OldPair(k, v, [nwe1], [nwe2])
    decreases Height(nwe1.node) + Height(nwe2.node), 0, 0
  {
    ChildEntries(nwe1.node);
    ChildEntries(nwe2.node);
    SingletonHeight(nwe1);
    SingletonHeight(nwe2);
    var c1 := if NodeIsLeaf(nwe1.node) then [nwe1] else IndexChildren(nwe1.node);
    var c2 := if NodeIsLeaf(nwe2.node) then [nwe2] else IndexChildren(nwe2.node);
    OldJoinSound(c1, c2);
    var c := ChildMap(nwe1, nwe2);
    forall k, v | k in c && v in c[k]
      ensures OldPair(k, v, [nwe1], [nwe2])
    {
      if !NodeIsLeaf(nwe1.node) {
        UnderChildren(k, nwe1.node);
        assert Under(k, nwe1.node);
      }
      if !NodeIsLeaf(nwe2.node) {
        UnderChildren(v, nwe2.node);
        assert Under(v, nwe2.node);
      }
    }
  }

  /** One step records only a pair of meeting leaves under its two entries. */
  lemma OldStepSound(m: LeafMap, nwe1: NodeWithEnvelope, nwe2: NodeWithEnvelope)
    requires Entry(nwe1) && Entry(nwe2)
    ensures forall k, v :: k in OldStep(m, nwe1, nwe2) && v in OldStep(m, nwe1, nwe2)[k] ==>
              v in Get(m, k) || OldPair(k, v, [nwe1], [nwe2])
    decreases Height(nwe1.node) + Height(nwe2.node), 0, 1
  {
    if Meets(nwe1, nwe2) {
      if NodeIsLeaf(nwe1.node) && NodeIsLeaf(nwe2.node) {
        assert RootEntry(nwe1.node) == nwe1 && RootEntry(nwe2.node) == nwe2;
      } else {
        OldStepMerges(m, nwe1, nwe2);
        ChildMapSound(nwe1, nwe2);
      }
    }
  }

  /** The inner loop records only pairs of nwe1 with an entry of l2. */
  lemma {:induction false} OldRowSound(m: LeafMap, nwe1: NodeWithEnvelope, l2: seq<NodeWithEnvelope>)
    requires Entry(nwe1) && Entries(l2)
    ensures forall k, v :: k in OldRow(m, nwe1, l2) && v in OldRow(m, nwe1, l2)[k] ==>
              v in Get(m, k) || OldPair(k, v, [nwe1], l2)
    decreases Height(nwe1.node) + EntriesHeight(l2), 1, |l2|
  {
    if l2 != [] {
      var front, last := l2[..|l2| - 1], l2[|l2| - 1];
      PrefixEntries(l2, |l2| - 1);
      assert last in l2;
      var before := OldRow(m, nwe1, front);
      OldRowSound(m, nwe1, front);
      OldStepSound(before, nwe1, last);
      var r := OldRow(m, nwe1, l2);
      forall k, v | k in r && v in r[k] && v !in Get(m, k)
        ensures OldPair(k, v, [nwe1], l2)
      {
        if v in Get(before, k) {
          UnderOneWiden(v, front, l2);
        } else {
          UnderOneWiden(v, [last], l2);
        }
      }
    }
  }

  /**
   * oldRecursiveSpatialJoin(l1, l2) records only pairs of leaves whose bboxes meet, the
   * key under an entry of l1 and the listed leaf under an entry of l2.
   */
  lemma {:induction false} OldJoinSound(l1: seq<NodeWithEnvelope>, l2: seq<NodeWithEnvelope>)
    requires Entries(l1) && Entries(l2)
    ensures forall k, v :: k in OldJoin(l1, l2) && v in OldJoin(l1, l2)[k] ==> OldPair(k, v, l1, l2)
    decreases EntriesHeight(l1) + EntriesHeight(l2), 2, |l1|
  {
    if l1 != [] {
      var front, last := l1[..|l1| - 1], l1[|l1| - 1];
      PrefixEntries(l1, |l1| - 1);
      assert last in l1;
      var before := OldJoin(front, l2);
      OldJoinSound(front, l2);
      OldRowSound(before, last, l2);
      var r := OldJoin(l1, l2);
      forall k, v | k in r && v in r[k]
        ensures OldPair(k, v, l1, l2)
      {
        if v in Get(before, k) {
          UnderOneWiden(k, front, l1);
        } else {
          UnderOneWiden(k, [last], l1);
        }
      }
    }
  }

  // ------------------------------------------------------------- completeness

  /** A step keeps every list it is given and may only extend it. */
  lemma OldStepGrows(m: LeafMap, nwe1: NodeWithEnvelope, nwe2: NodeWithEnvelope)
    requires Entry(nwe1) && Entry(nwe2)
    ensures forall k :: Get(m, k) <= Get(OldStep(m, nwe1, nwe2), k)
  {
  }

  lemma {:induction false} OldRowGrows(m: LeafMap, nwe1: NodeWithEnvelope, l2: seq<NodeWithEnvelope>)
    requires Entry(nwe1) && Entries(l2)
    ensures forall k :: Get(m, k) <= Get(OldRow(m, nwe1, l2), k)
    decreases |l2|
  {
    if l2 != [] {
      PrefixEntries(l2, |l2| - 1);
      assert l2[|l2| - 1] in l2;
      OldRowGrows(m, nwe1, l2[..|l2| - 1]);
      OldStepGrows(OldRow(m, nwe1, l2[..|l2| - 1]), nwe1, l2[|l2| - 1]);
    }
  }

  /** Leaves k and v of R-trees under the entries e1 and e2, with meeting bboxes. */
  predicate Reaches(k: Node, v: Node, e1: NodeWithEnvelope, e2: NodeWithEnvelope)
  {
    NodeIsLeaf(k) && NodeIsLeaf(v) && Meets(RootEntry(k), RootEntry(v)) &&
    Nested(e1.node) && Nested(e2.node) && Under(k, e1.node) && Under(v, e2.node)
  }

  /** Entries covering two meeting leaves meet too. */
  lemma ReachesMeets(k: Node, v: Node, e1: NodeWithEnvelope, e2: NodeWithEnvelope)
    requires Entry(e1) && Entry(e2) && Reaches(k, v, e1, e2)
    ensures Meets(e1, e2)
  {
    CoveredUnder(k, e1.node);
    CoveredUnder(v, e2.node);
    var x := Overlap(k.bbox.value, v.bbox.value);
    CoversTransitive(e1.node.bbox.value, k.bbox.value, x);
    CoversTransitive(e2.node.bbox.value, v.bbox.value, x);
    IntersectionGreatest(e1.node.bbox.value, e2.node.bbox.value, x);
  }

  /** The child entry of a directory node on the way to a leaf under it, an R-tree too. */
  lemma ChildOnPath(k: Node, e: NodeWithEnvelope) returns (c: NodeWithEnvelope)
    requires Entry(e) && Nested(e.node) && NodeIsLeaf(k) && !NodeIsLeaf(e.node) && Under(k, e.node)
    ensures c in IndexChildren(e.node) && Under(k, c.node) && Nested(c.node)
  {
    c := PathChild(k, e.node);
    Nested1(e.node, c);
  }

  /** The child map of two entries over two meeting leaves of R-trees holds their pair. */
  lemma ChildMapComplete(nwe1: NodeWithEnvelope, nwe2: NodeWithEnvelope, k: Node, v: Node)
    requires Entry(nwe1) && Entry(nwe2) && !(NodeIsLeaf(nwe1.node) && NodeIsLeaf(nwe2.node))
    requires Reaches(k, v, nwe1, nwe2)
    ensures v in Get(ChildMap(nwe1, nwe2), k)
    decreases Height(nwe1.node) + Height(nwe2.node), 0, 0
  {
    ChildEntries(nwe1.node);
    ChildEntries(nwe2.node);
    SingletonHeight(nwe1);
    SingletonHeight(nwe2);
    var c1 := if NodeIsLeaf(nwe1.node) then [nwe1] else IndexChildren(nwe1.node);
    var c2 := if NodeIsLeaf(nwe2.node) then [nwe2] else IndexChildren(nwe2.node);
    var e1, e2 := nwe1, nwe2;
    if !NodeIsLeaf(nwe1.node) {
      e1 := ChildOnPath(k, nwe1);
    }
    if !NodeIsLeaf(nwe2.node) {
      e2 := ChildOnPath(v, nwe2);
    }
    OldJoinComplete(c1, c2, k, v, e1, e2);
  }

  lemma OldStepComplete(m: LeafMap, nwe1: NodeWithEnvelope, nwe2: NodeWithEnvelope, k: Node, v: Node)
    requires Entry(nwe1) && Entry(nwe2) && Reaches(k, v, nwe1, nwe2)
    ensures v in Get(OldStep(m, nwe1, nwe2), k)
    decreases Height(nwe1.node) + Height(nwe2.node), 0, 1
  {
    ReachesMeets(k, v, nwe1, nwe2);
    if NodeIsLeaf(nwe1.node) && NodeIsLeaf(nwe2.node) {
      LeafUnder(k, nwe1.node);
      LeafUnder(v, nwe2.node);
    } else {
      OldStepMerges(m, nwe1, nwe2);
      ChildMapComplete(nwe1, nwe2, k, v);
    }
  }

  lemma {:induction false} OldRowComplete(m: LeafMap, nwe1: NodeWithEnvelope, l2: seq<NodeWithEnvelope>,
                                          k: Node, v: Node, e2: NodeWithEnvelope)
    requires Entry(nwe1) && Entries(l2) && e2 in l2 && Reaches(k, v, nwe1, e2)
    ensures v in Get(OldRow(m, nwe1, l2), k)
    decreases Height(nwe1.node) + EntriesHeight(l2), 1, |l2|
  {
    var front, last := l2[..|l2| - 1], l2[|l2| - 1];
    PrefixEntries(l2, |l2| - 1);
    assert last in l2;
    assert l2 == front + [last];
    if e2 == last {
      OldStepComplete(OldRow(m, nwe1, front), nwe1, last, k, v);
    } else {
      OldRowComplete(m, nwe1, front, k, v, e2);
      OldStepGrows(OldRow(m, nwe1, front), nwe1, last);
    }
  }

  /**
   * On R-trees, oldRecursiveSpatialJoin(l1, l2) misses no pair of leaves with meeting bboxes
   * under an entry of l1 and an entry of l2.
   */
  lemma {:induction false} OldJoinComplete(l1: seq<NodeWithEnvelope>, l2: seq<NodeWithEnvelope>,
                                           k: Node, v: Node, e1: NodeWithEnvelope, e2: NodeWithEnvelope)
    requires Entries(l1) && Entries(l2) && e1 in l1 && e2 in l2 && Reaches(k, v, e1, e2)
    ensures v in Get(OldJoin(l1, l2), k)
    decreases EntriesHeight(l1) + EntriesHeight(l2), 2, |l1|
  {
    var front, last := l1[..|l1| - 1], l1[|l1| - 1];
    PrefixEntries(l1, |l1| - 1);
    assert last in l1;
    assert l1 == front + [last];
    if e1 == last {
      OldRowComplete(OldJoin(front, l2), last, l2, k, v, e2);
    } else {
      OldJoinComplete(front, l2, k, v, e1, e2);
      OldRowGrows(OldJoin(front, l2), last, l2);
    }
  }

  // ------------------------------------------------------------ executeOperation

  /** The geometries referenced from a list of leaves, leaf after leaf. */
  function LeavesGeometries(leaves: seq<Node>): (r: seq<NodeWithGeometry>)
    ensures forall g :: g in r <==> exists l :: l in leaves && g in GeometryNodes(l)
  {
    if leaves == [] then []
    else
      var front := leaves[..|leaves| - 1];
      assert leaves == front + [leaves[|leaves| - 1]];
      LeavesGeometries(front) + GeometryNodes(leaves[|leaves| - 1])
  }

  /** g1 paired with each geometry of g2s in turn. */
  function PairRow(g1: NodeWithGeometry, g2s: seq<NodeWithGeometry>): (r: seq<GeometryPair>)
    ensures |r| == |g2s|
    ensures forall p :: p in r <==> p.nwg1 == g1 && p.nwg2 in g2s
  {
    if g2s == [] then []
    else
      var front := g2s[..|g2s| - 1];
      assert g2s == front + [g2s[|g2s| - 1]];
      PairRow(g1, front) + [GeometryPair(g1, g2s[|g2s| - 1])]
  }

  /** Every geometry of g1s with every geometry of g2s, row after row. */
  function PairCross(g1s: seq<NodeWithGeometry>, g2s: seq<NodeWithGeometry>): (r: seq<GeometryPair>)
    ensures |r| == |g1s| * |g2s|
    ensures forall p :: p in r <==> p.nwg1 in g1s && p.nwg2 in g2s
  {
    if g1s == [] then []
    else
      var front := g1s[..|g1s| - 1];
      assert g1s == front + [g1s[|g1s| - 1]];
      assert |g1s| * |g2s| == |front| * |g2s| + |g2s| by {
        MulSucc(|front|, |g2s|);
      }
      PairCross(front, g2s) + PairRow(g1s[|g1s| - 1], g2s)
  }

  lemma MulSucc(a: nat, b: nat)
    ensures (a + 1) * b == a * b + b
  {
  }

  /** The candidates of one entry of the leaf map: its leaf's geometries with its leaves' geometries. */
  function EntryPairs(leaf1: Node, leaves2: seq<Node>): seq<GeometryPair>
  {
    PairCross(GeometryNodes(leaf1), LeavesGeometries(leaves2))
  }

  /** The candidates of each key of the leaf map. */
  function EntryPairsOf(leafPairs: LeafMap): Node -> seq<GeometryPair>
  {
    k => EntryPairs(k, Get(leafPairs, k))
  }

  /** The candidates of the leaf map's entries, taken in the map's iteration order. */
  function CandidatePairs(leafPairs: LeafMap, order: seq<Node>): (r: seq<GeometryPair>)
    ensures forall p :: p in r <==> exists k :: k in order && p in EntryPairs(k, Get(leafPairs, k))
  {
    FlatMapMembers(order, EntryPairsOf(leafPairs));
    FlatMap(order, EntryPairsOf(leafPairs))
  }

  /** A candidate pair: a geometry of a key leaf with a geometry of a leaf listed under it. */
  ghost predicate Candidate(p: GeometryPair, leafPairs: LeafMap)
  {
    exists k, v :: k in leafPairs && v in leafPairs[k] && p.nwg1 in GeometryNodes(k) && p.nwg2 in GeometryNodes(v)
  }

  /**
   * Whatever the iteration order, the candidates are every geometry of a key leaf with every
   * geometry of a leaf listed under it; the envelopes stored for the geometries play no part.
   */
  lemma CandidatePairsMembers(leafPairs: LeafMap, order: seq<Node>)
    requires forall k :: k in order <==> k in leafPairs
    ensures forall p :: p in CandidatePairs(leafPairs, order) <==> Candidate(p, leafPairs)
  {
    forall p
      ensures p in CandidatePairs(leafPairs, order) <==> Candidate(p, leafPairs)
    {
      if Candidate(p, leafPairs) {
        var k, v :| k in leafPairs && v in leafPairs[k] && p.nwg1 in GeometryNodes(k) && p.nwg2 in GeometryNodes(v);
        assert p.nwg2 in LeavesGeometries(leafPairs[k]);
        assert p in EntryPairs(k, leafPairs[k]);
      }
    }
  }

  /** Two iteration orders of the same keys give the same candidates, counted with multiplicity. */
  lemma CandidatePairsPermutation(leafPairs: LeafMap, order1: seq<Node>, order2: seq<Node>)
    requires multiset(order1) == multiset(order2)
    ensures multiset(CandidatePairs(leafPairs, order1)) == multiset(CandidatePairs(leafPairs, order2))
  {
    FlatMapPermutation(order1, order2, EntryPairsOf(leafPairs));
  }

  /** What the old join reports of a leaf map: each candidate pair on which the predicate holds. */
  ghost predicate OldReported(o: JoinOutput, leafPairs: LeafMap, op: JoinOperation,
                        holds: (JoinOperation, Node, Node) -> bool)
  {
    exists p :: Candidate(p, leafPairs) && holds(op, p.nwg1.node, p.nwg2.node) &&
                o == JoinOutput(p.nwg1.node, p.nwg2.node)
  }

  /**
   * executeOperation(leafPairs, executor): the candidate pairs of the entries, in the map's
   * iteration order, given to the executor.
   */
  function ExecuteOperationOld(leafPairs: LeafMap, order: seq<Node>, op: JoinOperation,
                               holds: (JoinOperation, Node, Node) -> bool): (r: seq<JoinOutput>)
    requires forall k :: k in order <==> k in leafPairs
    ensures forall o :: o in r <==> OldReported(o, leafPairs, op, holds)
  {
    CandidatePairsMembers(leafPairs, order);
    ExecuteOperation(op, CandidatePairs(leafPairs, order), holds)
  }

  /** The keys of a map, each once, in some order: the HashMap's iteration order. */
  method EntryOrder(m: LeafMap) returns (order: seq<Node>)
    ensures forall k :: k in order <==> k in m
    ensures forall i, j :: 0 <= i < j < |order| ==> order[i] != order[j]
  {
    order := [];
    var todo := m.Keys;
    while todo != {}
      invariant todo <= m.Keys
      invariant forall k :: k in order <==> k in m && k !in todo
      invariant forall i, j :: 0 <= i < j < |order| ==> order[i] != order[j]
      decreases todo
    {
      var k :| k in todo;
      order := order + [k];
      todo := todo - {k};
    }
  }

  /** Whatever the iteration order, the same results, counted with multiplicity. */
  lemma ExecuteOperationOldOrder(leafPairs: LeafMap, order1: seq<Node>, order2: seq<Node>,
                                 op: JoinOperation, holds: (JoinOperation, Node, Node) -> bool)
    requires forall k :: k in order1 <==> k in leafPairs
    requires multiset(order1) == multiset(order2)
    ensures forall k :: k in order2 <==> k in leafPairs
    ensures multiset(ExecuteOperationOld(leafPairs, order1, op, holds)) ==
            multiset(ExecuteOperationOld(leafPairs, order2, op, holds))
  {
    forall k
      ensures k in order2 <==> k in order1
    {
      assert k in order1 <==> k in multiset(order1);
      assert k in order2 <==> k in multiset(order2);
    }
    CandidatePairsPermutation(leafPairs, order1, order2);
    ExecuteOperationPermutation(op, CandidatePairs(leafPairs, order1), CandidatePairs(leafPairs, order2), holds);
  }

  // ------------------------------------------------------ constructor and query

  /** The fields the old join keeps: the two roots and the operation name, which may be null. */
  datatype OldJoinState = OldJoinState(root1: Node, root2: Node, operationString: Option<string>)

  /** (String) args.get(0): a string, or null; any other value fails the cast. */
  function OperationCast(v: Value): (r: Result<Option<string>>)
    ensures r.Ok? <==> v.VString? || v.VNull?
    ensures v.VString? ==> r == Ok(Some(v.s))
    ensures v.VNull? ==> r == Ok(None)
    ensures r.Err? ==> r.error == ClassCast
  {
    match v
    case VString(s) => Ok(Some(s))
    case VNull => Ok(None)
    case _ => Err(ClassCast)
  }

  /**
   * The constructor: the two roots and the operation name, unchecked. Failures come in the
   * source's order: a missing layer, a root lookup, a missing argument, a failed cast.
   */
  function NewJoinOld(layers: seq<Node>, args: seq<Value>): (r: Result<OldJoinState>)
    ensures r.Ok? <==> RootsFound(layers) && |args| >= 1 && (args[0].VString? || args[0].VNull?)
    ensures r.Ok? ==>
              r.value.root1 == IndexRoot(layers[0]).value && r.value.root2 == IndexRoot(layers[1]).value &&
              r.value.operationString == (if args[0].VString? then Some(args[0].s) else None)
    ensures |layers| == 0 ==> r == Err(IndexOutOfBounds)
    ensures |layers| >= 1 && IndexRoot(layers[0]).Err? ==> r == Err(IndexRoot(layers[0]).error)
    ensures |layers| == 1 && IndexRoot(layers[0]).Ok? ==> r == Err(IndexOutOfBounds)
    ensures |layers| >= 2 && IndexRoot(layers[0]).Ok? && IndexRoot(layers[1]).Err? ==>
              r == Err(IndexRoot(layers[1]).error)
    ensures RootsFound(layers) && |args| == 0 ==> r == Err(IndexOutOfBounds)
    ensures RootsFound(layers) && |args| >= 1 && r.Err? ==> r.error == ClassCast
  {
    if |layers| == 0 then Err(IndexOutOfBounds)
    else
      match IndexRoot(layers[0])
      case Err(e) => Err(e)
      case Ok(root1) =>
        if |layers| == 1 then Err(IndexOutOfBounds)
        else
          match IndexRoot(layers[1])
          case Err(e) => Err(e)
          case Ok(root2) =>
            if |args| == 0 then Err(IndexOutOfBounds)
            else
              match OperationCast(args[0])
              case Err(e) => Err(e)
              case Ok(name) => Ok(OldJoinState(root1, root2, name))
  }

  /**
   * The old constructor takes any string; the new one rejects a name that is no operation.
   * Such a name fails the old join only once roots that meet are joined.
   */
  lemma NameCheckedLate(layers: seq<Node>)
    requires RootsFound(layers)
    ensures NewJoinOld(layers, [VString("nearby")]).Ok?
    ensures NewJoin(layers, [VString("nearby")]) == Err(IllegalArgument)
  {
    assert ToUpper("nearby") == "NEARBY";
    NamesListed("NEARBY");
  }

  /** new JoinOperationExecutor(log, operationString): upper-casing a null name fails. */
  function OldExecutor(name: Option<string>): (r: Result<JoinOperation>)
    ensures name.None? ==> r == Err(NullPointer)
    ensures name.Some? ==> (r.Ok? <==> exists op: JoinOperation :: Name(op) == name.value)
    ensures r.Ok? ==> Name(r.value) == name.value
    ensures name.Some? && r.Err? ==> r.error == IllegalArgument
  {
    match name
    case None => Err(NullPointer)
    case Some(s) => NewExecutor(s)
  }

  /** The leaf map query() builds: the children of the two roots joined. */
  function RootsLeafMap(j: OldJoinState): LeafMap
    requires Boxed(j.root1) && Boxed(j.root2)
  {
    ChildEntries(j.root1);
    ChildEntries(j.root2);
    OldJoin(IndexChildren(j.root1), IndexChildren(j.root2))
  }

  /**
   * query(): a root without a bbox fails; roots whose bboxes do not meet give nothing,
   * whatever the operation name; otherwise the children of the roots are joined and the
   * executor, built only now, applies the operation to every candidate pair.
   */
  method Query(j: OldJoinState, holds: (JoinOperation, Node, Node) -> bool)
    returns (r: Result<seq<JoinOutput>>)
    requires Boxed(j.root1) && Boxed(j.root2)
    ensures j.root1.bbox.None? || j.root2.bbox.None? ==> r == Err(NullPointer)
    ensures j.root1.bbox.Some? && j.root2.bbox.Some? && !Intersects(j.root1.bbox.value, j.root2.bbox.value) ==>
              r == Ok([])
    ensures Meets(RootEntry(j.root1), RootEntry(j.root2)) ==>
              (r.Err? <==> OldExecutor(j.operationString).Err?) &&
              (r.Err? ==> r.error == OldExecutor(j.operationString).error)
    ensures Meets(RootEntry(j.root1), RootEntry(j.root2)) && r.Ok? ==>
              forall o :: o in r.value <==> OldReported(o, RootsLeafMap(j), OldExecutor(j.operationString).value, holds)
  {
    if j.root1.bbox.None? || j.root2.bbox.None? {
      return Err(NullPointer);
    }
    var env1, env2 := j.root1.bbox.value, j.root2.bbox.value;
    if !Intersects(env1, env2) {
      return Ok([]);
    }
    var children1 := GetIndexChildren(j.root1);
    var children2 := GetIndexChildren(j.root2);
    ChildEntries(j.root1);
    ChildEntries(j.root2);
    var leafPairs := OldRecursiveSpatialJoin(children1, children2);
    match OldExecutor(j.operationString)
    case Err(e) =>
      r := Err(e);
    case Ok(executor) =>
      var order := EntryOrder(leafPairs);
      r := Ok(ExecuteOperationOld(leafPairs, order, executor, holds));
  }

  // --------------------------------------------------------- what the query finds

  /** Pairing a list with nothing records nothing. */
  lemma {:induction false} OldJoinNothing(l1: seq<NodeWithEnvelope>)
    requires Entries(l1)
    ensures OldJoin(l1, []) == map[]
  {
    if l1 != [] {
      PrefixEntries(l1, |l1| - 1);
      OldJoinNothing(l1[..|l1| - 1]);
    }
  }

  /** As in the new join, only the roots' children are paired: a leaf root gives no pairs. */
  lemma OldLeafRoot(j: OldJoinState)
    requires Boxed(j.root1) && Boxed(j.root2) && (NodeIsLeaf(j.root1) || NodeIsLeaf(j.root2))
    ensures RootsLeafMap(j) == map[]
  {
    LeafIffNoChildren(j.root1);
    LeafIffNoChildren(j.root2);
    ChildEntries(j.root1);
    if NodeIsLeaf(j.root2) {
      OldJoinNothing(IndexChildren(j.root1));
    }
  }

  /** A geometry node of a leaf comes from one of its REFERENCE relationships. */
  lemma GeometryNodeReferenced(leaf: Node, g: NodeWithGeometry)
    requires g in GeometryNodes(leaf)
    ensures Rel(Reference, g.envelope, g.node) in leaf.out
  {
    var x :| x in leaf.out && x.kind == Reference && g == NodeWithGeometry(x.end, x.env);
    assert Rel(Reference, g.envelope, g.node) == x;
  }

  /** Every REFERENCE relationship of a leaf gives one of its geometry nodes. */
  lemma ReferencedGeometryNode(leaf: Node, g: Node, env: Rect)
    requires Rel(Reference, env, g) in leaf.out
    ensures NodeWithGeometry(g, env) in GeometryNodes(leaf)
  {
    var x := Rel(Reference, env, g);
    assert x in leaf.out && x.kind == Reference && NodeWithGeometry(g, env) == NodeWithGeometry(x.end, x.env);
  }

  /** A leaf pair of a leaf map reports every pair of their geometries on which the predicate holds. */
  lemma LeafPairReported(m: LeafMap, op: JoinOperation, holds: (JoinOperation, Node, Node) -> bool,
                         g1: Node, env1: Rect, leaf1: Node, g2: Node, env2: Rect, leaf2: Node)
    requires leaf2 in Get(m, leaf1) && holds(op, g1, g2)
    requires Rel(Reference, env1, g1) in leaf1.out && Rel(Reference, env2, g2) in leaf2.out
    ensures OldReported(JoinOutput(g1, g2), m, op, holds)
  {
    var p := GeometryPair(NodeWithGeometry(g1, env1), NodeWithGeometry(g2, env2));
    ReferencedGeometryNode(leaf1, g1, env1);
    ReferencedGeometryNode(leaf2, g2, env2);
    assert Candidate(p, m);
  }

  /** A reported pair comes from REFERENCE relationships of a leaf pair of the leaf map. */
  lemma ReportedFrom(m: LeafMap, op: JoinOperation, holds: (JoinOperation, Node, Node) -> bool, o: JoinOutput)
    returns (k: Node, v: Node, env1: Rect, env2: Rect)
    requires OldReported(o, m, op, holds)
    ensures k in m && v in m[k] && holds(op, o.node1, o.node2)
    ensures Rel(Reference, env1, o.node1) in k.out && Rel(Reference, env2, o.node2) in v.out
  {
    var p :| Candidate(p, m) && holds(op, p.nwg1.node, p.nwg2.node) && o == JoinOutput(p.nwg1.node, p.nwg2.node);
    k, v :| k in m && v in m[k] && p.nwg1 in GeometryNodes(k) && p.nwg2 in GeometryNodes(v);
    GeometryNodeReferenced(k, p.nwg1);
    GeometryNodeReferenced(v, p.nwg2);
    env1, env2 := p.nwg1.envelope, p.nwg2.envelope;
  }

  /** The leaf map of the roots pairs leaves below root1 with leaves below root2 whose bboxes meet. */
  lemma RootsLeafMapSound(j: OldJoinState, k: Node, v: Node)
    requires Boxed(j.root1) && Boxed(j.root2) && k in RootsLeafMap(j) && v in RootsLeafMap(j)[k]
    ensures NodeIsLeaf(k) && NodeIsLeaf(v) && Meets(RootEntry(k), RootEntry(v))
    ensures Below(k, j.root1) && Below(v, j.root2)
  {
    ChildEntries(j.root1);
    ChildEntries(j.root2);
    OldJoinSound(IndexChildren(j.root1), IndexChildren(j.root2));
    UnderChildren(k, j.root1);
    UnderChildren(v, j.root2);
  }

  /** The leaf map of two R-trees holds every pair of leaves below the roots whose bboxes meet. */
  lemma RootsLeafMapComplete(j: OldJoinState, leaf1: Node, leaf2: Node)
    requires Nested(j.root1) && Nested(j.root2) && Boxed(j.root1) && Boxed(j.root2)
    requires NodeIsLeaf(leaf1) && Below(leaf1, j.root1) && NodeIsLeaf(leaf2) && Below(leaf2, j.root2)
    requires Meets(RootEntry(leaf1), RootEntry(leaf2))
    ensures leaf2 in Get(RootsLeafMap(j), leaf1)
  {
    ChildEntries(j.root1);
    ChildEntries(j.root2);
    var e1 := PathChild(leaf1, j.root1);
    var e2 := PathChild(leaf2, j.root2);
    Nested1(j.root1, e1);
    Nested1(j.root2, e2);
    OldJoinComplete(IndexChildren(j.root1), IndexChildren(j.root2), leaf1, leaf2, e1, e2);
  }

  /** Leaves of an R-tree whose stored envelopes intersect have meeting bboxes. */
  lemma StoredMeet(root1: Node, leaf1: Node, env1: Rect, g1: Node, root2: Node, leaf2: Node, env2: Rect, g2: Node)
    requires Nested(root1) && Below(leaf1, root1) && Rel(Reference, env1, g1) in leaf1.out
    requires Nested(root2) && Below(leaf2, root2) && Rel(Reference, env2, g2) in leaf2.out
    requires Intersects(env1, env2)
    ensures Meets(RootEntry(leaf1), RootEntry(leaf2))
  {
    CoveredUnder(leaf1, root1);
    CoveredUnder(leaf2, root2);
    var x := Overlap(env1, env2);
    CoversTransitive(leaf1.bbox.value, env1, x);
    CoversTransitive(leaf2.bbox.value, env2, x);
    IntersectionGreatest(leaf1.bbox.value, leaf2.bbox.value, x);
  }

  /**
   * Everything the old join reports satisfies the predicate and pairs a geometry referenced
   * from a leaf below root1 with one referenced from a leaf below root2, the two leaves'
   * bboxes meeting; the geometries' own stored envelopes need not.
   */
  lemma OldQuerySound(j: OldJoinState, op: JoinOperation, holds: (JoinOperation, Node, Node) -> bool, o: JoinOutput)
    requires Boxed(j.root1) && Boxed(j.root2) && OldReported(o, RootsLeafMap(j), op, holds)
    ensures holds(op, o.node1, o.node2)
    ensures exists leaf1, leaf2, env1, env2 ::
              NodeIsLeaf(leaf1) && NodeIsLeaf(leaf2) && Meets(RootEntry(leaf1), RootEntry(leaf2)) &&
              Below(leaf1, j.root1) && Below(leaf2, j.root2) &&
              Rel(Reference, env1, o.node1) in leaf1.out && Rel(Reference, env2, o.node2) in leaf2.out
  {
    var k, v, env1, env2 := ReportedFrom(RootsLeafMap(j), op, holds, o);
    RootsLeafMapSound(j, k, v);
  }

  /**
   * On two R-trees the old join misses no pair of geometries referenced from leaves below
   * the roots whose stored envelopes intersect, when the predicate holds on it.
   */
  lemma OldQueryComplete(j: OldJoinState, op: JoinOperation, holds: (JoinOperation, Node, Node) -> bool,
                         g1: Node, env1: Rect, leaf1: Node, g2: Node, env2: Rect, leaf2: Node)
    requires Nested(j.root1) && Nested(j.root2) && Boxed(j.root1) && Boxed(j.root2)
    requires NodeIsLeaf(leaf1) && Below(leaf1, j.root1) && Rel(Reference, env1, g1) in leaf1.out
    requires NodeIsLeaf(leaf2) && Below(leaf2, j.root2) && Rel(Reference, env2, g2) in leaf2.out
    requires Intersects(env1, env2) && holds(op, g1, g2)
    ensures OldReported(JoinOutput(g1, g2), RootsLeafMap(j), op, holds)
  {
    StoredMeet(j.root1, leaf1, env1, g1, j.root2, leaf2, env2, g2);
    RootsLeafMapComplete(j, leaf1, leaf2);
    LeafPairReported(RootsLeafMap(j), op, holds, g1, env1, leaf1, g2, env2, leaf2);
  }
}
