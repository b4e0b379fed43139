/**
 * HashTreeFunction: a geohash hierarchy kept in the graph. HashTree nodes carry a geohash
 * property; CHILD_OF relationships link the node of a geohash with the nodes of geohashes
 * one character longer, and an INDEX_OF relationship links a geometry node with the node of
 * its geohash. The graph is a numbered set of nodes (findNodes yields them in id order) and
 * a sequence of relationships (getRelationships yields them in that order). Geohash
 * generation, WKT parsing and the geometry-node lookup are foreign code.
 */
module HashTree {
  import opened Wrappers
  import JoinOperations

  type NodeId = nat

  datatype RelType = INDEX_OF | CHILD_OF

  /** A directed relationship start -> end. */
  datatype Relationship = Relationship(start: NodeId, end: NodeId, relType: RelType)

  /** MAX_GEOHASH_LENGTH. */
  const MaxGeohashLength: nat := 12

  /** The geohash base-32 alphabet checkNear accepts as a last character. */
  const Base32: string := "0123456789bcdefghjkmnpqrstuvwxyz"

  // ------------------------------------------------------------------ relationships

  predicate Touches(r: Relationship, n: NodeId)
  {
    r.start == n || r.end == n
  }

  /** Relationship.getOtherNode(n). */
  function Other(r: Relationship, n: NodeId): NodeId
  {
    if r.start == n then r.end else r.start
  }

  /** r, seen from a, is a relationship of type t whose other node is b. */
  predicate Links(r: Relationship, a: NodeId, b: NodeId, t: RelType)
  {
    r.relType == t && Touches(r, a) && Other(r, a) == b
  }

  /** Some relationship of type t joins a and b; the direction does not matter. */
  predicate Linked(rels: seq<Relationship>, a: NodeId, b: NodeId, t: RelType)
  {
    exists i :: 0 <= i < |rels| && Links(rels[i], a, b, t)
  }

  /** Being linked is symmetric: getRelationships lists both directions of a node. */
  lemma LinkedSymmetric(rels: seq<Relationship>, a: NodeId, b: NodeId, t: RelType)
    ensures Linked(rels, a, b, t) <==> Linked(rels, b, a, t)
  {
    if Linked(rels, a, b, t) {
      var i :| 0 <= i < |rels| && Links(rels[i], a, b, t);
      assert Links(rels[i], b, a, t);
    }
    if Linked(rels, b, a, t) {
      var i :| 0 <= i < |rels| && Links(rels[i], b, a, t);
      assert Links(rels[i], a, b, t);
    }
  }

  /** createOrSkipRelationship: a new relationship from -> to unless the two are already linked. */
  function CreateOrSkip(rels: seq<Relationship>, from: NodeId, to: NodeId, t: RelType): (r: seq<Relationship>)
    ensures Linked(r, from, to, t) && Linked(r, to, from, t)
    ensures rels <= r && |r| <= |rels| + 1
    ensures |r| == |rels| + 1 <==> !Linked(rels, from, to, t)
    ensures |r| == |rels| + 1 ==> r[|rels|] == Relationship(from, to, t)
  {
    if Linked(rels, from, to, t) then
      LinkedSymmetric(rels, from, to, t);
      rels
    else
      var r := rels + [Relationship(from, to, t)];
      assert Links(r[|rels|], from, to, t);
      LinkedSymmetric(r, from, to, t);
      r
  }

  /** Linking twice, in either direction, adds no second relationship. */
  lemma CreateOrSkipIdempotent(rels: seq<Relationship>, from: NodeId, to: NodeId, t: RelType)
    ensures CreateOrSkip(CreateOrSkip(rels, from, to, t), from, to, t) == CreateOrSkip(rels, from, to, t)
    ensures CreateOrSkip(CreateOrSkip(rels, from, to, t), to, from, t) == CreateOrSkip(rels, from, to, t)
  {
  }

  /** Links that held before still hold: relationships are only ever added. */
  lemma LinkedGrows(rels: seq<Relationship>, more: seq<Relationship>, a: NodeId, b: NodeId, t: RelType)
    requires rels <= more && Linked(rels, a, b, t)
    ensures Linked(more, a, b, t)
  {
    var i :| 0 <= i < |rels| && Links(rels[i], a, b, t);
    assert more[i] == rels[i];
  }

  // ------------------------------------------------------------------ node lookup

  /** The least node id below count satisfying p: the first node findNodes yields. */
  function FirstWhere(count: nat, p: NodeId -> bool): (r: Option<NodeId>)
    ensures r.Some? ==> r.value < count && p(r.value) && forall n: NodeId :: n < r.value ==> !p(n)
    ensures r.None? ==> forall n: NodeId :: n < count ==> !p(n)
  {
    if count == 0 then None
    else
      match FirstWhere(count - 1, p)
      case Some(n) => Some(n)
      case None => if p(count - 1) then Some(count - 1) else None
  }

  /** The least id satisfying p is the one FirstWhere finds. */
  lemma FirstWhereIs(count: nat, p: NodeId -> bool, n: NodeId)
    requires n < count && p(n) && forall m: NodeId :: m < n ==> !p(m)
    ensures FirstWhere(count, p) == Some(n)
  {
  }

  /** Whether a node is a HashTree node whose geohash property is g. */
  function HasHash(hashes: map<NodeId, string>, g: string): NodeId -> bool
  {
    n => n in hashes && hashes[n] == g
  }

  /**
   * hashes2 and count2 describe the graph after nodes were created: the old HashTree nodes
   * keep their geohash, and every new one has an id at least the old node count.
   */
  predicate Extends(hashes: map<NodeId, string>, count: nat, hashes2: map<NodeId, string>, count2: nat)
  {
    count <= count2 &&
    (forall n :: n in hashes ==> n in hashes2 && hashes2[n] == hashes[n]) &&
    (forall n :: n in hashes2 && n !in hashes ==> count <= n)
  }

  lemma ExtendsTransitive(h1: map<NodeId, string>, c1: nat, h2: map<NodeId, string>, c2: nat,
                          h3: map<NodeId, string>, c3: nat)
    requires Extends(h1, c1, h2, c2) && Extends(h2, c2, h3, c3)
    ensures Extends(h1, c1, h3, c3)
  {
  }

  /** Creating nodes never changes which node findNodes yields first for a geohash it already finds. */
  lemma FirstHashStable(hashes: map<NodeId, string>, count: nat, hashes2: map<NodeId, string>, count2: nat, g: string)
    requires Extends(hashes, count, hashes2, count2) && FirstWhere(count, HasHash(hashes, g)).Some?
    ensures FirstWhere(count2, HasHash(hashes2, g)) == FirstWhere(count, HasHash(hashes, g))
  {
    var n := FirstWhere(count, HasHash(hashes, g)).value;
    assert HasHash(hashes2, g)(n);
    forall m: NodeId | m < n
      ensures !HasHash(hashes2, g)(m)
    {
      assert !HasHash(hashes, g)(m);
    }
  }

  /** startsWith(parent) and exactly one character longer. */
  predicate IsChildHash(parent: string, s: string)
  {
    |s| == |parent| + 1 && s[..|parent|] == parent
  }

  function HasChildHash(hashes: map<NodeId, string>, parent: string): NodeId -> bool
  {
    n => n in hashes && IsChildHash(parent, hashes[n])
  }

  /**
   * The node findClosestDescendantGeohash stops at: none at the maximum geohash length, else
   * the first HashTree node whose geohash is parent and one more character.
   */
  function ClosestDescendantNode(hashes: map<NodeId, string>, count: nat, parent: string): (r: Option<NodeId>)
    ensures r.Some? ==> |parent| < MaxGeohashLength && r.value < count && r.value in hashes &&
                        IsChildHash(parent, hashes[r.value])
    ensures r.None? ==> |parent| >= MaxGeohashLength ||
                        forall n: NodeId :: n < count && n in hashes ==> !IsChildHash(parent, hashes[n])
  {
    if |parent| >= MaxGeohashLength then None
    else
      var r := FirstWhere(count, HasChildHash(hashes, parent));
      if r.None? then
        forall n: NodeId | n < count && n in hashes
          ensures !IsChildHash(parent, hashes[n])
        {
          assert !HasChildHash(hashes, parent)(n);
        }
        r
      else
        assert HasChildHash(hashes, parent)(r.value);
        r
  }

  /** findClosestDescendantGeohash: the geohash of that node. */
  function ClosestDescendant(hashes: map<NodeId, string>, count: nat, parent: string): Option<string>
  {
    match ClosestDescendantNode(hashes, count, parent)
    case Some(n) => Some(hashes[n])
    case None => None
  }

  /** No earlier node has the descendant's geohash, so findOrCreateHashNode finds that same node. */
  lemma DescendantFoundAgain(hashes: map<NodeId, string>, count: nat, parent: string)
    requires ClosestDescendantNode(hashes, count, parent).Some?
    ensures var n := ClosestDescendantNode(hashes, count, parent).value;
            FirstWhere(count, HasHash(hashes, hashes[n])) == Some(n)
  {
    var n := ClosestDescendantNode(hashes, count, parent).value;
    forall m: NodeId | m < n
      ensures !HasHash(hashes, hashes[n])(m)
    {
      assert !HasChildHash(hashes, parent)(m);
    }
    FirstWhereIs(count, HasHash(hashes, hashes[n]), n);
  }

  /**
   * After the ancestor walk: the prefix of length k has a node, linked by CHILD_OF to the
   * node of the prefix one longer (hashNode itself for the full geohash).
   */
  ghost predicate PrefixLinked(hashes: map<NodeId, string>, count: nat, rels: seq<Relationship>,
                               g: string, hashNode: NodeId, k: nat)
    requires 1 <= k < |g|
  {
    var a := FirstWhere(count, HasHash(hashes, g[..k]));
    a.Some? &&
    if k + 1 == |g| then Linked(rels, a.value, hashNode, CHILD_OF)
    else
      var c := FirstWhere(count, HasHash(hashes, g[..k + 1]));
      c.Some? && Linked(rels, a.value, c.value, CHILD_OF)
  }

  lemma PrefixLinkedStable(hashes: map<NodeId, string>, count: nat, rels: seq<Relationship>,
                           hashes2: map<NodeId, string>, count2: nat, rels2: seq<Relationship>,
                           g: string, hashNode: NodeId, k: nat)
    requires 1 <= k < |g|
    requires Extends(hashes, count, hashes2, count2) && rels <= rels2
    requires PrefixLinked(hashes, count, rels, g, hashNode, k)
    ensures PrefixLinked(hashes2, count2, rels2, g, hashNode, k)
  {
    FirstHashStable(hashes, count, hashes2, count2, g[..k]);
    var a := FirstWhere(count, HasHash(hashes, g[..k])).value;
    if k + 1 == |g| {
      LinkedGrows(rels, rels2, a, hashNode, CHILD_OF);
    } else {
      FirstHashStable(hashes, count, hashes2, count2, g[..k + 1]);
      LinkedGrows(rels, rels2, a, FirstWhere(count, HasHash(hashes, g[..k + 1])).value, CHILD_OF);
    }
  }

  /** The only HashTree nodes created since hashes carry proper prefixes of g. */
  predicate OnlyPrefixesAdded(hashes: map<NodeId, string>, hashes2: map<NodeId, string>, g: string)
  {
    forall n :: n in hashes2 && n !in hashes ==> |hashes2[n]| < |g| && hashes2[n] == g[..|hashes2[n]|]
  }

  /** The only relationships created since rels are CHILD_OF ones, appended. */
  predicate OnlyChildOfAdded(rels: seq<Relationship>, rels2: seq<Relationship>)
  {
    rels <= rels2 && forall i :: |rels| <= i < |rels2| ==> rels2[i].relType == CHILD_OF
  }

  /** Every prefix of g of length from or more, short of g itself, is linked upwards. */
  ghost predicate PrefixesLinked(hashes: map<NodeId, string>, count: nat, rels: seq<Relationship>,
                                 g: string, hashNode: NodeId, from: nat)
  {
    forall k :: from <= k < |g| && 1 <= k ==> PrefixLinked(hashes, count, rels, g, hashNode, k)
  }

  /**
   * One round of the ancestor walk: once the node of the prefix `ancestor` is linked with
   * that of the prefix one longer, every prefix from |ancestor| on is linked.
   */
  lemma AncestorStep(hashes0: map<NodeId, string>, count0: nat, rels0: seq<Relationship>,
                     hashes: map<NodeId, string>, count: nat, rels: seq<Relationship>,
                     g: string, hashNode: NodeId, ancestor: string, node: NodeId, ancestorNode: NodeId)
    requires 1 <= |ancestor| < |g| && ancestor == g[..|ancestor|]
    requires |ancestor| + 1 == |g| ==> node == hashNode
    requires |ancestor| + 1 < |g| ==> FirstWhere(count0, HasHash(hashes0, g[..|ancestor| + 1])) == Some(node)
    requires PrefixesLinked(hashes0, count0, rels0, g, hashNode, |ancestor| + 1)
    requires Extends(hashes0, count0, hashes, count)
    requires FirstWhere(count, HasHash(hashes, ancestor)) == Some(ancestorNode)
    requires rels == CreateOrSkip(rels0, ancestorNode, node, CHILD_OF)
    ensures PrefixesLinked(hashes, count, rels, g, hashNode, |ancestor|)
  {
    forall k | |ancestor| < k < |g|
      ensures PrefixLinked(hashes, count, rels, g, hashNode, k)
    {
      PrefixLinkedStable(hashes0, count0, rels0, hashes, count, rels, g, hashNode, k);
    }
    if |ancestor| + 1 < |g| {
      FirstHashStable(hashes0, count0, hashes, count, g[..|ancestor| + 1]);
    }
  }

  // ------------------------------------------------------------------ the graph

  /** The graph a HashTreeFunction reads and writes through its transaction. */
  class HashGraph {
    /** Nodes are 0 .. nodeCount - 1, in the order findNodes yields them. */
    var nodeCount: nat
    /** The HashTree nodes and their geohash property. */
    var geohash: map<NodeId, string>
    /** The geometry property (WKT) of the nodes that have one. */
    var geometry: map<NodeId, string>
    var rels: seq<Relationship>

    ghost predicate Valid()
      reads this
    {
      (forall n :: n in geohash ==> n < nodeCount) &&
      (forall i :: 0 <= i < |rels| ==> rels[i].start < nodeCount && rels[i].end < nodeCount)
    }

    constructor (count: nat, hashes: map<NodeId, string>, geometries: map<NodeId, string>,
                 relationships: seq<Relationship>)
      requires forall n :: n in hashes ==> n < count
      requires forall i :: 0 <= i < |relationships| ==> relationships[i].start < count && relationships[i].end < count
      ensures Valid()
      ensures nodeCount == count && geohash == hashes && geometry == geometries && rels == relationships
    {
      nodeCount, geohash, geometry, rels := count, hashes, geometries, relationships;
    }

    /** findOrCreateHashNode: the first HashTree node with geohash g, else a new one. */
    method FindOrCreateHashNode(g: string) returns (node: NodeId)
      requires Valid()
      modifies this
      ensures Valid()
      ensures old(FirstWhere(nodeCount, HasHash(geohash, g))).Some? ==>
                node == old(FirstWhere(nodeCount, HasHash(geohash, g))).value &&
                nodeCount == old(nodeCount) && geohash == old(geohash)
      ensures old(FirstWhere(nodeCount, HasHash(geohash, g))).None? ==>
                node == old(nodeCount) && nodeCount == old(nodeCount) + 1 && geohash == old(geohash)[node := g]
      ensures rels == old(rels) && geometry == old(geometry)
      ensures FirstWhere(nodeCount, HasHash(geohash, g)) == Some(node)
      ensures Extends(old(geohash), old(nodeCount), geohash, nodeCount)
    {
      var i := 0;
      while i < nodeCount
        invariant i <= nodeCount
        invariant forall n: NodeId :: n < i ==> !HasHash(geohash, g)(n)
      {
        if i in geohash && geohash[i] == g {
          FirstWhereIs(nodeCount, HasHash(geohash, g), i);
          node := i;
          return;
        }
        i := i + 1;
      }
      ghost var before := geohash;
      node := nodeCount;
      geohash := geohash[node := g];
      nodeCount := nodeCount + 1;
      forall n: NodeId | n < node
        ensures !HasHash(geohash, g)(n)
      {
        assert !HasHash(before, g)(n);
      }
      assert HasHash(geohash, g)(node);
    }

    /** relationshipExists: some relationship of type t of from has to as its other node. */
    method RelationshipExists(from: NodeId, to: NodeId, t: RelType) returns (b: bool)
      ensures b <==> Linked(rels, from, to, t)
    {
      var i := 0;
      while i < |rels|
        invariant i <= |rels|
        invariant forall j :: 0 <= j < i ==> !Links(rels[j], from, to, t)
      {
        var r := rels[i];
        if r.relType == t && Touches(r, from) && Other(r, from) == to {
          return true;
        }
        i := i + 1;
      }
      return false;
    }

    /** createOrSkipRelationship. */
    method CreateOrSkipRelationship(from: NodeId, to: NodeId, t: RelType)
      requires Valid() && from < nodeCount && to < nodeCount
      modifies this
      ensures Valid()
      ensures rels == CreateOrSkip(old(rels), from, to, t)
      ensures nodeCount == old(nodeCount) && geohash == old(geohash) && geometry == old(geometry)
    {
      var linked := RelationshipExists(from, to, t);
      if !linked {
        rels := rels + [Relationship(from, to, t)];
      }
    }

    /** One round of manageAncestorRelationship: the node of ancestor, linked with node. */
    method LinkAncestor(ancestor: string, node: NodeId) returns (ancestorNode: NodeId)
      requires Valid() && node < nodeCount
      modifies this
      ensures Valid() && ancestorNode < nodeCount
      ensures FirstWhere(nodeCount, HasHash(geohash, ancestor)) == Some(ancestorNode)
      ensures Extends(old(geohash), old(nodeCount), geohash, nodeCount)
      ensures forall n :: n in geohash && n !in old(geohash) ==> geohash[n] == ancestor
      ensures rels == CreateOrSkip(old(rels), ancestorNode, node, CHILD_OF)
      ensures geometry == old(geometry)
    {
      ancestorNode := FindOrCreateHashNode(ancestor);
      CreateOrSkipRelationship(ancestorNode, node, CHILD_OF);
    }

    /**
     * manageAncestorRelationship: every proper non-empty prefix of g, longest first, gets a
     * node, CHILD_OF-linked to the node of the prefix one longer. An empty g makes the first
     * substring(0, -1) throw.
     */
    method ManageAncestorRelationship(hashNode: NodeId, g: string) returns (o: Outcome)
      requires Valid() && hashNode < nodeCount
      modifies this
      ensures Valid()
      ensures g == [] ==> o == Fail(IndexOutOfBounds) && nodeCount == old(nodeCount) &&
                          geohash == old(geohash) && rels == old(rels)
      ensures g != [] ==> o == Done && PrefixesLinked(geohash, nodeCount, rels, g, hashNode, 1)
      ensures Extends(old(geohash), old(nodeCount), geohash, nodeCount)
      ensures OnlyPrefixesAdded(old(geohash), geohash, g)
      ensures OnlyChildOfAdded(old(rels), rels)
      ensures geometry == old(geometry)
    {
      if g == [] {
        return Fail(IndexOutOfBounds);
      }
      var ancestor := g[..|g| - 1];
      var node := hashNode;
      while ancestor != []
        invariant Valid() && node < nodeCount
        invariant |ancestor| < |g| && ancestor == g[..|ancestor|]
        invariant |ancestor| + 1 == |g| ==> node == hashNode
        invariant |ancestor| + 1 < |g| ==> FirstWhere(nodeCount, HasHash(geohash, g[..|ancestor| + 1])) == Some(node)
        invariant PrefixesLinked(geohash, nodeCount, rels, g, hashNode, |ancestor| + 1)
        invariant Extends(old(geohash), old(nodeCount), geohash, nodeCount)
        invariant OnlyPrefixesAdded(old(geohash), geohash, g)
        invariant OnlyChildOfAdded(old(rels), rels)
        invariant geometry == old(geometry)
        decreases |ancestor|
      {
        ghost var hashes0, count0, rels0 := geohash, nodeCount, rels;
        var ancestorNode := LinkAncestor(ancestor, node);
        ExtendsTransitive(old(geohash), old(nodeCount), hashes0, count0, geohash, nodeCount);
        AncestorStep(hashes0, count0, rels0, geohash, nodeCount, rels, g, hashNode, ancestor, node, ancestorNode);
        node := ancestorNode;
        ancestor := ancestor[..|ancestor| - 1];
      }
      return Done;
    }

    /** findClosestDescendantGeohash: the scan over the HashTree nodes in findNodes order. */
    method FindClosestDescendantGeohash(parent: string) returns (d: Option<string>)
      ensures d == ClosestDescendant(geohash, nodeCount, parent)
    {
      if |parent| >= MaxGeohashLength {
        return None;
      }
      var i := 0;
      while i < nodeCount
        invariant i <= nodeCount
        invariant forall n: NodeId :: n < i ==> !HasChildHash(geohash, parent)(n)
      {
        if i in geohash && IsChildHash(parent, geohash[i]) {
          FirstWhereIs(nodeCount, HasChildHash(geohash, parent), i);
          return Some(geohash[i]);
        }
        i := i + 1;
      }
      return None;
    }

    /** manageDescendantRelationship: link hashNode with the node of its closest descendant, if any. */
    method ManageDescendantRelationship(hashNode: NodeId, g: string)
      requires Valid() && hashNode < nodeCount
      modifies this
      ensures Valid()
      ensures nodeCount == old(nodeCount) && geohash == old(geohash) && geometry == old(geometry)
      ensures old(ClosestDescendantNode(geohash, nodeCount, g)).None? ==> rels == old(rels)
      ensures old(ClosestDescendantNode(geohash, nodeCount, g)).Some? ==>
                rels == CreateOrSkip(old(rels), hashNode, old(ClosestDescendantNode(geohash, nodeCount, g)).value, CHILD_OF)
    {
      var closest := FindClosestDescendantGeohash(g);
      if closest.Some? {
        DescendantFoundAgain(geohash, nodeCount, g);
        var descendant := FindOrCreateHashNode(closest.value);
        CreateOrSkipRelationship(hashNode, descendant, CHILD_OF);
      }
    }

    /**
     * setHashTree, given the geometry node and its generated geohash: the HashTree node of
     * the geohash, INDEX_OF-linked from the geometry node, with its ancestors and its
     * closest descendant linked.
     */
    method SetHashTree(geometryNode: NodeId, g: string) returns (r: Result<NodeId>)
      requires Valid() && geometryNode < nodeCount
      modifies this
      ensures Valid()
      ensures g == [] <==> r.Err?
      ensures r.Err? ==> r.error == IndexOutOfBounds
      ensures r.Ok? ==> r.value in geohash && geohash[r.value] == g
      ensures r.Ok? ==> Linked(rels, geometryNode, r.value, INDEX_OF)
      ensures r.Ok? ==> PrefixesLinked(geohash, nodeCount, rels, g, r.value, 1)
      ensures r.Ok? && ClosestDescendantNode(geohash, nodeCount, g).Some? ==>
                Linked(rels, r.value, ClosestDescendantNode(geohash, nodeCount, g).value, CHILD_OF)
      ensures old(rels) <= rels && Extends(old(geohash), old(nodeCount), geohash, nodeCount)
      ensures geometry == old(geometry)
    {
      var hashNode := FindOrCreateHashNode(g);
      ghost var hashes0, count0 := geohash, nodeCount;
      CreateOrSkipRelationship(geometryNode, hashNode, INDEX_OF);
      ghost var rels1 := rels;
      var o := ManageAncestorRelationship(hashNode, g);
      if o.Fail? {
        return Err(o.error);
      }
      ghost var hashes2, count2, rels2 := geohash, nodeCount, rels;
      ManageDescendantRelationship(hashNode, g);
      forall k | 1 <= k < |g|
        ensures PrefixLinked(geohash, nodeCount, rels, g, hashNode, k)
      {
        PrefixLinkedStable(hashes2, count2, rels2, geohash, nodeCount, rels, g, hashNode, k);
      }
      LinkedGrows(rels1, rels, geometryNode, hashNode, INDEX_OF);
      ExtendsTransitive(old(geohash), old(nodeCount), hashes0, count0, geohash, nodeCount);
      return Ok(hashNode);
    }
  }

  // ------------------------------------------------------------------ checkNear

  /** A geohash: every character from the base-32 alphabet. */
  predicate IsGeohash(s: string)
  {
    forall i :: 0 <= i < |s| ==> s[i] in Base32
  }

  /** The alphabet has 32 distinct characters and leaves out a, i, l and o. */
  lemma Base32Alphabet()
    ensures |Base32| == 32
    ensures forall i :: 0 <= i < |Base32| ==> Base32[i] != 'a' && Base32[i] != 'i' && Base32[i] != 'l' && Base32[i] != 'o'
  {
  }

  /**
   * checkNear on two geohash strings: false for different lengths or different prefixes
   * without the last character, else whether g2's last character is in the alphabet. The
   * substring(0, -1) of two empty geohashes throws.
   */
  function Near(g1: string, g2: string): Result<bool>
  {
    if |g1| != |g2| then Ok(false)
    else if |g1| == 0 then Err(IndexOutOfBounds)
    else if g1[..|g1| - 1] != g2[..|g2| - 1] then Ok(false)
    else Ok(g2[|g2| - 1] in Base32)
  }

  /** Given g1's parent cell, g2 is near g1 exactly when it is a cell of the same parent. */
  lemma NearSameParent(parent: string, g1: string, g2: string)
    requires IsChildHash(parent, g1)
    ensures Near(g1, g2) == Ok(IsChildHash(parent, g2) && g2[|g2| - 1] in Base32)
  {
    assert g1[..|g1| - 1] == parent;
    if |g2| == |g1| {
      assert g2[..|g2| - 1] == g2[..|parent|];
    }
  }

  /** On geohashes nearness is symmetric, and every non-empty geohash is near itself. */
  lemma NearSymmetric(g1: string, g2: string)
    requires IsGeohash(g1) && IsGeohash(g2)
    ensures Near(g1, g2) == Near(g2, g1)
    ensures g1 != [] ==> Near(g1, g1) == Ok(true)
  {
  }

  /** checkNear on two nodes: each must carry the geohash property. */
  function NearNodes(hashes: map<NodeId, string>, n1: NodeId, n2: NodeId): Result<bool>
  {
    if n1 !in hashes || n2 !in hashes then Err(NotFound) else Near(hashes[n1], hashes[n2])
  }

  /** checkNear, with its loop over the possible last characters. */
  method CheckNear(hashes: map<NodeId, string>, geohashNode1: NodeId, geohashNode2: NodeId) returns (r: Result<bool>)
    ensures r == NearNodes(hashes, geohashNode1, geohashNode2)
  {
    if geohashNode1 !in hashes || geohashNode2 !in hashes {
      return Err(NotFound);
    }
    var g1, g2 := hashes[geohashNode1], hashes[geohashNode2];
    if |g1| != |g2| {
      return Ok(false);
    }
    if |g1| == 0 {
      return Err(IndexOutOfBounds);
    }
    if g1[..|g1| - 1] != g2[..|g2| - 1] {
      return Ok(false);
    }
    var last := g2[|g2| - 1];
    for i := 0 to |Base32|
      invariant forall j :: 0 <= j < i ==> Base32[j] != last
    {
      if Base32[i] == last {
        return Ok(true);
      }
    }
    return Ok(false);
  }

  // ------------------------------------------------------------------ checkDescendant

  /** A walk along CHILD_OF relationships, each taken in either direction. */
  ghost predicate Walk(rels: seq<Relationship>, p: seq<NodeId>)
  {
    forall i :: 0 <= i < |p| - 1 ==> Linked(rels, p[i], p[i + 1], CHILD_OF)
  }

  /** b is a walks of zero or more steps away from a. */
  ghost predicate ReachableFrom(rels: seq<Relationship>, a: NodeId, b: NodeId)
  {
    exists p :: Walk(rels, p) && |p| >= 1 && p[0] == a && p[|p| - 1] == b
  }

  /** b is a walk of one or more steps away from a. */
  ghost predicate Reachable(rels: seq<Relationship>, a: NodeId, b: NodeId)
  {
    exists p :: Walk(rels, p) && |p| >= 2 && p[0] == a && p[|p| - 1] == b
  }

  /** One more step extends a walk. */
  lemma WalkStep(rels: seq<Relationship>, a: NodeId, b: NodeId, c: NodeId)
    requires ReachableFrom(rels, a, b) && Linked(rels, b, c, CHILD_OF)
    ensures Reachable(rels, a, c) && ReachableFrom(rels, a, c)
  {
    var p :| Walk(rels, p) && |p| >= 1 && p[0] == a && p[|p| - 1] == b;
    var q := p + [c];
    forall i | 0 <= i < |q| - 1
      ensures Linked(rels, q[i], q[i + 1], CHILD_OF)
    {
      if i + 1 < |p| {
        assert q[i] == p[i] && q[i + 1] == p[i + 1];
      } else {
        assert q[i] == b && q[i + 1] == c;
      }
    }
    assert Walk(rels, q);
  }

  /** Walks can be taken backwards: reachability is symmetric. */
  lemma ReachableSymmetric(rels: seq<Relationship>, a: NodeId, b: NodeId)
    requires Reachable(rels, a, b)
    ensures Reachable(rels, b, a)
  {
    var p :| Walk(rels, p) && |p| >= 2 && p[0] == a && p[|p| - 1] == b;
    var n := |p|;
    var q := seq(n, i requires 0 <= i < n => p[n - 1 - i]);
    forall i | 0 <= i < n - 1
      ensures Linked(rels, q[i], q[i + 1], CHILD_OF)
    {
      assert Linked(rels, p[n - 2 - i], p[n - 1 - i], CHILD_OF);
      LinkedSymmetric(rels, p[n - 2 - i], p[n - 1 - i], CHILD_OF);
    }
    assert Walk(rels, q);
  }

  /** Every CHILD_OF neighbour of a node in S is in S and is not child. */
  ghost predicate Closed(rels: seq<Relationship>, s: set<NodeId>, child: NodeId)
  {
    forall v, w :: v in s && Linked(rels, v, w, CHILD_OF) ==> w in s && w != child
  }

  lemma {:induction false} WalkStaysIn(rels: seq<Relationship>, s: set<NodeId>, child: NodeId, p: seq<NodeId>, i: nat)
    requires Closed(rels, s, child) && Walk(rels, p) && |p| >= 1 && p[0] in s && i < |p|
    ensures p[i] in s
  {
    if i > 0 {
      WalkStaysIn(rels, s, child, p, i - 1);
      assert Linked(rels, p[i - 1], p[i], CHILD_OF);
    }
  }

  /** No walk leaves a closed set, and none of its steps lands on child. */
  lemma ClosedUnreachable(rels: seq<Relationship>, s: set<NodeId>, parent: NodeId, child: NodeId)
    requires Closed(rels, s, child) && parent in s
    ensures !Reachable(rels, parent, child)
  {
    if Reachable(rels, parent, child) {
      var p :| Walk(rels, p) && |p| >= 2 && p[0] == parent && p[|p| - 1] == child;
      WalkStaysIn(rels, s, child, p, |p| - 2);
      assert false;
    }
  }

  /** The other nodes of v's CHILD_OF relationships, in relationship order. */
  function Neighbours(rels: seq<Relationship>, v: NodeId): (r: seq<NodeId>)
    ensures forall w :: w in r <==> Linked(rels, v, w, CHILD_OF)
  {
    if rels == [] then []
    else
      var front, last := rels[..|rels| - 1], rels[|rels| - 1];
      var r := Neighbours(front, v) + (if last.relType == CHILD_OF && Touches(last, v) then [Other(last, v)] else []);
      forall w
        ensures w in r <==> Linked(rels, v, w, CHILD_OF)
      {
        if Linked(rels, v, w, CHILD_OF) {
          var i :| 0 <= i < |rels| && Links(rels[i], v, w, CHILD_OF);
          if i < |front| {
            assert Links(front[i], v, w, CHILD_OF);
          }
        }
        if w in Neighbours(front, v) {
          var i :| 0 <= i < |front| && Links(front[i], v, w, CHILD_OF);
          assert Links(rels[i], v, w, CHILD_OF);
        }
        if w !in Neighbours(front, v) && w in r {
          assert Links(rels[|rels| - 1], v, w, CHILD_OF);
        }
      }
      r
  }

  /** The nodes a search can meet: the start and the ends of the relationships. */
  ghost function Endpoints(rels: seq<Relationship>, start: NodeId): set<NodeId>
  {
    {start} + (set i | 0 <= i < |rels| :: rels[i].start) + (set i | 0 <= i < |rels| :: rels[i].end)
  }

  lemma NeighboursEndpoints(rels: seq<Relationship>, start: NodeId, v: NodeId, w: NodeId)
    requires Linked(rels, v, w, CHILD_OF)
    ensures w in Endpoints(rels, start)
  {
    var i :| 0 <= i < |rels| && Links(rels[i], v, w, CHILD_OF);
    assert rels[i].start in Endpoints(rels, start) && rels[i].end in Endpoints(rels, start);
  }

  /**
   * The for loop of checkDescendant over current's CHILD_OF relationships: it stops at the
   * first neighbour that is childNode, and otherwise queues every neighbour.
   */
  method FollowChildOf(rels: seq<Relationship>, current: NodeId, childNode: NodeId, queue: seq<NodeId>)
    returns (found: bool, queue2: seq<NodeId>)
    ensures found <==> childNode in Neighbours(rels, current)
    ensures !found ==> queue2 == queue + Neighbours(rels, current)
  {
    queue2 := queue;
    var i := 0;
    while i < |rels|
      invariant i <= |rels|
      invariant queue2 == queue + Neighbours(rels[..i], current)
      invariant childNode !in Neighbours(rels[..i], current)
    {
      assert rels[..i + 1][..i] == rels[..i];
      var r := rels[i];
      if r.relType == CHILD_OF && Touches(r, current) {
        var possibleChild := Other(r, current);
        if possibleChild == childNode {
          assert childNode in Neighbours(rels[..i + 1], current);
          assert Links(rels[..i + 1][i], current, childNode, CHILD_OF);
          assert Links(rels[i], current, childNode, CHILD_OF);
          return true, queue2;
        }
        queue2 := queue2 + [possibleChild];
      }
      i := i + 1;
    }
    assert rels[..|rels|] == rels;
    return false, queue2;
  }

  /** Every neighbour of a visited node has been seen and is not child. */
  ghost predicate Expanded(rels: seq<Relationship>, visited: set<NodeId>, queue: seq<NodeId>, child: NodeId)
  {
    forall v, w :: v in visited && Linked(rels, v, w, CHILD_OF) ==> w != child && (w in visited || w in queue)
  }

  /** Visiting current: its neighbours join the queue, which keeps the search's invariants. */
  lemma VisitStep(rels: seq<Relationship>, parent: NodeId, child: NodeId, visited0: set<NodeId>,
                  current: NodeId, queue0: seq<NodeId>, queue: seq<NodeId>)
    requires queue0 != [] && queue0[0] == current
    requires queue == queue0[1..] + Neighbours(rels, current) && child !in Neighbours(rels, current)
    requires forall j :: 0 <= j < |queue0| ==> queue0[j] in Endpoints(rels, parent) && ReachableFrom(rels, parent, queue0[j])
    requires Expanded(rels, visited0, queue0, child)
    ensures forall j :: 0 <= j < |queue| ==> queue[j] in Endpoints(rels, parent) && ReachableFrom(rels, parent, queue[j])
    ensures Expanded(rels, visited0 + {current}, queue, child)
  {
    var ns := Neighbours(rels, current);
    forall j | 0 <= j < |queue|
      ensures queue[j] in Endpoints(rels, parent) && ReachableFrom(rels, parent, queue[j])
    {
      if j < |queue0| - 1 {
        assert queue[j] == queue0[j + 1];
      } else {
        assert queue[j] == ns[j - (|queue0| - 1)];
        assert queue[j] in ns;
        NeighboursEndpoints(rels, parent, current, queue[j]);
        WalkStep(rels, parent, current, queue[j]);
      }
    }
    assert forall x :: x in queue0 ==> x == current || x in queue;
  }

  /**
   * checkDescendant: a breadth-first search from parentNode with a visited set, over
   * CHILD_OF relationships in either direction; true once a neighbour is childNode.
   */
  method CheckDescendant(rels: seq<Relationship>, parentNode: NodeId, childNode: NodeId) returns (found: bool)
    ensures found <==> Reachable(rels, parentNode, childNode)
  {
    ghost var universe := Endpoints(rels, parentNode);
    var visited: set<NodeId> := {};
    var queue: seq<NodeId> := [parentNode];
    assert Walk(rels, [parentNode]);
    while queue != []
      invariant visited <= universe && forall j :: 0 <= j < |queue| ==> queue[j] in universe
      invariant parentNode in visited || parentNode in queue
      invariant forall x :: x in visited ==> ReachableFrom(rels, parentNode, x)
      invariant forall j :: 0 <= j < |queue| ==> ReachableFrom(rels, parentNode, queue[j])
      invariant Expanded(rels, visited, queue, childNode)
      decreases universe - visited, |queue|
    {
      var current := queue[0];
      ghost var queue0 := queue;
      queue := queue[1..];
      assert queue0 == [current] + queue;
      if current in visited {
        continue;
      }
      ghost var visited0 := visited;
      visited := visited + {current};
      var hit;
      hit, queue := FollowChildOf(rels, current, childNode, queue);
      if hit {
        WalkStep(rels, parentNode, current, childNode);
        return true;
      }
      VisitStep(rels, parentNode, childNode, visited0, current, queue0, queue);
    }
    ClosedUnreachable(rels, visited, parentNode, childNode);
    return false;
  }

  // ------------------------------------------------------------------ checkGeoHashRelation

  /** The operation names checkGeoHashRelation answers with nearness or descent in either direction. */
  predicate IsNearOperation(name: string)
  {
    name == "CROSSES" || name == "OVERLAPS" || name == "TOUCHES" || name == "INTERSECTS" || name == "DISJOINT"
  }

  /**
   * checkGeoHashRelation: the same geohash node for EQUALS; the same node or a walk from
   * node1 to node2 for CONTAINS/COVERS, from node2 to node1 for WITHIN/COVERED_BY; the same
   * node, near, or a walk either way for the five others. Any other name is an
   * IllegalArgumentException; checkNear is reached only when the nodes differ.
   */
  ghost function Relation(rels: seq<Relationship>, hashes: map<NodeId, string>,
                          node1: NodeId, node2: NodeId, name: string): Result<bool>
  {
    if name == "EQUALS" then Ok(node1 == node2)
    else if name == "CONTAINS" || name == "COVERS" then Ok(node1 == node2 || Reachable(rels, node1, node2))
    else if name == "WITHIN" || name == "COVERED_BY" then Ok(node1 == node2 || Reachable(rels, node2, node1))
    else if IsNearOperation(name) then
      if node1 == node2 then Ok(true)
      else
        match NearNodes(hashes, node1, node2)
        case Err(e) => Err(e)
        case Ok(near) => Ok(near || Reachable(rels, node1, node2) || Reachable(rels, node2, node1))
    else Err(IllegalArgument)
  }

  /**
   * Since walks go both ways, CONTAINS and WITHIN give the same answer on every pair: the
   * search finds connection in the hierarchy, not descent.
   */
  lemma ContainsIsWithin(rels: seq<Relationship>, hashes: map<NodeId, string>, node1: NodeId, node2: NodeId)
    ensures Relation(rels, hashes, node1, node2, "CONTAINS") == Relation(rels, hashes, node1, node2, "WITHIN")
    ensures Relation(rels, hashes, node1, node2, "CONTAINS") == Relation(rels, hashes, node2, node1, "CONTAINS")
  {
    if Reachable(rels, node1, node2) {
      ReachableSymmetric(rels, node1, node2);
    }
    if Reachable(rels, node2, node1) {
      ReachableSymmetric(rels, node2, node1);
    }
  }

  /** The same geohash node is related under every operation name, and only those ten are accepted. */
  lemma SameNodeRelated(rels: seq<Relationship>, hashes: map<NodeId, string>, node: NodeId, name: string)
    ensures Relation(rels, hashes, node, node, name) ==
            if name in ["EQUALS", "CONTAINS", "COVERS", "WITHIN", "COVERED_BY",
                        "CROSSES", "OVERLAPS", "TOUCHES", "INTERSECTS", "DISJOINT"]
            then Ok(true) else Err(IllegalArgument)
  {
  }

  /** Whatever CONTAINS accepts, INTERSECTS accepts too, unless checkNear throws first. */
  lemma ContainsIntersects(rels: seq<Relationship>, hashes: map<NodeId, string>, node1: NodeId, node2: NodeId)
    requires Relation(rels, hashes, node1, node2, "CONTAINS") == Ok(true)
    ensures Relation(rels, hashes, node1, node2, "INTERSECTS") == Ok(true) ||
            Relation(rels, hashes, node1, node2, "INTERSECTS") == NearNodes(hashes, node1, node2)
  {
  }

  /** checkGeoHashRelation, with the searches and the near check as its switch calls them. */
  method CheckGeoHashRelation(rels: seq<Relationship>, hashes: map<NodeId, string>,
                              node1: NodeId, node2: NodeId, operationName: string) returns (r: Result<bool>)
    ensures r == Relation(rels, hashes, node1, node2, operationName)
  {
    if operationName == "EQUALS" {
      return Ok(node1 == node2);
    } else if operationName == "CONTAINS" || operationName == "COVERS" {
      if node1 == node2 {
        return Ok(true);
      }
      var d := CheckDescendant(rels, node1, node2);
      return Ok(d);
    } else if operationName == "WITHIN" || operationName == "COVERED_BY" {
      if node1 == node2 {
        return Ok(true);
      }
      var d := CheckDescendant(rels, node2, node1);
      return Ok(d);
    } else if IsNearOperation(operationName) {
      if node1 == node2 {
        return Ok(true);
      }
      var near := CheckNear(hashes, node1, node2);
      if near.Err? {
        return Err(near.error);
      }
      if near.value {
        return Ok(true);
      }
      var d1 := CheckDescendant(rels, node1, node2);
      if d1 {
        return Ok(true);
      }
      var d2 := CheckDescendant(rels, node2, node1);
      return Ok(d2);
    } else {
      return Err(IllegalArgument);
    }
  }

  // ------------------------------------------------------------------ findHashRelation

  /** findGeohashNode: the other node of node's first INDEX_OF relationship, if it has one. */
  function GeohashNodeOf(rels: seq<Relationship>, node: NodeId): (r: Option<NodeId>)
    ensures r.Some? ==> Linked(rels, node, r.value, INDEX_OF)
    ensures r.None? ==> forall i :: 0 <= i < |rels| ==> !(rels[i].relType == INDEX_OF && Touches(rels[i], node))
  {
    if rels == [] then None
    else if rels[0].relType == INDEX_OF && Touches(rels[0], node) then
      assert Links(rels[0], node, Other(rels[0], node), INDEX_OF);
      Some(Other(rels[0], node))
    else
      var r := GeohashNodeOf(rels[1..], node);
      if r.Some? then
        var i :| 0 <= i < |rels[1..]| && Links(rels[1..][i], node, r.value, INDEX_OF);
        assert Links(rels[i + 1], node, r.value, INDEX_OF);
        r
      else
        assert forall i :: 1 <= i < |rels| ==> rels[i] == rels[1..][i - 1];
        r
  }

  /** findGeohashNode, the loop returning at the first INDEX_OF relationship. */
  method FindGeohashNode(rels: seq<Relationship>, node: NodeId) returns (r: Option<NodeId>)
    ensures r == GeohashNodeOf(rels, node)
  {
    var i := 0;
    while i < |rels|
      invariant i <= |rels|
      invariant GeohashNodeOf(rels[i..], node) == GeohashNodeOf(rels, node)
    {
      assert rels[i..][1..] == rels[i + 1..];
      if rels[i].relType == INDEX_OF && Touches(rels[i], node) {
        return Some(Other(rels[i], node));
      }
      i := i + 1;
    }
    return None;
  }

  /** A procedure argument: a node, the geometry parsed from a WKT string, a boolean, null, or something else. */
  datatype Arg = NodeArg(node: NodeId) | GeometryArg(wkt: string) | BoolArg(b: bool) | NullArg | OtherArg

  /** The (Node) cast: a node, null, or a ClassCastException. */
  function AsNode(a: Arg): (r: Result<Option<NodeId>>)
    ensures r.Ok? <==> a.NodeArg? || a.NullArg?
    ensures r.Ok? && r.value.Some? <==> a.NodeArg?
    ensures a.NodeArg? ==> r == Ok(Some(a.node))
  {
    match a
    case NodeArg(n) => Ok(Some(n))
    case NullArg => Ok(None)
    case _ => Err(ClassCast)
  }

  /** getProperty("geometry"): a NullPointerException on null, a NotFoundException when absent. */
  function GeometryOf(geometries: map<NodeId, string>, node: Option<NodeId>): (r: Result<string>)
    ensures r.Ok? <==> node.Some? && node.value in geometries
    ensures r.Ok? ==> r.value == geometries[node.value]
    ensures node.None? ==> r == Err(NullPointer)
  {
    if node.None? then Err(NullPointer)
    else if node.value !in geometries then Err(NotFound)
    else Ok(geometries[node.value])
  }

  /**
   * findHashRelation: at least two arguments, both nodes; their geometries replace them,
   * and when both have geohash nodes that are unrelated under the upper-cased operation
   * name, false is inserted at index 2.
   */
  ghost function HashRelation(rels: seq<Relationship>, hashes: map<NodeId, string>, geometries: map<NodeId, string>,
                              args: seq<Arg>, operationName: string): (r: Result<seq<Arg>>)
    ensures |args| < 2 ==> r == Err(IllegalArgument)
    ensures r.Ok? ==> |args| >= 2 && args[0].NodeArg? && args[1].NodeArg? &&
                      args[0].node in geometries && args[1].node in geometries
    ensures r.Ok? ==> |r.value| >= 2 &&
                      r.value[0] == GeometryArg(geometries[args[0].node]) &&
                      r.value[1] == GeometryArg(geometries[args[1].node])
    ensures r.Ok? ==> (|r.value| == |args| + 1 <==>
                         GeohashNodeOf(rels, args[0].node).Some? && GeohashNodeOf(rels, args[1].node).Some? &&
                         Relation(rels, hashes, GeohashNodeOf(rels, args[0].node).value,
                                  GeohashNodeOf(rels, args[1].node).value,
                                  JoinOperations.ToUpper(operationName)) == Ok(false))
    ensures r.Ok? && |r.value| == |args| + 1 ==> r.value[2] == BoolArg(false) && r.value[3..] == args[2..]
    ensures r.Ok? && |r.value| != |args| + 1 ==> r.value[2..] == args[2..]
  {
    if |args| < 2 then Err(IllegalArgument)
    else
      match AsNode(args[0])
      case Err(e) => Err(e)
      case Ok(node1) =>
        match AsNode(args[1])
        case Err(e) => Err(e)
        case Ok(node2) =>
          match GeometryOf(geometries, node1)
          case Err(e) => Err(e)
          case Ok(wkt1) =>
            match GeometryOf(geometries, node2)
            case Err(e) => Err(e)
            case Ok(wkt2) =>
              var replaced := args[0 := GeometryArg(wkt1)][1 := GeometryArg(wkt2)];
              var h1, h2 := GeohashNodeOf(rels, node1.value), GeohashNodeOf(rels, node2.value);
              if h1.None? || h2.None? then Ok(replaced)
              else
                match Relation(rels, hashes, h1.value, h2.value, JoinOperations.ToUpper(operationName))
                case Err(e) => Err(e)
                case Ok(related) =>
                  if related then Ok(replaced) else Ok(replaced[..2] + [BoolArg(false)] + replaced[2..])
  }

  /** A pair that is not both nodes never reaches the geohash check. */
  lemma NonNodeRejected(rels: seq<Relationship>, hashes: map<NodeId, string>, geometries: map<NodeId, string>,
                        args: seq<Arg>, operationName: string)
    requires |args| >= 2 && !args[0].NodeArg?
    ensures HashRelation(rels, hashes, geometries, args, operationName) ==
            Err(if args[0].NullArg? then (if args[1].NodeArg? || args[1].NullArg? then NullPointer else ClassCast) else ClassCast)
  {
  }

  /** findHashRelation, with findGeohashNode and checkGeoHashRelation as it calls them. */
  method FindHashRelation(rels: seq<Relationship>, hashes: map<NodeId, string>, geometries: map<NodeId, string>,
                          args: seq<Arg>, operationName: string) returns (r: Result<seq<Arg>>)
    ensures r == HashRelation(rels, hashes, geometries, args, operationName)
  {
    if |args| < 2 {
      return Err(IllegalArgument);
    }
    var node1 := AsNode(args[0]);
    if node1.Err? {
      return Err(node1.error);
    }
    var node2 := AsNode(args[1]);
    if node2.Err? {
      return Err(node2.error);
    }
    var wkt1 := GeometryOf(geometries, node1.value);
    if wkt1.Err? {
      return Err(wkt1.error);
    }
    var wkt2 := GeometryOf(geometries, node2.value);
    if wkt2.Err? {
      return Err(wkt2.error);
    }
    var result := args[0 := GeometryArg(wkt1.value)][1 := GeometryArg(wkt2.value)];
    var geohashNode1 := FindGeohashNode(rels, node1.value.value);
    var geohashNode2 := FindGeohashNode(rels, node2.value.value);
    if geohashNode1.None? || geohashNode2.None? {
      return Ok(result);
    }
    var related := CheckGeoHashRelation(rels, hashes, geohashNode1.value, geohashNode2.value,
                                        JoinOperations.ToUpper(operationName));
    if related.Err? {
      return Err(related.error);
    }
    if !related.value {
      result := result[..2] + [BoolArg(false)] + result[2..];
    }
    return Ok(result);
  }
}
