/**
 * JoinOperationExecutor: the JTS topology predicate a join applies to each candidate
 * geometry pair. The predicates themselves are JTS code and come in as a parameter
 * `holds(op, geometryNode1, geometryNode2)`.
 */
module JoinOperations {
  import opened Wrappers
  import opened Graph
  import opened QueryUtils
  import opened Seqs

  /** JoinOperationExecutor.JoinOperation. */
  datatype JoinOperation =
    | CONTAINS | COVERS | COVERED_BY | CROSSES | DISJOINT
    | EQUALS | INTERSECTS | OVERLAPS | TOUCHES | WITHIN

  /** Enum.name(). */
  function Name(op: JoinOperation): string
  {
    match op
    case CONTAINS => "CONTAINS"
    case COVERS => "COVERS"
    case COVERED_BY => "COVERED_BY"
    case CROSSES => "CROSSES"
    case DISJOINT => "DISJOINT"
    case EQUALS => "EQUALS"
    case INTERSECTS => "INTERSECTS"
    case OVERLAPS => "OVERLAPS"
    case TOUCHES => "TOUCHES"
    case WITHIN => "WITHIN"
  }

  /** Names differ, so an operation is determined by its name. */
  lemma NameInjective(a: JoinOperation, b: JoinOperation)
    ensures Name(a) == Name(b) <==> a == b
  {
    if a != b {
      assert Name(a)[..3] != Name(b)[..3] || Name(a) != Name(b);
    }
  }

  /** String.toUpperCase on the ASCII letters; every other character is kept. */
  function UpperChar(c: char): char
  {
    if 'a' <= c <= 'z' then (c as int - 32) as char else c
  }

  function ToUpper(s: string): (r: string)
    ensures |r| == |s| && forall i :: 0 <= i < |s| ==> r[i] == UpperChar(s[i])
  {
    seq(|s|, i requires 0 <= i < |s| => UpperChar(s[i]))
  }

  /** Every operation name is already upper-case. */
  lemma NameIsUpper(op: JoinOperation)
    ensures ToUpper(Name(op)) == Name(op)
  {
    var n := Name(op);
    forall i | 0 <= i < |n|
      ensures UpperChar(n[i]) == n[i]
    {
    }
  }

  /** isTopologyOperation: some operation's name equals the upper-cased input. */
  predicate IsTopologyOperation(operationName: string)
  {
    exists op: JoinOperation :: Name(op) == ToUpper(operationName)
  }

  /** The ten names are the only ones. */
  lemma NamesListed(name: string)
    requires name !in ["CONTAINS", "COVERS", "COVERED_BY", "CROSSES", "DISJOINT",
                       "EQUALS", "INTERSECTS", "OVERLAPS", "TOUCHES", "WITHIN"]
    ensures forall op: JoinOperation :: Name(op) != name
  {
    forall op: JoinOperation
      ensures Name(op) != name
    {
      match op
      case CONTAINS => case COVERS => case COVERED_BY => case CROSSES => case DISJOINT =>
      case EQUALS => case INTERSECTS => case OVERLAPS => case TOUCHES => case WITHIN =>
    }
  }

  /** JoinOperation.valueOf: the operation with exactly this name. */
  function ValueOf(name: string): (r: Result<JoinOperation>)
    ensures r.Ok? ==> Name(r.value) == name
    ensures (exists op: JoinOperation :: Name(op) == name) ==> r.Ok?
    ensures r.Err? ==> r.error == IllegalArgument
  {
    if name == "CONTAINS" then Ok(CONTAINS)
    else if name == "COVERS" then Ok(COVERS)
    else if name == "COVERED_BY" then Ok(COVERED_BY)
    else if name == "CROSSES" then Ok(CROSSES)
    else if name == "DISJOINT" then Ok(DISJOINT)
    else if name == "EQUALS" then Ok(EQUALS)
    else if name == "INTERSECTS" then Ok(INTERSECTS)
    else if name == "OVERLAPS" then Ok(OVERLAPS)
    else if name == "TOUCHES" then Ok(TOUCHES)
    else if name == "WITHIN" then Ok(WITHIN)
    else
      NamesListed(name);
      Err(IllegalArgument)
  }

  /**
   * The constructor: the upper-cased name must be an operation, and then valueOf looks up
   * the name as given. Both failures are IllegalArgumentException.
   */
  function NewExecutor(operationName: string): (r: Result<JoinOperation>)
    ensures r.Ok? <==> exists op: JoinOperation :: Name(op) == operationName
    ensures r.Ok? ==> Name(r.value) == operationName
    ensures r.Err? ==> r.error == IllegalArgument
  {
    if IsTopologyOperation(operationName) then ValueOf(operationName) else Err(IllegalArgument)
  }

  /** A lower-case spelling passes isTopologyOperation but not valueOf. */
  lemma LowerCaseRejected()
    ensures IsTopologyOperation("intersects")
    ensures NewExecutor("intersects") == Err(IllegalArgument)
  {
    assert ToUpper("intersects") == Name(INTERSECTS);
  }

  /** An upper-cased name is accepted exactly when it spells an operation, in any case. */
  lemma UpperCasedAccepted(operationName: string)
    ensures NewExecutor(ToUpper(operationName)).Ok? <==> IsTopologyOperation(operationName)
    ensures IsTopologyOperation(operationName) ==> Name(NewExecutor(ToUpper(operationName)).value) == ToUpper(operationName)
  {
  }

  /**
   * executeOperation: the pairs whose predicate holds, each as (node1, node2), in order.
   * The parallel stream of the source is modelled sequentially.
   */
  function ExecuteOperation(op: JoinOperation, pairs: seq<GeometryPair>,
                            holds: (JoinOperation, Node, Node) -> bool): (r: seq<JoinOutput>)
    ensures |r| <= |pairs|
    ensures forall o :: o in r <==>
              exists p :: p in pairs && holds(op, p.nwg1.node, p.nwg2.node) && o == JoinOutput(p.nwg1.node, p.nwg2.node)
  {
    if pairs == [] then []
    else
      var last := pairs[|pairs| - 1];
      var front := pairs[..|pairs| - 1];
      assert pairs == front + [last];
      ExecuteOperation(op, front, holds) +
        (if holds(op, last.nwg1.node, last.nwg2.node) then [JoinOutput(last.nwg1.node, last.nwg2.node)] else [])
  }

  /** Each result appears as often as the input pairs behind it whose predicate holds. */
  lemma {:induction false} ExecuteOperationCount(op: JoinOperation, pairs: seq<GeometryPair>,
                                                 holds: (JoinOperation, Node, Node) -> bool, a: Node, b: Node)
    ensures multiset(ExecuteOperation(op, pairs, holds))[JoinOutput(a, b)] ==
            if holds(op, a, b) then |MatchingPairs(pairs, a, b)| else 0
  {
    if pairs != [] {
      var front := pairs[..|pairs| - 1];
      ExecuteOperationCount(op, front, holds, a, b);
    }
  }

  /** The pairs of geometry nodes (a, b) among the input. */
  function MatchingPairs(pairs: seq<GeometryPair>, a: Node, b: Node): seq<GeometryPair>
  {
    if pairs == [] then []
    else
      var last := pairs[|pairs| - 1];
      MatchingPairs(pairs[..|pairs| - 1], a, b) + (if last.nwg1.node == a && last.nwg2.node == b then [last] else [])
  }

  /** What executeOperation makes of one pair: its output when the predicate holds. */
  function OutputOf(op: JoinOperation, holds: (JoinOperation, Node, Node) -> bool): GeometryPair -> seq<JoinOutput>
  {
    (p: GeometryPair) => if holds(op, p.nwg1.node, p.nwg2.node) then [JoinOutput(p.nwg1.node, p.nwg2.node)] else []
  }

  /** executeOperation is a flatMap of OutputOf over the pairs. */
  lemma {:induction false} ExecuteOperationFlat(op: JoinOperation, pairs: seq<GeometryPair>,
                                                holds: (JoinOperation, Node, Node) -> bool)
    ensures ExecuteOperation(op, pairs, holds) == FlatMap(pairs, OutputOf(op, holds))
  {
    if pairs != [] {
      ExecuteOperationFlat(op, pairs[..|pairs| - 1], holds);
    }
  }

  /**
   * The pairs' order decides only the order of the results: permuted pairs give permuted
   * results, as the parallel stream of the source may.
   */
  lemma ExecuteOperationPermutation(op: JoinOperation, pairs1: seq<GeometryPair>, pairs2: seq<GeometryPair>,
                                    holds: (JoinOperation, Node, Node) -> bool)
    requires multiset(pairs1) == multiset(pairs2)
    ensures multiset(ExecuteOperation(op, pairs1, holds)) == multiset(ExecuteOperation(op, pairs2, holds))
  {
    ExecuteOperationFlat(op, pairs1, holds);
    ExecuteOperationFlat(op, pairs2, holds);
    FlatMapPermutation(pairs1, pairs2, OutputOf(op, holds));
  }
}
