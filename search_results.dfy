/**
 * SearchResults: the nodes a traversal yields, with their count computed once on demand.
 * The underlying Iterable is the sequence of nodes it yields; it yields the same nodes each
 * time it is iterated.
 */
module SearchResultsModel {
  import opened Wrappers
  import opened Graph
  import RecordCounter

  class SearchResults {
    const traverser: seq<Node>
    /** -1 until count() has run. */
    var count: int

    constructor (traverser: seq<Node>)
      ensures this.traverser == traverser && count == -1
    {
      this.traverser := traverser;
      count := -1;
    }

    /** iterator(): the wrapped traversal's nodes. */
    method Iterator() returns (nodes: seq<Node>)
      ensures nodes == traverser
    {
      nodes := traverser;
    }

    /**
     * count(): the first call counts the nodes, as an int, and stores the count; later calls
     * return it without iterating. A count that wrapped to a negative value is counted again.
     */
    method Count() returns (n: int)
      modifies this
      ensures old(count) < 0 ==> n == ToInt32(|traverser|) && count == n
      ensures old(count) >= 0 ==> n == old(count) && count == old(count)
      ensures |traverser| < 0x8000_0000 ==> count >= 0 && (old(count) < 0 ==> n == |traverser|)
    {
      if count < 0 {
        count := 0;
        var nodes := Iterator();
        for i := 0 to |nodes|
          invariant count == RecordCounter.Increments(i)
        {
          count := ToInt32(count + 1);
        }
        RecordCounter.IncrementsCount(|nodes|);
      }
      n := count;
    }
  }

  /** Counting twice gives the same answer, and the second time nothing changes. */
  method CountTwice(traverser: seq<Node>) returns (first: int, second: int)
    ensures first == second == ToInt32(|traverser|)
  {
    var results := new SearchResults(traverser);
    first := results.Count();
    second := results.Count();
  }
}
