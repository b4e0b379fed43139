/**
 * RTreeMonitor: counters of splits and rebuilds, the height at which a geometry last
 * matched, a count per case label, and per tree level the index nodes a query matched.
 * Counters are Java ints, so an increment wraps at 2^31.
 */
module Monitor {
  import opened Wrappers
  import opened Graph

  /** The levels list after ensureMatchedTreeNodeLevel: padded with empty lists up to index level. */
  function PaddedTo(levels: seq<seq<Node>>, level: nat): (r: seq<seq<Node>>)
    ensures |r| == if |levels| > level then |levels| else level + 1
    ensures r[..|levels|] == levels
    ensures forall i :: |levels| <= i < |r| ==> r[i] == []
  {
    if |levels| > level then levels else levels + seq(level + 1 - |levels|, _ => [])
  }

  /** The case counts after addCase(key): 1 for a new key, one more (as an int) otherwise. */
  function CountCase(cases: map<string, int>, key: string): (r: map<string, int>)
    ensures r.Keys == cases.Keys + {key}
    ensures key in cases ==> r[key] == ToInt32(cases[key] + 1)
    ensures key !in cases ==> r[key] == 1
    ensures forall k :: k in cases && k != key ==> r[k] == cases[k]
  {
    cases[key := if key in cases then ToInt32(cases[key] + 1) else 1]
  }

  /** Padding is idempotent and never shrinks the list. */
  lemma PaddedIdempotent(levels: seq<seq<Node>>, level: nat, other: nat)
    ensures PaddedTo(PaddedTo(levels, level), level) == PaddedTo(levels, level)
    ensures other <= level ==> PaddedTo(PaddedTo(levels, level), other) == PaddedTo(levels, level)
  {
  }

  /** Counting the same key twice from no count gives 2; other keys are untouched. */
  lemma CountCaseTwice(cases: map<string, int>, key: string, other: string)
    requires key !in cases && other != key
    ensures CountCase(CountCase(cases, key), key)[key] == 2
    ensures other in cases ==> CountCase(CountCase(cases, key), key)[other] == cases[other]
  {
  }

  class RTreeMonitor {
    var nbrSplit: int
    var height: int
    var nbrRebuilt: int
    var cases: map<string, int>
    var matchedTreeNodes: seq<seq<Node>>

    /** The constructor calls reset(). */
    constructor ()
      ensures nbrSplit == 0 && height == 0 && nbrRebuilt == 0
      ensures cases == map[] && matchedTreeNodes == []
    {
      nbrSplit, height, nbrRebuilt := 0, 0, 0;
      cases, matchedTreeNodes := map[], [];
    }

    method SetHeight(h: int)
      modifies this
      ensures height == h
      ensures nbrSplit == old(nbrSplit) && nbrRebuilt == old(nbrRebuilt)
      ensures cases == old(cases) && matchedTreeNodes == old(matchedTreeNodes)
    {
      height := h;
    }

    method GetHeight() returns (h: int)
      ensures h == height
    {
      h := height;
    }

    method AddNbrRebuilt()
      modifies this
      ensures nbrRebuilt == ToInt32(old(nbrRebuilt) + 1)
      ensures nbrSplit == old(nbrSplit) && height == old(height)
      ensures cases == old(cases) && matchedTreeNodes == old(matchedTreeNodes)
    {
      nbrRebuilt := ToInt32(nbrRebuilt + 1);
    }

    method GetNbrRebuilt() returns (n: int)
      ensures n == nbrRebuilt
    {
      n := nbrRebuilt;
    }

    method AddSplit(indexNode: Node)
      modifies this
      ensures nbrSplit == ToInt32(old(nbrSplit) + 1)
      ensures nbrRebuilt == old(nbrRebuilt) && height == old(height)
      ensures cases == old(cases) && matchedTreeNodes == old(matchedTreeNodes)
    {
      nbrSplit := ToInt32(nbrSplit + 1);
    }

    method GetNbrSplit() returns (n: int)
      ensures n == nbrSplit
    {
      n := nbrSplit;
    }

    method AddCase(key: string)
      modifies this
      ensures cases == CountCase(old(cases), key)
      ensures nbrSplit == old(nbrSplit) && nbrRebuilt == old(nbrRebuilt) && height == old(height)
      ensures matchedTreeNodes == old(matchedTreeNodes)
    {
      var n := if key in cases then ToInt32(cases[key] + 1) else 1;
      cases := cases[key := n];
    }

    method GetCaseCounts() returns (m: map<string, int>)
      ensures m == cases
    {
      m := cases;
    }

    method Reset()
      modifies this
      ensures nbrSplit == 0 && height == 0 && nbrRebuilt == 0
      ensures cases == map[] && matchedTreeNodes == []
    {
      cases := map[];
      height := 0;
      nbrRebuilt := 0;
      nbrSplit := 0;
      matchedTreeNodes := [];
    }

    /** The while loop of ensureMatchedTreeNodeLevel; a negative level adds nothing. */
    method EnsureMatchedTreeNodeLevel(level: int)
      modifies this
      ensures level >= 0 ==> matchedTreeNodes == PaddedTo(old(matchedTreeNodes), level)
      ensures level < 0 ==> matchedTreeNodes == old(matchedTreeNodes)
      ensures nbrSplit == old(nbrSplit) && nbrRebuilt == old(nbrRebuilt) && height == old(height)
      ensures cases == old(cases)
    {
      ghost var start := matchedTreeNodes;
      while |matchedTreeNodes| <= level
        invariant |start| <= |matchedTreeNodes|
        invariant matchedTreeNodes[..|start|] == start
        invariant forall i :: |start| <= i < |matchedTreeNodes| ==> matchedTreeNodes[i] == []
        invariant level >= 0 && |start| <= level ==> |matchedTreeNodes| <= level + 1
        invariant level < 0 || |start| > level ==> matchedTreeNodes == start
        invariant nbrSplit == old(nbrSplit) && nbrRebuilt == old(nbrRebuilt) && height == old(height)
        invariant cases == old(cases)
        decreases level + 1 - |matchedTreeNodes|
      {
        matchedTreeNodes := matchedTreeNodes + [[]];
      }
      if level >= 0 {
        assert matchedTreeNodes == PaddedTo(start, level);
      }
    }

    /** matchedTreeNode(level, node): a negative level fails (ArrayList.get(-1)). */
    method MatchedTreeNode(level: int, node: Node) returns (r: Outcome)
      modifies this
      ensures level < 0 ==> r == Fail(IndexOutOfBounds) && matchedTreeNodes == old(matchedTreeNodes)
      ensures level >= 0 ==>
                r == Done &&
                var padded := PaddedTo(old(matchedTreeNodes), level);
                matchedTreeNodes == padded[level := padded[level] + [node]]
      ensures nbrSplit == old(nbrSplit) && nbrRebuilt == old(nbrRebuilt) && height == old(height)
      ensures cases == old(cases)
    {
      EnsureMatchedTreeNodeLevel(level);
      if level < 0 {
        return Fail(IndexOutOfBounds);
      }
      matchedTreeNodes := matchedTreeNodes[level := matchedTreeNodes[level] + [node]];
      r := Done;
    }

    /** getMatchedTreeNodes(level): pads first, then copies that level's list. */
    method GetMatchedTreeNodes(level: int) returns (r: Result<seq<Node>>)
      modifies this
      ensures level < 0 ==> r == Err(IndexOutOfBounds) && matchedTreeNodes == old(matchedTreeNodes)
      ensures level >= 0 ==>
                matchedTreeNodes == PaddedTo(old(matchedTreeNodes), level) &&
                r == Ok(matchedTreeNodes[level])
      ensures level >= 0 && level < |old(matchedTreeNodes)| ==> r == Ok(old(matchedTreeNodes)[level])
      ensures level >= |old(matchedTreeNodes)| ==> r == Ok([])
      ensures nbrSplit == old(nbrSplit) && nbrRebuilt == old(nbrRebuilt) && height == old(height)
      ensures cases == old(cases)
    {
      EnsureMatchedTreeNodeLevel(level);
      if level < 0 {
        return Err(IndexOutOfBounds);
      }
      r := Ok(matchedTreeNodes[level]);
    }
  }
}
