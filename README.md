# neo4j-gspatial R-tree query layer, modelled in Dafny

neo4j-gspatial is a Neo4j plugin. It builds R-tree indexes over geometry nodes and answers
window (range), k-nearest-neighbour and spatial-join queries by walking those trees. The
project models the query layer and the primitives it rests on:

- the Envelope classes, as a value type `Boxes.Box` with the reference definitions, and a
  mutable class `Envelopes.Envelope` over two coordinate arrays (`boxes.dfy`,
  `envelopes.dfy`);
- the envelope decoder (`bbox_decoder.dfy`), the search filters (`search_filters.dfy`) and
  the procedure-argument decoding (`arguments.dfy`);
- the graph the queries walk, as a tree datatype (`graph.dfy`), and the helpers of
  QueryUtils (`query_utils.dfy`);
- the level-by-level range query (`range.dfy`) and the earlier traversal-based one
  (`range_old.dfy`);
- the k-nearest-neighbour visitor and query (`knn.dfy`), with a stable sort on distances
  (`sorting.dfy`), and the proof that the query's pruning loses no nearer geometry
  (`knn_complete.dfy`);
- the sweep-based spatial join (`join.dfy`), the earlier nested-loop join
  (`join_old.dfy`) and the topology operation executor (`join_operations.dfy`);
- the geohash hierarchy of HashTreeFunction (`hash_tree.dfy`);
- RTreeMonitor (`rtree_monitor.dfy`), SpatialIndexRecordCounter (`record_counter.dfy`),
  SearchResults (`search_results.dfy`) and RtreeUtility.getMetas (`rtree_utility.dfy`);
- shared wrappers for results, Java int arithmetic (`wrappers.dfy`) and sequence lemmas
  (`seqs.dfy`).

Objects whose fields the Java code updates are classes with `modifies` frames: Envelope,
KnnVisitor, RTreeMonitor, SpatialIndexRecordCounter, SearchResults and the graph that
HashTreeFunction writes. Each loop of the source is a `while` or `for` loop proved
against a specification function, and the properties of that function are lemmas. Java
exceptions are values of `Wrappers.Result`/`Wrappers.Outcome`. Coordinates are reals.
Every Euclidean distance is kept squared: the square root is monotone, so every
comparison the queries make is preserved.

Main results:
- Range: the breadth-first search finds exactly the references a depth-first walk with the
  same pruning finds. On an index whose stored envelopes bound what lies below them, that
  is exactly the references whose envelope meets the search envelope.
- RangeOld: the traversal returns exactly the geometries whose envelope the search
  envelope covers.
- Join: the sweep emits each intersecting pair once, in (list1, list2) orientation, and
  nothing else. The join is complete and sound, the DISJOINT complement is correct, and
  the pin counts balance.
- Knn: with nnDistTemp corrected, the visitor keeps the k nearest of what it is offered.
  On an index whose bboxes bound the geometries below them, query then returns the k
  nearest of all the geometries of the layers, pruned subtrees included. As written, the
  same query can return fewer than k entries while geometries are left over.
- HashTree: checkDescendant is reachability along CHILD_OF links taken in either
  direction.

## Model

| member | source | states |
|---|---|---|
| Boxes.MakeBox | src/main/java/org/neo4j/gspatial/index/Envelope.java:14-20 | the checking constructor succeeds exactly on equal-length bounds with min <= max on every axis, keeps the given coordinates, and otherwise fails with IllegalArgumentException |
| Boxes.Box2DValid | src/main/java/org/neo4j/gspatial/index/Envelope.java:22-24 | the four-argument constructor stores min = [xmin, ymin], max = [xmax, ymax], a 2-D box valid exactly when xmin <= xmax and ymin <= ymax |
| Boxes.IntersectsSymmetric | src/main/java/org/neo4j/gspatial/index/Envelope.java:98-106 | intersects is symmetric |
| Boxes.CoversImpliesIntersects | src/main/java/org/neo4j/gspatial/index/Envelope.java:84-106 | for a valid covered box, covers implies intersects in both argument orders |
| Boxes.IntersectionCovered | src/main/java/org/neo4j/gspatial/index/Envelope.java:276-298 | the max-of-mins / min-of-maxes box of two intersecting valid boxes is valid and covered by both |
| Boxes.IntersectionGreatest | src/main/java/org/neo4j/gspatial/index/Envelope.java:287-294 | every box covered by both inputs is covered by their intersection |
| Boxes.UnionCovers | src/main/java/org/neo4j/gspatial/index/Envelope.java:108-124 | the min-of-mins / max-of-maxes box covers both inputs and is valid when they are |
| Boxes.DistanceZeroIffIntersects | src/main/java/org/neo4j/gspatial/index/Envelope.java:168-187 | the squared box distance is non-negative and zero exactly when the boxes intersect |
| Boxes.PointDistanceZeroIffWithin | src/main/java/org/neo4j/gspatial/index/rtree/Envelope.java:147-159 | the squared point distance is zero exactly when the point lies inside the box on each of its axes |
| Boxes.PointDistanceIsLowerBound | src/main/java/org/neo4j/gspatial/index/rtree/Envelope.java:147-159 | no point inside a box is nearer the query point than the box's point distance |
| Boxes.CoveredAreaBound | src/main/java/org/neo4j/gspatial/index/Envelope.java:208-216 | a box covered by another has a non-negative area no larger than the other's |
| Boxes.IntersectionAreaBound | src/main/java/org/neo4j/gspatial/index/Envelope.java:218-222 | the intersection's area is at most each input's area |
| Boxes.MutualCoverIffSameBounds | src/main/java/org/neo4j/gspatial/index/rtree/filter/SearchEqualEnvelopes.java:13-16 | each box covering the other is the same as equal bounds on every axis |
| Envelopes.Envelope.constructor | src/main/java/org/neo4j/gspatial/index/Envelope.java:14-16 | the new envelope holds fresh copies of the given coordinates |
| Envelopes.Envelope.IsValid | src/main/java/org/neo4j/gspatial/index/Envelope.java:234-242 | true exactly when the lengths agree and min[i] <= max[i] on every axis |
| Envelopes.Envelope.Create | src/main/java/org/neo4j/gspatial/index/Envelope.java:14-20 | a null array fails with NullPointerException; otherwise the envelope is created, on fresh copies, exactly when the bounds are valid, and IllegalArgumentException is thrown when they are not |
| Envelopes.Envelope.Create2D | src/main/java/org/neo4j/gspatial/index/Envelope.java:22-24 | stores [xmin, ymin] and [xmax, ymax]; succeeds exactly when xmin <= xmax and ymin <= ymax |
| Envelopes.Envelope.FromPoint | src/main/java/org/neo4j/gspatial/index/rtree/Envelope.java:26-28 | the point constructor gives a valid point envelope with min = max = p |
| Envelopes.Envelope.Copy | src/main/java/org/neo4j/gspatial/index/Envelope.java:10-12 | the copy constructor gives fresh arrays with the same value, and fails only when the bounds are invalid |
| Envelopes.Envelope.Covers | src/main/java/org/neo4j/gspatial/index/rtree/Envelope.java:50-59 | false on a dimension mismatch; otherwise true exactly when other.min[i] >= min[i] and other.max[i] <= max[i] on every axis |
| Envelopes.Envelope.Contains | src/main/java/org/neo4j/gspatial/index/rtree/Envelope.java:45-48 | contains is covers |
| Envelopes.Envelope.Intersects | src/main/java/org/neo4j/gspatial/index/Envelope.java:98-106 | false on a dimension mismatch; otherwise true exactly when the closed intervals overlap on every axis |
| Envelopes.Envelope.Equals | src/main/java/org/neo4j/gspatial/index/Envelope.java:126-140 | false for null or a different dimension; otherwise true exactly when min and max agree on every axis |
| Envelopes.Envelope.IsPoint | src/main/java/org/neo4j/gspatial/index/Envelope.java:224-232 | true exactly when min[i] == max[i] on every axis |
| Envelopes.Envelope.GetWidth | src/main/java/org/neo4j/gspatial/index/Envelope.java:193-195 | max[d] - min[d], and an index error beyond the dimension |
| Envelopes.Envelope.GetArea | src/main/java/org/neo4j/gspatial/index/Envelope.java:208-216 | the product of the widths of all axes |
| Envelopes.Envelope.Distance | src/main/java/org/neo4j/gspatial/index/Envelope.java:168-187 | 0 for intersecting boxes; otherwise the sum of the squared positive per-axis gaps (the square of the Java value), and an index error when the other box has fewer axes |
| Envelopes.Envelope.BaseIntersection | src/main/java/org/neo4j/gspatial/index/Envelope.java:276-298 | IllegalArgumentException on a dimension mismatch; null exactly when the boxes do not intersect; otherwise a fresh envelope holding the max-of-mins and min-of-maxes |
| Envelopes.Envelope.Intersection | src/main/java/org/neo4j/gspatial/index/rtree/Envelope.java:115-117 | as the base intersection, except that disjoint boxes raise NullPointerException instead of returning null |
| Envelopes.Envelope.Overlap | src/main/java/org/neo4j/gspatial/index/Envelope.java:218-222 | uses the parent-class intersection (Java overload resolution): dimension mismatch raises IllegalArgumentException, disjoint boxes give 0; otherwise 1 when the smaller box is a point, else the intersection's area over the smaller area, with IEEE 0/0 = NaN |
| Envelopes.Envelope.WithSideRatioNotTooSmall | src/main/java/org/neo4j/gspatial/index/Envelope.java:26-46 | a fresh envelope with the same min whose every side shorter than largest side / 100000 is widened to that length |
| Envelopes.SideRatioCovers | src/main/java/org/neo4j/gspatial/index/Envelope.java:26-46 | the widened box keeps min, never shrinks a side, makes every side at least largest side / 100000, and covers the original |
| Envelopes.HighestDiffBounds | src/main/java/org/neo4j/gspatial/index/Envelope.java:29-35 | the first loop's maximum bounds every width and is one of them (or the start value when there are no axes) |
| Envelopes.Envelope.ExpandToInclude | src/main/java/org/neo4j/gspatial/index/Envelope.java:108-124 | IllegalArgumentException and no change on a dimension mismatch; otherwise, in place, min becomes the min-of-mins and max the max-of-maxes |
| Envelopes.Envelope.ScaleBy | src/main/java/org/neo4j/gspatial/index/rtree/Envelope.java:61-69 | every min stays and every max becomes min + width * factor |
| Envelopes.ScaledWidths | src/main/java/org/neo4j/gspatial/index/rtree/Envelope.java:67-69 | each scaled width is the old width times the factor |
| Envelopes.ScaledValid | src/main/java/org/neo4j/gspatial/index/rtree/Envelope.java:61-69 | a non-negative factor keeps the box valid; a factor of at most 1 shrinks it inside the original and one of at least 1 grows it around it |
| Envelopes.Envelope.ShiftBy | src/main/java/org/neo4j/gspatial/index/rtree/Envelope.java:71-75 | the offset is added to min and max on every axis |
| Envelopes.ShiftPreserves | src/main/java/org/neo4j/gspatial/index/rtree/Envelope.java:71-75 | shifting keeps every width and validity, and keeps intersects and covers between two boxes shifted alike |
| Envelopes.ShiftRoundTrip | src/main/java/org/neo4j/gspatial/index/rtree/Envelope.java:71-80 | shifting by o and then by -o restores the box |
| Envelopes.Envelope.ShiftByAxis | src/main/java/org/neo4j/gspatial/index/rtree/Envelope.java:77-80 | the offset is added to min[d] and max[d] only; an axis beyond the dimension is an index error |
| Envelopes.ShiftAxisOnly | src/main/java/org/neo4j/gspatial/index/rtree/Envelope.java:77-80 | an axis shift keeps that axis's width and leaves every other axis unchanged |
| Envelopes.Envelope.Centre | src/main/java/org/neo4j/gspatial/index/rtree/Envelope.java:90-92 | (min[d] + max[d]) / 2, and an index error beyond the dimension |
| Envelopes.CentreWithin | src/main/java/org/neo4j/gspatial/index/rtree/Envelope.java:90-92 | the centre of a valid axis lies between its min and max |
| Envelopes.Envelope.Centres | src/main/java/org/neo4j/gspatial/index/rtree/Envelope.java:82-88 | a fresh array of the centre of every axis |
| Envelopes.Envelope.ExpandToIncludePoint | src/main/java/org/neo4j/gspatial/index/rtree/Envelope.java:94-101 | on the first min(len(p), dimension) axes min becomes min(min, p[i]) and max becomes max(max, p[i]), in place |
| Envelopes.ExpandedByPointCovers | src/main/java/org/neo4j/gspatial/index/rtree/Envelope.java:94-101 | after expanding, p lies in the box on those axes and the box covers its old extent |
| Envelopes.Envelope.Bbox | src/main/java/org/neo4j/gspatial/index/rtree/Envelope.java:119-127 | IllegalArgumentException on a dimension mismatch; otherwise a fresh envelope holding the union box, with both inputs unchanged |
| Envelopes.Envelope.Separation | src/main/java/org/neo4j/gspatial/index/rtree/Envelope.java:103-107 | the union's area minus both areas |
| Envelopes.Envelope.SeparationAxis | src/main/java/org/neo4j/gspatial/index/rtree/Envelope.java:109-113 | the union's width on axis d minus both widths on d |
| Envelopes.SeparationAxisSign | src/main/java/org/neo4j/gspatial/index/rtree/Envelope.java:109-113 | the axis separation is positive exactly when the intervals on that axis are apart, and then it equals the gap between them |
| Envelopes.Envelope.DistanceToPoint | src/main/java/org/neo4j/gspatial/index/rtree/Envelope.java:147-159 | the sum, over the axes of p, of the squared clamp distance from p[i] to [min[i], max[i]]; an index error when p has more axes than the box |
| Envelopes.Divide | src/main/java/org/neo4j/gspatial/index/Envelope.java:221 | IEEE division of finite doubles: finite exactly for a non-zero divisor, NaN exactly for 0/0 |
| BboxDecoder.DecodeEnvelope | src/main/java/org/neo4j/gspatial/index/rtree/EnvelopeDecoderFromBbox.java:17-20 | decodeEnvelope fails with NotFound for a missing property, ClassCast for a non-double[] value, IndexOutOfBounds for fewer than four items, and otherwise succeeds exactly when [minX, minY, maxX, maxY] is ordered, giving that rectangle |
| BboxDecoder.DoubleProperty | src/main/java/org/neo4j/gspatial/index/rtree/EnvelopeDecoderFromBbox.java:23-26 | the (Double) getProperty cast succeeds exactly on a present double property and yields it; a missing key is NotFound, another type ClassCast |
| BboxDecoder.DecodeEnvelopeEdge | src/main/java/org/neo4j/gspatial/index/rtree/EnvelopeDecoderFromBbox.java:22-27 | decodeEnvelopeEdge propagates the first failing min_x read, and succeeds exactly when the four min_x/min_y/max_x/max_y doubles are present and ordered, giving that rectangle |
| BboxDecoder.LayoutsAgree | src/main/java/org/neo4j/gspatial/index/rtree/EnvelopeDecoderFromBbox.java:17-27 | a node bbox array and a relationship's four edge properties with the same numbers decode to the same outcome, the rectangle [a, b]..[c, d] |
| Graph.NewRect | src/main/java/org/neo4j/gspatial/index/rtree/Envelope.java:33-35 | the 2-D constructor Envelope(xmin, xmax, ymin, ymax) succeeds exactly when xmin <= xmax and ymin <= ymax, with min = [xmin, ymin] and max = [xmax, ymax], and fails with IllegalArgumentException otherwise |
| SearchFilters.NeedsToVisit | src/main/java/org/neo4j/gspatial/index/rtree/filter/AbstractSearchEnvelopeIntersection.java:22-25 | SearchAll always visits; an intersection filter visits exactly when the index envelope intersects the reference envelope and throws NullPointerException on a null envelope |
| SearchFilters.GeometryMatches | src/main/java/org/neo4j/gspatial/index/rtree/filter/AbstractSearchEnvelopeIntersection.java:27-35 | SearchAll always matches; an intersection filter fails exactly when decoding fails, rejects a geometry envelope that misses the reference, and otherwise answers onEnvelopeIntersection |
| SearchFilters.CoveredByMatchesIffCovered | src/main/java/org/neo4j/gspatial/index/rtree/filter/SearchCoveredByEnvelope.java:16-20 | SearchCoveredByEnvelope matches a valid geometry envelope exactly when the reference envelope covers it |
| SearchFilters.CoveredByBoundary | src/main/java/org/neo4j/gspatial/index/rtree/filter/SearchCoveredByEnvelope.java:16-20 | a geometry sticking out of the reference on any axis is rejected, and the reference envelope itself is accepted (the boundary is inside) |
| SearchFilters.EqualMatchesIffSameBounds | src/main/java/org/neo4j/gspatial/index/rtree/filter/SearchEqualEnvelopes.java:13-16 | SearchEqualEnvelopes matches a valid geometry envelope exactly when both envelopes have the same bounds |
| SearchFilters.EqualSymmetricReflexive | src/main/java/org/neo4j/gspatial/index/rtree/filter/SearchEqualEnvelopes.java:13-16 | equal-envelope matching is symmetric in the two envelopes and accepts the reference itself |
| SearchFilters.MatchImpliesIntersects | src/main/java/org/neo4j/gspatial/index/rtree/filter/AbstractSearchEnvelopeIntersection.java:27-35 | any geometry an intersection filter matches intersects the reference envelope |
| SearchFilters.SearchAllAcceptsMore | src/main/java/org/neo4j/gspatial/index/rtree/filter/SearchAll.java:9-17 | SearchAll visits and matches everything any other filter does, including null envelopes and undecodable geometries |
| Arguments.AsDouble | src/main/java/org/neo4j/gspatial/index/rtree/query/Range.java:43 | a (Double) cast succeeds exactly on a double and yields it; null is NullPointerException, another type ClassCastException |
| Arguments.DecodeReferenceEnvelope | src/main/java/org/neo4j/gspatial/index/rtree/query/Range.java:40-55 | decodeReferenceEnvelope: four doubles give Envelope(xmin, xmax, ymin, ymax) and a success has min = [a0, a2], max = [a1, a3]; a node with a distance gives the buffered envelope of its geometry, a refused one included; a list succeeds only when it starts with two doubles; any other count or shape is IllegalArgumentException |
| Arguments.DecodeQueryPoint | src/main/java/org/neo4j/gspatial/index/rtree/query/Knn.java:44-54 | a node gives its geometry's centroid, a list starting with two doubles gives that point, and any other value, or a list not starting with a Double, is IllegalArgumentException |
| Arguments.DecodeK | src/main/java/org/neo4j/gspatial/index/rtree/query/Knn.java:39 | ((Long) arg).intValue(): succeeds exactly on a long, giving its 32-bit truncation; null is NullPointerException |
| Arguments.DecodeKTruncates | src/main/java/org/neo4j/gspatial/index/rtree/query/Knn.java:39 | intValue keeps every int value, maps 2^32 + 5 to 5 and 2^31 to -2^31 |
| QueryUtils.RelationshipKinds | src/main/java/org/neo4j/gspatial/index/rtree/query/QueryUtils.java:133-142 | every directory relationship (ROOT or CHILD) is relevant, and the relevant relationships that are not directory ones are exactly the REFERENCEs |
| QueryUtils.RelsOf | src/main/java/org/neo4j/gspatial/index/rtree/query/QueryUtils.java:83 | getRelationships(OUTGOING, type) yields exactly the outgoing relationships of that type, and no more of them than there are |
| QueryUtils.IndexRoot | src/main/java/org/neo4j/gspatial/index/rtree/query/QueryUtils.java:119-121 | getSingleRelationship(RTREE_ROOT): succeeds exactly when the layer has one ROOT relationship and gives its end node; none is a NullPointerException on getEndNode, several a NotFoundException |
| QueryUtils.IndexRoots | src/main/java/org/neo4j/gspatial/index/rtree/query/QueryUtils.java:123-127 | the roots of all layers in order, succeeding exactly when every layer's root is found |
| QueryUtils.ChildrenIn | src/main/java/org/neo4j/gspatial/index/rtree/query/QueryUtils.java:81-88 | one entry per CHILD relationship, each the child paired with its own (possibly null) bbox, and nothing else |
| QueryUtils.GetIndexChildren | src/main/java/org/neo4j/gspatial/index/rtree/query/QueryUtils.java:81-88 | the getIndexChildren loop returns the CHILD entries of the node in relationship order |
| QueryUtils.LeafIffNoChildren | src/main/java/org/neo4j/gspatial/index/rtree/query/QueryUtils.java:129-131 | nodeIsLeaf holds exactly when getIndexChildren returns nothing |
| QueryUtils.GeometryEntries | src/main/java/org/neo4j/gspatial/index/rtree/query/QueryUtils.java:110-117 | one entry per REFERENCE relationship, each the geometry node paired with the relationship's stored envelope, and nothing else |
| QueryUtils.GetGeometryNodes | src/main/java/org/neo4j/gspatial/index/rtree/query/QueryUtils.java:110-117 | the getGeomtryNodes loop returns the REFERENCE entries of the leaf in relationship order |
| QueryUtils.GetGeometryNodesFromIndex | src/main/java/org/neo4j/gspatial/index/rtree/query/QueryUtils.java:144-156 | the loop with a recursive call per CHILD returns the geometries below the node in depth-first relationship order |
| QueryUtils.GeometriesUpToMember | src/main/java/org/neo4j/gspatial/index/rtree/query/QueryUtils.java:144-156 | a geometry is found through the first k relationships exactly when one of them references it or is a CHILD below which it is found |
| QueryUtils.GeometriesFromIndexMember | src/main/java/org/neo4j/gspatial/index/rtree/query/QueryUtils.java:144-156 | a geometry is below a node exactly when the node references it or one of its children has it below: CHILD* then one REFERENCE |
| QueryUtils.LeafGeometries | src/main/java/org/neo4j/gspatial/index/rtree/query/QueryUtils.java:102-108 | for a leaf, getGeometryNodesFromIndex returns exactly getLeafChildren: the referenced nodes in order |
| QueryUtils.JoinOutputFromIndexPair | src/main/java/org/neo4j/gspatial/index/rtree/query/QueryUtils.java:158-168 | getJoinOutputFromIndexPair returns the cross product of the two trees' geometries, row by row |
| QueryUtils.CrossJoinShape | src/main/java/org/neo4j/gspatial/index/rtree/query/QueryUtils.java:158-168 | the cross product has as many entries as the product of the two lengths and holds (x, y) exactly when x is below the first index and y below the second |
| QueryUtils.CrossJoinIndex | src/main/java/org/neo4j/gspatial/index/rtree/query/QueryUtils.java:162-166 | entry i * len(b) + j of the nested loop's output pairs the i-th geometry of the first tree with the j-th of the second |
| Range.LevelRelsOrigin | src/main/java/org/neo4j/gspatial/index/rtree/query/Range.java:92-93 | every relationship of the flatMap belongs to one of the level's nodes |
| Range.NextLevelOrigin | src/main/java/org/neo4j/gspatial/index/rtree/query/Range.java:94-107 | every node of the next level is the end of a ROOT or CHILD relationship whose envelope intersects the search envelope |
| Range.FoundOrigin | src/main/java/org/neo4j/gspatial/index/rtree/query/Range.java:94-103 | every candidate added is the end of a REFERENCE relationship whose envelope intersects the search envelope |
| Range.StepRel | src/main/java/org/neo4j/gspatial/index/rtree/query/Range.java:95-105 | the map step for one relationship appends its end to the next level when it is a followed directory relationship, to the candidates when it is a collected reference, and otherwise to neither |
| Range.NextLevelLower | src/main/java/org/neo4j/gspatial/index/rtree/query/Range.java:108 | every node of the next level is lower than the highest node of the current one, so the recursion of searchTree ends |
| Range.ScanRelationships | src/main/java/org/neo4j/gspatial/index/rtree/query/Range.java:92-107 | the pass over one level's relationships extends the next level and the shared candidate list exactly as the level function says |
| Range.LevelSearchStep | src/main/java/org/neo4j/gspatial/index/rtree/query/Range.java:108 | searchTree returns this level's candidates when the next level is empty, and otherwise this level's followed by the next level's search |
| Range.SearchTree | src/main/java/org/neo4j/gspatial/index/rtree/query/Range.java:89-109 | searchTree(indexes, candidates) returns the given candidates followed by everything found level by level from indexes |
| Range.VisibleRelsAppend | src/main/java/org/neo4j/gspatial/index/rtree/query/Range.java:92-105 | the depth-first walk over two lists of relationships is the walk over the first followed by the walk over the second |
| Range.SplitLevel | src/main/java/org/neo4j/gspatial/index/rtree/query/Range.java:92-108 | the depth-first walk over one level's relationships finds, as a multiset, the level's direct candidates plus the walk from the next level |
| Range.BreadthFirstFindsVisible | src/main/java/org/neo4j/gspatial/index/rtree/query/Range.java:89-109 | searchTree's level-by-level order finds the same multiset of candidates as a depth-first walk with the same pruning |
| Range.PruneOutside | src/main/java/org/neo4j/gspatial/index/rtree/query/Range.java:97 | below a relationship whose envelope misses the search envelope, on an index whose envelopes bound what lies below them, no reference meets the search envelope |
| Range.PruningLosslessUpTo | src/main/java/org/neo4j/gspatial/index/rtree/query/Range.java:96-103 | on such an index the pruned walk through any prefix of a node's relationships equals the unpruned one |
| Range.PruningLossless | src/main/java/org/neo4j/gspatial/index/rtree/query/Range.java:96-103 | on an index whose stored envelopes bound what lies below them, pruning loses nothing: searchTree finds every reference below whose envelope meets the search envelope |
| Range.FilterCandidatesWithCypher | src/main/java/org/neo4j/gspatial/index/rtree/query/Range.java:67-82 | a null or empty Cypher query keeps the candidates as they are; otherwise exactly the candidates whose query yields a row are kept, in order |
| Range.Query | src/main/java/org/neo4j/gspatial/index/rtree/query/Range.java:31-65 | the query fails exactly when decoding the arguments fails; otherwise each node occurs in the result as often as the depth-first walk from the layers finds it if it passes the Cypher and within filters, and not at all otherwise |
| RangeOld.Decide | src/main/java/org/neo4j/gspatial/index/rtree/query/RangeOld.java:69-93 | evaluate: a start node is excluded and expanded; a CHILD end node without a bbox is a NullPointerException, else it is expanded exactly when its bbox intersects the search envelope; a REFERENCE end node is included exactly when its decoded envelope is covered and its decode failure propagates; any other relationship gives null |
| RangeOld.WalkErrorSticks | src/main/java/org/neo4j/gspatial/index/rtree/query/RangeOld.java:96-105 | once the traversal below a node has failed, later relationships do not change that failure |
| RangeOld.MissingBboxFails | src/main/java/org/neo4j/gspatial/index/rtree/query/RangeOld.java:75-76 | a first CHILD without a bbox makes the traversal fail with a NullPointerException |
| RangeOld.IndexedIsRootIndexed | src/main/java/org/neo4j/gspatial/index/rtree/query/RangeOld.java:73-74 | a node indexed below some envelope is also a well-formed start node, whose own bbox is never read |
| RangeOld.NothingOutside | src/main/java/org/neo4j/gspatial/index/rtree/query/RangeOld.java:76-82 | on a well-formed index, nothing below a bbox that misses the search envelope is covered by it, so the EXCLUDE_AND_PRUNE loses nothing |
| RangeOld.WalkLosslessUpTo | src/main/java/org/neo4j/gspatial/index/rtree/query/RangeOld.java:69-103 | on a well-formed index the traversal through any prefix of a start node's relationships succeeds with exactly the covered geometries found through them |
| RangeOld.LosslessChild | src/main/java/org/neo4j/gspatial/index/rtree/query/RangeOld.java:75-82 | the traversal step through a CHILD relationship keeps the traversal equal to the covered geometries |
| RangeOld.LosslessOther | src/main/java/org/neo4j/gspatial/index/rtree/query/RangeOld.java:83-92 | the traversal step through a REFERENCE or an unexpanded relationship keeps the traversal equal to the covered geometries |
| RangeOld.WalkLossless | src/main/java/org/neo4j/gspatial/index/rtree/query/RangeOld.java:69-103 | on a well-formed index the traversal from a start node returns, in depth-first order, every geometry below it whose envelope the search envelope covers |
| RangeOld.Evaluate | src/main/java/org/neo4j/gspatial/index/rtree/query/RangeOld.java:69-93 | evaluate returns the decision above and records it in the monitor: a matching CHILD adds the node at the path's level, every CHILD or REFERENCE decision counts its case label, a geometry match sets the height, and nothing else changes |
| RangeOld.Traverse | src/main/java/org/neo4j/gspatial/index/rtree/query/RangeOld.java:96-105 | the depth-first traversal below a node returns what the recursive walk says |
| RangeOld.TraverseBranch | src/main/java/org/neo4j/gspatial/index/rtree/query/RangeOld.java:96-105 | the path through one relationship returns its end node when included and the traversal below it when continued, as the walk says |
| RangeOld.SearchIndex | src/main/java/org/neo4j/gspatial/index/rtree/query/RangeOld.java:96-106 | searchIndex returns the traversals from all roots in order, the first failure ending it |
| RangeOld.WalkAllErrorSticks | src/main/java/org/neo4j/gspatial/index/rtree/query/RangeOld.java:104 | a failure in the traversal from the first roots is the failure of the whole traversal |
| RangeOld.Query | src/main/java/org/neo4j/gspatial/index/rtree/query/RangeOld.java:26-56 | the constructor's root lookup and argument decoding followed by query() return what the traversal function says, every failure being an error |
| RangeOld.WalkAllLossless | src/main/java/org/neo4j/gspatial/index/rtree/query/RangeOld.java:51-56 | on well-formed indexes the query succeeds and holds exactly the geometries, below any root, whose envelope the search envelope covers |
| Knn.MaxAt | src/main/java/org/neo4j/gspatial/index/rtree/query/Knn.java:40 | the head of the queue under the reversed distance comparator is an entry of largest distance |
| Knn.Poll | src/main/java/org/neo4j/gspatial/index/rtree/KnnVisitor.java:37-39 | poll removes exactly one entry, the head, and keeps every other one |
| Knn.HeadIsFarthest | src/main/java/org/neo4j/gspatial/index/rtree/KnnVisitor.java:37-42 | every entry left after a poll is at most as far as the polled head |
| Knn.OfferAsWritten | src/main/java/org/neo4j/gspatial/index/rtree/KnnVisitor.java:32-45 | onIndexReference as written never lets the queue grow beyond k |
| Knn.AsWrittenInsertion | src/main/java/org/neo4j/gspatial/index/rtree/KnnVisitor.java:36-40 | as written, an entry is inserted exactly when the queue is not full or it beats nnDistTemp; a full queue loses its head first; a rejected entry changes neither queue nor nnDistTemp |
| Knn.AsWrittenThreshold | src/main/java/org/neo4j/gspatial/index/rtree/KnnVisitor.java:41-43 | as written, nnDistTemp changes only when the new distance beat it, and then becomes the largest distance in the queue |
| Knn.AsWrittenDropsNearer | src/main/java/org/neo4j/gspatial/index/rtree/KnnVisitor.java:36-43 | with k = 2, offers at distances 5, 7 and 6 leave the queue at {5, 7} with nnDistTemp 5, so 6 is rejected although 7 is kept |
| Knn.Offer | src/main/java/org/neo4j/gspatial/index/rtree/KnnVisitor.java:32-45 | onIndexReference with nnDistTemp following the head once the queue is full: the queue grows by one until it holds k entries and then stays at k |
| Knn.OfferConserves | src/main/java/org/neo4j/gspatial/index/rtree/KnnVisitor.java:36-40 | no entry is lost or invented by an offer: it ends in the queue or among the evicted ones |
| Knn.OfferSeparatesFull | src/main/java/org/neo4j/gspatial/index/rtree/KnnVisitor.java:36-40 | offering to a full queue keeps every queued entry at most as far as every evicted one |
| Knn.OfferKeepsNearest | src/main/java/org/neo4j/gspatial/index/rtree/KnnVisitor.java:32-45 | an offer preserves the top-k invariant: every entry is accounted for, every queued entry is at most as far as every dropped one, and nothing is dropped before the queue is full |
| Knn.AsWrittenAgreesWhenFull | src/main/java/org/neo4j/gspatial/index/rtree/KnnVisitor.java:36-43 | once the queue is full and nnDistTemp is the head, the rule as written and the corrected one keep the same queue |
| Knn.Step | src/main/java/org/neo4j/gspatial/index/rtree/KnnVisitor.java:32-45 | one onIndexReference call under either rule: the queue never holds more than k entries, and the entry is appended to what was offered |
| Knn.StepInv | src/main/java/org/neo4j/gspatial/index/rtree/KnnVisitor.java:32-45 | every onIndexReference call keeps the visitor invariant: at most k entries, all of them offered; under the corrected rule also nnDistTemp at the head once the queue is full, and every queued entry at most as far as every dropped one |
| Knn.AsWrittenKeepsOffered | src/main/java/org/neo4j/gspatial/index/rtree/KnnVisitor.java:36-40 | as written, the queue after an offer holds only entries it held before or the offered one |
| Knn.StepQueue | src/main/java/org/neo4j/gspatial/index/rtree/KnnVisitor.java:36-43 | the branches of onIndexReference on the queue and nnDistTemp (take the entry when there is room or it beats nnDistTemp, polling a full queue first, then move nnDistTemp as the rule says) give exactly one step of the visitor |
| Knn.OfferAll | src/main/java/org/neo4j/gspatial/index/rtree/query/Knn.java:92-95 | a run of onIndexReference calls keeps the queue at most k entries and appends the offered entries, in order, to what was offered |
| Knn.OfferAllSnoc | src/main/java/org/neo4j/gspatial/index/rtree/query/Knn.java:92-95 | one more call of the references loop is one more step of the run |
| Knn.KnnVisitor.constructor | src/main/java/org/neo4j/gspatial/index/rtree/KnnVisitor.java:18-24 | a new visitor has the given k, centroid and distance, an empty queue and nnDistTemp Double.MAX_VALUE, and satisfies the top-k invariant |
| Knn.KnnVisitor.NeedsToVisit | src/main/java/org/neo4j/gspatial/index/rtree/KnnVisitor.java:26-30 | needsToVisit holds exactly when the envelope's distance to the query point is below nnDistTemp |
| Knn.KnnVisitor.OnIndexReference | src/main/java/org/neo4j/gspatial/index/rtree/KnnVisitor.java:32-45 | onIndexReference under the visitor's rule: the queue and nnDistTemp become exactly one step of that rule from the old state, the geometry is appended to what was offered at its distance, and the visitor invariant is kept |
| Knn.KnnVisitor.GetQueryPointCoords | src/main/java/org/neo4j/gspatial/index/rtree/KnnVisitor.java:47-49 | returns the query point's coordinates |
| Knn.KnnVisitor.GetNnDistTemp | src/main/java/org/neo4j/gspatial/index/rtree/KnnVisitor.java:51-53 | returns nnDistTemp |
| Knn.Distances | src/main/java/org/neo4j/gspatial/index/rtree/query/Knn.java:76-81 | one entry per child, in order, at the distance from the child's bbox to the query point |
| Knn.DistancesAreChildEntries | src/main/java/org/neo4j/gspatial/index/rtree/query/Knn.java:76-81 | every such entry is a CHILD of the node at the distance of its bbox |
| Knn.ChildDistances | src/main/java/org/neo4j/gspatial/index/rtree/query/Knn.java:76-81 | the children loop fails with a NullPointerException exactly when some CHILD has no bbox, and otherwise returns each child at its bbox distance, in order |
| Knn.OffersAt | src/main/java/org/neo4j/gspatial/index/rtree/query/Knn.java:92-95 | the i-th offer of the references loop is the i-th referenced geometry at its distance |
| Knn.ReferencesFound | src/main/java/org/neo4j/gspatial/index/rtree/query/Knn.java:92-95 | everything the references loop offers lies below the node |
| Knn.OffersSnoc | src/main/java/org/neo4j/gspatial/index/rtree/query/Knn.java:92-95 | the offers of one more REFERENCE are the earlier offers followed by that end node at its distance |
| Knn.BelowChild | src/main/java/org/neo4j/gspatial/index/rtree/query/Knn.java:77-88 | a geometry found below a CHILD of a node is found below the node |
| Knn.VisitKnn | src/main/java/org/neo4j/gspatial/index/rtree/query/Knn.java:74-98 | visitKnn leaves the visitor in exactly the state, with exactly the outcome, of the walk function Visit from its old state, and keeps the visitor invariant |
| Knn.VisitChildren | src/main/java/org/neo4j/gspatial/index/rtree/query/Knn.java:83-89 | the sorted-children loop leaves exactly the state and outcome of VisitChildrenOf: the children in ascending distance, returning at the first one farther than nnDistTemp |
| Knn.OfferReferences | src/main/java/org/neo4j/gspatial/index/rtree/query/Knn.java:90-97 | the references loop offers every REFERENCE end node in order, at its distance |
| Knn.Visit | src/main/java/org/neo4j/gspatial/index/rtree/query/Knn.java:74-98 | visitKnn as a function: a node with CHILD relationships fails with NullPointerException when some CHILD has no bbox and otherwise runs the sorted-children loop; any other node offers each REFERENCE end node in order; the queue stays at most k, and NullPointerException is the only failure |
| Knn.VisitChildrenOf | src/main/java/org/neo4j/gspatial/index/rtree/query/Knn.java:83-89 | the children list sorted by distance, then the children loop over it; the only failure is NullPointerException |
| Knn.VisitFrom | src/main/java/org/neo4j/gspatial/index/rtree/query/Knn.java:84-89 | the children loop: it returns at once at the first child farther than nnDistTemp, stops at the first failing child, and otherwise visits each child in turn from the state the previous one left |
| Knn.VisitAll | src/main/java/org/neo4j/gspatial/index/rtree/query/Knn.java:67-69 | the loop of query over the sorted initial nodes visits every root in turn, without a cut-off, stopping only at a failure |
| Knn.VisitInner | src/main/java/org/neo4j/gspatial/index/rtree/query/Knn.java:75-83 | at a node whose every CHILD has a bbox, the children list holds CHILD entries and visitKnn runs the sorted loop over it |
| Knn.VisitFromAt | src/main/java/org/neo4j/gspatial/index/rtree/query/Knn.java:84-89 | one iteration of the children loop at position i: return at a farther child, otherwise visit it and go on unless it failed |
| Knn.VisitDone | src/main/java/org/neo4j/gspatial/index/rtree/query/Knn.java:74-98 | when every CHILD below the node has a bbox, visitKnn completes without an exception |
| Knn.VisitFromDone | src/main/java/org/neo4j/gspatial/index/rtree/query/Knn.java:83-89 | when every CHILD below the node has a bbox, the children loop completes |
| Knn.VisitAllDone | src/main/java/org/neo4j/gspatial/index/rtree/query/Knn.java:67-69 | when every CHILD below every root has a bbox, the roots loop completes |
| Knn.ExtendsTrans | src/main/java/org/neo4j/gspatial/index/rtree/query/Knn.java:84-89 | offers appended below a node in two stretches are offers below the node |
| Knn.ExtendsChild | src/main/java/org/neo4j/gspatial/index/rtree/query/Knn.java:77-88 | offers from below a CHILD are offers from below its parent |
| Knn.VisitFound | src/main/java/org/neo4j/gspatial/index/rtree/query/Knn.java:74-98 | visitKnn keeps what was offered before, first and unchanged, and offers only geometries found below the node, each at its distance |
| Knn.VisitFromFound | src/main/java/org/neo4j/gspatial/index/rtree/query/Knn.java:83-89 | the children loop keeps what was offered before and offers only geometries found below the node |
| Knn.VisitLeaf | src/main/java/org/neo4j/gspatial/index/rtree/query/Knn.java:90-97 | at a node without CHILD relationships, visitKnn offers each REFERENCE end node exactly once, in relationship order, at its distance, and nothing else; a node with neither kind offers nothing |
| Knn.CutOff | src/main/java/org/neo4j/gspatial/index/rtree/query/Knn.java:84-89 | once a child of the sorted list is farther than nnDistTemp, so is every later one, and the loop returns without visiting any of them |
| Knn.CorrectedNoCutWhileFilling | src/main/java/org/neo4j/gspatial/index/rtree/KnnVisitor.java:41-43 | under the corrected rule nothing is cut off, and every entry is taken, while the queue has room |
| Knn.FirstOffer | src/main/java/org/neo4j/gspatial/index/rtree/KnnVisitor.java:36-43 | the first offer into a new visitor: as written nnDistTemp moves to its distance, corrected it stays at Double.MAX_VALUE |
| Knn.FirstChild | src/main/java/org/neo4j/gspatial/index/rtree/query/Knn.java:84-89 | the loop over two children is the loop over the second after the first child's visit |
| Knn.CutOffWhileFilling | src/main/java/org/neo4j/gspatial/index/rtree/query/Knn.java:84-89 | with k = 2, a first child offering x1 and a second child farther than x1: as written the second child is cut off after the single offer; corrected it is visited |
| Knn.SecondLeaf | src/main/java/org/neo4j/gspatial/index/rtree/query/Knn.java:84-89 | corrected, with room in the queue, visiting the last child adds its one offer |
| Knn.AsWrittenCutsOffEarly | src/main/java/org/neo4j/gspatial/index/rtree/query/Knn.java:84-89 | on a root with two leaves at squared distances 4 and 9 and k = 2, the rule as written returns only the geometry at 4 |
| Knn.CorrectedVisitsBoth | src/main/java/org/neo4j/gspatial/index/rtree/query/Knn.java:84-89 | on the same index the corrected rule returns both geometries |
| Knn.Setup | src/main/java/org/neo4j/gspatial/index/rtree/query/Knn.java:34-42 | the constructor fails on a missing argument, propagates a bad query point or a non-Long k, refuses k < 1 as the PriorityQueue does, and otherwise yields the centroid and k truncated to an int |
| Knn.RootDistances | src/main/java/org/neo4j/gspatial/index/rtree/query/Knn.java:59-64 | the initial nodes succeed exactly when every layer has a root with a bbox, each then being the layer's root at its bbox distance |
| Knn.GetRootDistances | src/main/java/org/neo4j/gspatial/index/rtree/query/Knn.java:59-64 | the initial-nodes loop returns what RootDistances says |
| Knn.RootFailureSticks | src/main/java/org/neo4j/gspatial/index/rtree/query/Knn.java:59-64 | a failure among the first layers is the failure of the whole loop |
| Knn.RootsBboxes | src/main/java/org/neo4j/gspatial/index/rtree/query/Knn.java:59-64 | every initial node is a layer root, so it has every CHILD bbox when the layers do |
| Knn.RootsOfLayers | src/main/java/org/neo4j/gspatial/index/rtree/query/Knn.java:59-64 | every initial node is the root of one of the layers |
| Knn.StillFromLayers | src/main/java/org/neo4j/gspatial/index/rtree/query/Knn.java:67-69 | geometries found below the root of one layer, appended to geometries from the layers, are from the layers |
| Knn.VisitRoots | src/main/java/org/neo4j/gspatial/index/rtree/query/Knn.java:66-69 | the roots loop leaves exactly the state and outcome of VisitAll over the initial nodes sorted by distance, with no cut-off |
| Knn.Query | src/main/java/org/neo4j/gspatial/index/rtree/query/Knn.java:34-72 | query under either rule returns what QueryRun gives: each constructor failure, root failure and NullPointerException on a missing bbox as the error, and otherwise the final queue. On success that is at most k of the entries offered, each a geometry below a layer's root at its distance; under the corrected rule it is the k nearest of everything offered |
| Knn.QueryRun | src/main/java/org/neo4j/gspatial/index/rtree/query/Knn.java:56-72 | query as a function: a constructor failure, then a root failure, then the walk from a new visitor; on success the queue holds at most k entries |
| Knn.QueryWalk | src/main/java/org/neo4j/gspatial/index/rtree/query/Knn.java:66-71 | the initial nodes sorted by distance, then the roots loop from a new visitor; the only failure is NullPointerException |
| Knn.QueryRunSucceeds | src/main/java/org/neo4j/gspatial/index/rtree/query/Knn.java:56-72 | when the arguments decode, every layer has a root and every CHILD has a bbox, query succeeds |
| Knn.VisitAllFromLayers | src/main/java/org/neo4j/gspatial/index/rtree/query/Knn.java:67-69 | visiting roots of the layers offers only geometries below those roots, at their distances |
| Knn.WalkFromLayers | src/main/java/org/neo4j/gspatial/index/rtree/query/Knn.java:66-69 | every entry the walk offers is a geometry below a layer's root, at its distance |
| Knn.QueryFromLayers | src/main/java/org/neo4j/gspatial/index/rtree/query/Knn.java:56-72 | every entry query offers is a geometry below a layer's root, at its distance |
| Knn.TopK | src/main/java/org/neo4j/gspatial/index/rtree/KnnVisitor.java:32-45 | a visitor satisfying its invariant holds min(k, offered) entries of what it was offered, each at most as far as any entry it dropped |
| KnnCompleteness.OfferFullNarrows | src/main/java/org/neo4j/gspatial/index/rtree/KnnVisitor.java:37-43 | on a full queue, polling the head and adding a nearer entry leaves a head no farther than before |
| KnnCompleteness.StepGrows | src/main/java/org/neo4j/gspatial/index/rtree/KnnVisitor.java:32-45 | an onIndexReference call keeps what was offered first and, under the corrected rule, never raises nnDistTemp |
| KnnCompleteness.OfferAllKeeps | src/main/java/org/neo4j/gspatial/index/rtree/query/Knn.java:92-95 | the references loop keeps the visitor invariant and what was offered, and never raises a corrected nnDistTemp |
| KnnCompleteness.VisitKeeps | src/main/java/org/neo4j/gspatial/index/rtree/query/Knn.java:74-98 | visitKnn keeps the visitor invariant and what was offered, and never raises a corrected nnDistTemp |
| KnnCompleteness.VisitFromKeeps | src/main/java/org/neo4j/gspatial/index/rtree/query/Knn.java:83-89 | so does the children loop |
| KnnCompleteness.VisitAllKeeps | src/main/java/org/neo4j/gspatial/index/rtree/query/Knn.java:67-69 | so does the roots loop |
| KnnCompleteness.IndexedBboxes | src/main/java/org/neo4j/gspatial/index/rtree/query/Knn.java:79 | an index whose bboxes bound their geometries has a bbox on every CHILD, so the walk never meets a NullPointerException |
| KnnCompleteness.VisitSorted | src/main/java/org/neo4j/gspatial/index/rtree/query/Knn.java:75-83 | a node whose CHILDs all have bboxes runs the children loop over its sorted children, which are CHILD entries in ascending distance |
| KnnCompleteness.PrunedAccounted | src/main/java/org/neo4j/gspatial/index/rtree/query/Knn.java:84-89 | when bboxes bound the geometries below them, every geometry below a child at or after the cut-off is farther than nnDistTemp |
| KnnCompleteness.LeafAccounted | src/main/java/org/neo4j/gspatial/index/rtree/query/Knn.java:90-97 | at a node without CHILD relationships every geometry below it is offered |
| KnnCompleteness.InnerGeometry | src/main/java/org/neo4j/gspatial/index/rtree/query/Knn.java:75-83 | every geometry below a node with CHILD relationships (and no REFERENCEs) lies below one of its sorted children |
| KnnCompleteness.InnerAccounted | src/main/java/org/neo4j/gspatial/index/rtree/query/Knn.java:75-89 | a node whose every child has each geometry below it offered or beyond nnDistTemp has the same for itself |
| KnnCompleteness.AccountedLater | src/main/java/org/neo4j/gspatial/index/rtree/KnnVisitor.java:32-45 | a geometry offered or beyond nnDistTemp stays so after later corrected offers |
| KnnCompleteness.VisitAccounts | src/main/java/org/neo4j/gspatial/index/rtree/query/Knn.java:74-98 | under the corrected rule, on an index whose bboxes bound their geometries, every geometry below a visited node ends offered or farther than nnDistTemp |
| KnnCompleteness.VisitFromAccounts | src/main/java/org/neo4j/gspatial/index/rtree/query/Knn.java:83-89 | the same for every child of the sorted children loop, visited or cut off |
| KnnCompleteness.VisitAllAccounts | src/main/java/org/neo4j/gspatial/index/rtree/query/Knn.java:67-69 | the same for every root of the roots loop |
| KnnCompleteness.DroppedBehindFull | src/main/java/org/neo4j/gspatial/index/rtree/KnnVisitor.java:36-40 | under the corrected rule an offered entry not in the queue was dropped from a full queue and is at least as far as every queued entry |
| KnnCompleteness.BeyondHead | src/main/java/org/neo4j/gspatial/index/rtree/KnnVisitor.java:41-43 | under the corrected rule a distance beyond nnDistTemp means a full queue whose entries are all nearer |
| KnnCompleteness.AccountedCovers | src/main/java/org/neo4j/gspatial/index/rtree/KnnVisitor.java:32-45 | every geometry offered or beyond nnDistTemp is in the final queue, or the queue is full and none of its entries is farther |
| KnnCompleteness.WalkNearest | src/main/java/org/neo4j/gspatial/index/rtree/query/Knn.java:66-98 | the corrected walk over roots whose bboxes bound their geometries completes, keeps the k nearest of what it offered, and for every geometry below every root returns it or k entries none farther |
| KnnCompleteness.QueryConfig | src/main/java/org/neo4j/gspatial/index/rtree/query/Knn.java:34-42 | the configuration query builds is valid, with the given rule and distance |
| KnnCompleteness.QueryNearest | src/main/java/org/neo4j/gspatial/index/rtree/query/Knn.java:56-98 | query with the corrected visitor, on layers whose bboxes bound their geometries, succeeds and returns the k nearest geometries of all the layers: each geometry below a layer's root is returned, or k entries none farther than it are |
| KnnCompleteness.AsWrittenMissesGeometry | src/main/java/org/neo4j/gspatial/index/rtree/KnnVisitor.java:41-43 | the rule as written breaks this on a two-leaf index that fits the query: the geometry at squared distance 9 is neither returned nor behind a full result |
| Sorting.InsertBy | src/main/java/org/neo4j/gspatial/index/rtree/query/Knn.java:66 | inserting one element adds exactly that element |
| Sorting.InsertBySorted | src/main/java/org/neo4j/gspatial/index/rtree/query/Knn.java:66 | inserting into a list sorted by distance keeps it sorted |
| Sorting.SortBy | src/main/java/org/neo4j/gspatial/index/rtree/query/Knn.java:66 | List.sort reorders the list without adding or losing an element |
| Sorting.SortBySorted | src/main/java/org/neo4j/gspatial/index/rtree/query/Knn.java:83 | List.sort(comparingDouble(getDistance)) yields a list sorted by distance holding exactly the original elements |
| Sorting.InsertByStable | src/main/java/org/neo4j/gspatial/index/rtree/query/Knn.java:66 | inserting after the elements of equal key keeps the relative order of the elements of every key |
| Sorting.SortByStable | src/main/java/org/neo4j/gspatial/index/rtree/query/Knn.java:66 | List.sort is stable: the elements of any one distance come out in their original order |
| Join.MeetsOnX | src/main/java/org/neo4j/gspatial/index/rtree/query/Join.java:129-147 | entries whose envelopes intersect overlap on the x axis, which the sweep's minX/maxX tests rely on |
| Join.Row | src/main/java/org/neo4j/gspatial/index/rtree/query/Join.java:140-148 | the pairs of t with the entries of a list that meet it, t first, and nothing else |
| Join.Cross | src/main/java/org/neo4j/gspatial/index/rtree/query/Join.java:121-138 | the meeting pairs of two lists, each oriented (first-list entry, second-list entry), and nothing else |
| Join.InternalLoop | src/main/java/org/neo4j/gspatial/index/rtree/query/Join.java:140-148 | internalLoop appends to the output exactly the sweep from index unmarked: the entries meeting t until one's minX passes t's maxX |
| Join.SweepIsRow | src/main/java/org/neo4j/gspatial/index/rtree/query/Join.java:140-148 | on a list sorted by minX, internalLoop's early stop loses nothing: it yields t's whole row from that index on |
| Join.RowNone | src/main/java/org/neo4j/gspatial/index/rtree/query/Join.java:143-145 | a row none of whose entries meets t is empty |
| Join.RowSkip | src/main/java/org/neo4j/gspatial/index/rtree/query/Join.java:129-134 | entries lying wholly left of t on the x axis contribute nothing to t's row |
| Join.RowEmpty | src/main/java/org/neo4j/gspatial/index/rtree/query/Join.java:129-134 | a row of entries that all lie left of t is empty |
| Join.CrossRest | src/main/java/org/neo4j/gspatial/index/rtree/query/Join.java:125-136 | once every entry of the second list lies left of an entry of the first, the remaining rows are empty |
| Join.SortedIntersectionTest | src/main/java/org/neo4j/gspatial/index/rtree/query/Join.java:121-138 | on two lists sorted by minX the plane sweep yields exactly the meeting pairs of the two lists, each oriented (list1 entry, list2 entry), row by row |
| Join.ChildFacts | src/main/java/org/neo4j/gspatial/index/rtree/query/QueryUtils.java:81-88 | a child entry of n is lower than n, carries the child's own bbox, lies below n, and is boxed when n is |
| Join.BelowChild | src/main/java/org/neo4j/gspatial/index/rtree/query/QueryUtils.java:81-88 | a node below a child is below the parent |
| Join.Candidates | src/main/java/org/neo4j/gspatial/index/rtree/query/Join.java:57-66 | the children of a node filtered by the window and sorted by minX: exactly the children meeting the window, in minX order |
| Join.Overlap | src/main/java/org/neo4j/gspatial/index/rtree/query/Join.java:75 | the intersection of two meeting rectangles lies inside both |
| Join.MeetsSymmetric | src/main/java/org/neo4j/gspatial/index/rtree/query/Join.java:97 | entries meet symmetrically |
| Join.WindowQuery | src/main/java/org/neo4j/gspatial/index/rtree/query/Join.java:94-106 | every pair windowQuery returns holds the leaf entry on the side isLeft names and, on the other side, a leaf below the directory node, carrying its own bbox, that meets the leaf entry |
| Join.WindowDirs | src/main/java/org/neo4j/gspatial/index/rtree/query/Join.java:95-97 | the two filters of windowQuery keep exactly the children meeting the window and the leaf entry |
| Join.WindowEntries | src/main/java/org/neo4j/gspatial/index/rtree/query/Join.java:98-105 | the flatMap over the filtered children returns only such pairs |
| Join.WindowEntry | src/main/java/org/neo4j/gspatial/index/rtree/query/Join.java:99-103 | a leaf child is paired with the leaf entry in the order isLeft names, and a directory child is searched with the window narrowed to it |
| Join.SpatialJoin | src/main/java/org/neo4j/gspatial/index/rtree/query/Join.java:56-92 | every pair spatialJoin4 returns is a leaf below node1 and a leaf below node2, in that order, each with its own bbox, whose bboxes intersect |
| Join.JoinPairs | src/main/java/org/neo4j/gspatial/index/rtree/query/Join.java:72-90 | the loop over the sweep's pairs returns only such leaf pairs |
| Join.JoinPair | src/main/java/org/neo4j/gspatial/index/rtree/query/Join.java:73-89 | two leaves are kept, a leaf and a directory go to windowQuery with the leaf on its own side, two directories recurse with the window narrowed to their intersection |
| Join.IncrementPinCount | src/main/java/org/neo4j/gspatial/index/rtree/query/Join.java:108-110 | incrementPinCount raises node's count by one and keeps every other entry |
| Join.DecrementPinCount | src/main/java/org/neo4j/gspatial/index/rtree/query/Join.java:112-119 | decrementPinCount lowers node's count by one, removes the entry exactly when it reaches zero, and keeps every other entry |
| Join.PinCountsBalance | src/main/java/org/neo4j/gspatial/index/rtree/query/Join.java:84-88 | pinning two nodes and unpinning them again restores the map, the same node twice included |
| Join.SpatialJoin4 | src/main/java/org/neo4j/gspatial/index/rtree/query/Join.java:56-92 | spatialJoin4 returns the leaf pairs the join function describes, each a leaf below node1 and a leaf below node2 whose bboxes intersect |
| Join.VisitPairs | src/main/java/org/neo4j/gspatial/index/rtree/query/Join.java:70-91 | the loop of spatialJoin4 returns what the pair-by-pair function says, its pin map empty again after every pair |
| Join.VisitPair | src/main/java/org/neo4j/gspatial/index/rtree/query/Join.java:72-90 | the body of the loop for one pair returns that pair's leaf pairs and leaves the pin map as it found it |
| Join.GeometryRow | src/main/java/org/neo4j/gspatial/index/rtree/query/Join.java:156-158 | the pairs of one geometry with those of the other leaf whose stored envelopes intersect, and nothing else |
| Join.GeometryCross | src/main/java/org/neo4j/gspatial/index/rtree/query/Join.java:153-159 | the nested stream over one leaf pair yields exactly the geometry pairs whose stored envelopes intersect |
| Join.CandidateGeometries | src/main/java/org/neo4j/gspatial/index/rtree/query/Join.java:151-161 | the candidate pairs are exactly the geometry pairs of the leaf pairs |
| Join.KeysOf | src/main/java/org/neo4j/gspatial/index/rtree/query/Join.java:172-174 | the key set holds exactly the keys of the INTERSECTS results |
| Join.Complement | src/main/java/org/neo4j/gspatial/index/rtree/query/Join.java:175-177 | the DISJOINT post-filter keeps exactly the outputs whose key is not in the set, in order |
| Join.ComplementOfNothing | src/main/java/org/neo4j/gspatial/index/rtree/query/Join.java:175-177 | with no INTERSECTS results the post-filter keeps every pair |
| Join.ExecuteSpatialOperations | src/main/java/org/neo4j/gspatial/index/rtree/query/Join.java:150-181 | executeSpatialOperations returns the predicate's results on the candidate pairs, or for DISJOINT the cross product of the two indexes' geometries without the INTERSECTS results |
| Join.RootPairs | src/main/java/org/neo4j/gspatial/index/rtree/query/Join.java:40-48 | with the roots handled as a pair of children, every leaf pair found is a leaf under each root, the two bboxes intersecting |
| Join.JoinRoots | src/main/java/org/neo4j/gspatial/index/rtree/query/Join.java:45 | the corrected start of the join computes those leaf pairs |
| Join.OperationText | src/main/java/org/neo4j/gspatial/index/rtree/query/Join.java:34 | args.get(0).toString() fails with NullPointerException exactly on null and gives a string's own text; any other value's text names no operation |
| Join.NewJoin | src/main/java/org/neo4j/gspatial/index/rtree/query/Join.java:29-38 | the constructor succeeds exactly when both layers have a root and the argument is a string naming an operation in any case; it stores the roots, the upper-cased name, isDisjoint exactly for DISJOINT and an executor for INTERSECTS then, else for the name; failures come in the source's order |
| Join.Executor | src/main/java/org/neo4j/gspatial/index/rtree/query/Join.java:34-37 | upper-casing, the DISJOINT test and the executor: accepted exactly when the text names an operation in any case, DISJOINT mapped to INTERSECTS |
| Join.DisjointIsOperation | src/main/java/org/neo4j/gspatial/index/rtree/query/Join.java:36-37 | DISJOINT is itself an operation name and the INTERSECTS executor it uses is accepted |
| Join.Query | src/main/java/org/neo4j/gspatial/index/rtree/query/Join.java:40-54 | query fails exactly when a root has no bbox, and otherwise returns the corrected join's results |
| Join.QueryAsWritten | src/main/java/org/neo4j/gspatial/index/rtree/query/Join.java:40-54 | query as written, with the roots passed straight to spatialJoin4: it fails with NullPointerException exactly when a root has no bbox, and gives nothing when the roots' bboxes miss and the operation is not DISJOINT |
| Join.CrossEmptyRight | src/main/java/org/neo4j/gspatial/index/rtree/query/Join.java:125 | the sweep pairs nothing when the second list is empty |
| Join.AsWrittenLeafRoot | src/main/java/org/neo4j/gspatial/index/rtree/query/Join.java:45 | as written, spatialJoin4 on two roots of which one is a leaf returns no leaf pair |
| Join.LeafRootsContents | src/main/java/org/neo4j/gspatial/index/rtree/query/QueryUtils.java:110-168 | the two one-leaf example indexes each hold one geometry stored with the unit square, and their cross product is that one pair |
| Join.FinishNothing | src/main/java/org/neo4j/gspatial/index/rtree/query/Join.java:150-181 | with no leaf pairs the join reports nothing, except DISJOINT, which reports every pair of the two indexes' geometries |
| Join.AsWrittenLeafRootsPairs | src/main/java/org/neo4j/gspatial/index/rtree/query/Join.java:43-48 | as written, the query on the two one-leaf indexes finds no leaf pair |
| Join.AsWrittenMissesLeafRoots | src/main/java/org/neo4j/gspatial/index/rtree/query/Join.java:40-54 | as written, two one-leaf indexes whose geometries share the unit square give no INTERSECTS result and report the pair for DISJOINT, whatever the predicate says |
| Join.CorrectedFindsLeafRoots | src/main/java/org/neo4j/gspatial/index/rtree/query/Join.java:40-54 | the corrected join on the same indexes reports the pair for INTERSECTS when the predicate holds, and nothing for DISJOINT |
| Join.NestedBoxed | src/main/java/org/neo4j/gspatial/index/rtree/query/Join.java:41-42 | in an R-tree every node below the root has a bbox |
| Join.CoveredUnder | src/main/java/org/neo4j/gspatial/index/rtree/query/Join.java:58-61 | a node under an R-tree node has a bbox inside that node's |
| Join.PathChild | src/main/java/org/neo4j/gspatial/index/rtree/query/QueryUtils.java:81-88 | a node below n lies under one of n's child entries |
| Join.LeafUnder | src/main/java/org/neo4j/gspatial/index/rtree/query/QueryUtils.java:129-131 | nothing lies below a leaf |
| Join.EntryCovers | src/main/java/org/neo4j/gspatial/index/rtree/query/Join.java:58-61 | the entry on the way to a leaf covers whatever the leaf's bbox covers, so it passes the window filters |
| Join.WindowEntriesMember | src/main/java/org/neo4j/gspatial/index/rtree/query/Join.java:98-105 | every pair one child contributes is among those windowQuery returns |
| Join.WindowComplete | src/main/java/org/neo4j/gspatial/index/rtree/query/Join.java:94-106 | windowQuery misses no leaf below the directory node whose bbox shares a box with the leaf entry and the window |
| Join.JoinPairsMember | src/main/java/org/neo4j/gspatial/index/rtree/query/Join.java:72-90 | every leaf pair one sweep pair contributes is among those spatialJoin4 returns |
| Join.SpatialJoinComplete | src/main/java/org/neo4j/gspatial/index/rtree/query/Join.java:56-92 | spatialJoin4 misses no pair of leaves below the two nodes whose bboxes share a box lying in the window |
| Join.JoinPairComplete | src/main/java/org/neo4j/gspatial/index/rtree/query/Join.java:73-89 | a sweep pair whose entries lead down to two such leaves contributes that leaf pair |
| Join.Nested1 | src/main/java/org/neo4j/gspatial/index/rtree/query/QueryUtils.java:81-88 | a child of an R-tree node is an R-tree node |
| Join.RootPairsComplete | src/main/java/org/neo4j/gspatial/index/rtree/query/Join.java:43-45 | with the corrected root handling, no pair of leaves of two R-trees whose bboxes share a box is missed, and the roots then meet |
| Join.CandidateFound | src/main/java/org/neo4j/gspatial/index/rtree/query/Join.java:150-161 | two geometries under the roots whose stored envelopes intersect are among the candidate pairs of the corrected join |
| Join.QueryComplete | src/main/java/org/neo4j/gspatial/index/rtree/query/Join.java:40-181 | the corrected join on two R-trees reports every pair of geometries whose stored envelopes intersect and on which the predicate holds, for every operation but DISJOINT |
| Join.QuerySound | src/main/java/org/neo4j/gspatial/index/rtree/query/Join.java:40-181 | everything a join other than DISJOINT reports is a geometry pair of a leaf pair under the two roots on which the predicate holds |
| Join.DisjointExcludesIntersecting | src/main/java/org/neo4j/gspatial/index/rtree/query/Join.java:169-178 | DISJOINT never reports a pair, nor any pair with the same element ids, whose stored envelopes intersect and on which INTERSECTS holds |
| Join.QueryJoinsMeetingRoots | src/main/java/org/neo4j/gspatial/index/rtree/query/Join.java:43-48 | roots whose bboxes meet are joined through the corrected leaf pairs |
| Join.DisjointResult | src/main/java/org/neo4j/gspatial/index/rtree/query/Join.java:169-178 | DISJOINT reports exactly the pairs of the two indexes' geometries whose key is not among the INTERSECTS results' keys |
| JoinOld.AddPair | src/main/java/org/neo4j/gspatial/index/rtree/query/JoinOld.java:59-60 | computeIfAbsent(k, new list).add(v) appends v under k, adds k as a key, and keeps every other entry |
| JoinOld.Merge | src/main/java/org/neo4j/gspatial/index/rtree/query/JoinOld.java:65-68 | merging a child map adds its keys, concatenating the lists under a shared key, and keeps every other entry |
| JoinOld.MergeInto | src/main/java/org/neo4j/gspatial/index/rtree/query/JoinOld.java:65-68 | childResults.forEach with merge(addAll) gives the merged map, whatever order the child map's keys are visited in |
| JoinOld.PrefixEntries | src/main/java/org/neo4j/gspatial/index/rtree/query/JoinOld.java:53 | a prefix of an entry list is an entry list no higher than it |
| JoinOld.ChildEntries | src/main/java/org/neo4j/gspatial/index/rtree/query/QueryUtils.java:81-88 | the children of a boxed node are entries, all lower than the node |
| JoinOld.SingletonHeight | src/main/java/org/neo4j/gspatial/index/rtree/query/JoinOld.java:72 | Collections.singletonList(nwe) is an entry list as high as its entry |
| JoinOld.OldRecursiveSpatialJoin | src/main/java/org/neo4j/gspatial/index/rtree/query/JoinOld.java:49-92 | the two nested loops of oldRecursiveSpatialJoin return what the step function says for every pair of entries in turn |
| JoinOld.OldVisit | src/main/java/org/neo4j/gspatial/index/rtree/query/JoinOld.java:57-87 | the body of the inner loop for one pair: nothing unless the envelopes meet, two leaves recorded, otherwise the recursive join of the children, a leaf side standing as a one-entry list, merged in |
| JoinOld.UnderOneWiden | src/main/java/org/neo4j/gspatial/index/rtree/query/JoinOld.java:53-55 | a node reached from an entry of a list is reached from any list holding that entry |
| JoinOld.UnderChildren | src/main/java/org/neo4j/gspatial/index/rtree/query/JoinOld.java:62-64 | what lies under a child of n lies below n |
| JoinOld.OldStepMerges | src/main/java/org/neo4j/gspatial/index/rtree/query/JoinOld.java:61-86 | a step on meeting entries that are not both leaves merges the recursive child map into the map |
| JoinOld.ChildMapSound | src/main/java/org/neo4j/gspatial/index/rtree/query/JoinOld.java:61-86 | the recursive child map holds only pairs of leaves under the two entries whose bboxes meet |
| JoinOld.OldStepSound | src/main/java/org/neo4j/gspatial/index/rtree/query/JoinOld.java:57-87 | one step adds only a pair of meeting leaves under its two entries |
| JoinOld.OldRowSound | src/main/java/org/neo4j/gspatial/index/rtree/query/JoinOld.java:55-89 | the inner loop adds only pairs of leaves under the outer entry and an entry of the second list |
| JoinOld.OldJoinSound | src/main/java/org/neo4j/gspatial/index/rtree/query/JoinOld.java:49-92 | oldRecursiveSpatialJoin records only pairs of leaves whose bboxes meet, the key under an entry of the first list and the listed leaf under an entry of the second |
| JoinOld.OldStepGrows | src/main/java/org/neo4j/gspatial/index/rtree/query/JoinOld.java:57-87 | a step keeps every list in the map, only extending it |
| JoinOld.OldRowGrows | src/main/java/org/neo4j/gspatial/index/rtree/query/JoinOld.java:55-89 | the inner loop keeps every list in the map, only extending it |
| JoinOld.ReachesMeets | src/main/java/org/neo4j/gspatial/index/rtree/query/JoinOld.java:57 | entries covering two meeting leaves of R-trees meet too, so the envelope test never prunes such a pair |
| JoinOld.ChildOnPath | src/main/java/org/neo4j/gspatial/index/rtree/query/JoinOld.java:62-64 | a leaf under a directory entry lies under one of its children, which is an R-tree too |
| JoinOld.ChildMapComplete | src/main/java/org/neo4j/gspatial/index/rtree/query/JoinOld.java:61-86 | the recursive child map of two entries over two meeting leaves of R-trees holds their pair |
| JoinOld.OldStepComplete | src/main/java/org/neo4j/gspatial/index/rtree/query/JoinOld.java:57-87 | a step on two entries over two meeting leaves records their pair |
| JoinOld.OldRowComplete | src/main/java/org/neo4j/gspatial/index/rtree/query/JoinOld.java:55-89 | the inner loop records the pair of two meeting leaves under the outer entry and an entry of the list |
| JoinOld.OldJoinComplete | src/main/java/org/neo4j/gspatial/index/rtree/query/JoinOld.java:49-92 | on R-trees oldRecursiveSpatialJoin misses no pair of leaves with meeting bboxes under an entry of each list |
| JoinOld.LeavesGeometries | src/main/java/org/neo4j/gspatial/index/rtree/query/JoinOld.java:118-120 | the flatMap over the listed leaves yields exactly the geometries referenced from them |
| JoinOld.PairRow | src/main/java/org/neo4j/gspatial/index/rtree/query/JoinOld.java:122-123 | one geometry paired with every geometry of the list, in order |
| JoinOld.PairCross | src/main/java/org/neo4j/gspatial/index/rtree/query/JoinOld.java:121-123 | every geometry of the key leaf paired with every geometry of the listed leaves: the product of the two counts, and nothing else |
| JoinOld.CandidatePairs | src/main/java/org/neo4j/gspatial/index/rtree/query/JoinOld.java:115-125 | the candidate pairs in the map's iteration order are exactly the entry pairs of the keys |
| JoinOld.CandidatePairsMembers | src/main/java/org/neo4j/gspatial/index/rtree/query/JoinOld.java:115-125 | whatever the iteration order, the candidates are every geometry of a key leaf with every geometry of a leaf listed under it; the geometries' stored envelopes play no part |
| JoinOld.CandidatePairsPermutation | src/main/java/org/neo4j/gspatial/index/rtree/query/JoinOld.java:115-125 | two iteration orders of the same keys give the same candidates, counted with multiplicity |
| JoinOld.ExecuteOperationOld | src/main/java/org/neo4j/gspatial/index/rtree/query/JoinOld.java:114-130 | executeOperation reports exactly the candidate pairs on which the predicate holds |
| JoinOld.EntryOrder | src/main/java/org/neo4j/gspatial/index/rtree/query/JoinOld.java:115 | the HashMap's entry set is iterated with each key once |
| JoinOld.ExecuteOperationOldOrder | src/main/java/org/neo4j/gspatial/index/rtree/query/JoinOld.java:114-130 | the HashMap's iteration order changes only the order of the results |
| JoinOld.OperationCast | src/main/java/org/neo4j/gspatial/index/rtree/query/JoinOld.java:30 | the (String) cast accepts exactly a string or null, and fails with ClassCastException otherwise |
| JoinOld.NewJoinOld | src/main/java/org/neo4j/gspatial/index/rtree/query/JoinOld.java:25-32 | the constructor stores both roots and the unchecked operation name; failures come in the source's order |
| JoinOld.NameCheckedLate | src/main/java/org/neo4j/gspatial/index/rtree/query/JoinOld.java:25-43 | a name that is no operation is accepted by the old constructor and refused by the new one |
| JoinOld.OldExecutor | src/main/java/org/neo4j/gspatial/index/rtree/query/JoinOld.java:43 | building the executor from a null name fails with NullPointerException; a name is accepted exactly when it is an operation's, and then gives it |
| JoinOld.Query | src/main/java/org/neo4j/gspatial/index/rtree/query/JoinOld.java:34-47 | query fails on a root without a bbox, gives nothing when the roots' bboxes miss, and otherwise fails exactly when the executor does, or reports exactly the candidate pairs of the roots' children on which the predicate holds |
| JoinOld.OldJoinNothing | src/main/java/org/neo4j/gspatial/index/rtree/query/JoinOld.java:53-55 | pairing a list with nothing records nothing |
| JoinOld.OldLeafRoot | src/main/java/org/neo4j/gspatial/index/rtree/query/JoinOld.java:39 | only the roots' children are paired, so a leaf root gives no leaf pair |
| JoinOld.GeometryNodeReferenced | src/main/java/org/neo4j/gspatial/index/rtree/query/QueryUtils.java:110-117 | a geometry node of a leaf comes from one of its REFERENCE relationships |
| JoinOld.ReferencedGeometryNode | src/main/java/org/neo4j/gspatial/index/rtree/query/QueryUtils.java:110-117 | every REFERENCE relationship of a leaf gives one of its geometry nodes |
| JoinOld.LeafPairReported | src/main/java/org/neo4j/gspatial/index/rtree/query/JoinOld.java:114-130 | a leaf pair of the map reports every pair of their geometries on which the predicate holds |
| JoinOld.ReportedFrom | src/main/java/org/neo4j/gspatial/index/rtree/query/JoinOld.java:114-130 | a reported pair comes from REFERENCE relationships of a leaf pair of the map, and the predicate holds on it |
| JoinOld.RootsLeafMapSound | src/main/java/org/neo4j/gspatial/index/rtree/query/JoinOld.java:39 | the leaf map of the roots pairs leaves below the first root with leaves below the second whose bboxes meet |
| JoinOld.RootsLeafMapComplete | src/main/java/org/neo4j/gspatial/index/rtree/query/JoinOld.java:39 | on two R-trees the leaf map holds every pair of leaves below the roots whose bboxes meet |
| JoinOld.StoredMeet | src/main/java/org/neo4j/gspatial/index/rtree/query/JoinOld.java:57 | leaves of R-trees referencing geometries whose stored envelopes intersect have meeting bboxes |
| JoinOld.OldQuerySound | src/main/java/org/neo4j/gspatial/index/rtree/query/JoinOld.java:34-130 | everything the old join reports satisfies the predicate and pairs geometries of two leaves, below the two roots, whose bboxes meet; their own stored envelopes need not |
| JoinOld.OldQueryComplete | src/main/java/org/neo4j/gspatial/index/rtree/query/JoinOld.java:34-130 | on two R-trees the old join misses no pair of geometries below the roots whose stored envelopes intersect and on which the predicate holds |
| JoinOperations.NameInjective | src/main/java/org/neo4j/gspatial/functions/JoinOperationExecutor.java:26-36 | different operations have different names |
| JoinOperations.ToUpper | src/main/java/org/neo4j/gspatial/functions/JoinOperationExecutor.java:50 | toUpperCase keeps the length and upper-cases each ASCII letter, leaving every other character |
| JoinOperations.NameIsUpper | src/main/java/org/neo4j/gspatial/functions/JoinOperationExecutor.java:26-36 | every operation name is already upper-case |
| JoinOperations.NamesListed | src/main/java/org/neo4j/gspatial/functions/JoinOperationExecutor.java:26-36 | the ten names are the only operation names |
| JoinOperations.ValueOf | src/main/java/org/neo4j/gspatial/functions/JoinOperationExecutor.java:20 | valueOf gives the operation with exactly that name and fails with IllegalArgumentException on any other |
| JoinOperations.NewExecutor | src/main/java/org/neo4j/gspatial/functions/JoinOperationExecutor.java:17-24 | the constructor succeeds exactly when the name as given is an operation's, yielding that operation, and fails with IllegalArgumentException otherwise |
| JoinOperations.LowerCaseRejected | src/main/java/org/neo4j/gspatial/functions/JoinOperationExecutor.java:17-24 | a lower-case name passes isTopologyOperation but not valueOf, so the constructor refuses it |
| JoinOperations.UpperCasedAccepted | src/main/java/org/neo4j/gspatial/functions/JoinOperationExecutor.java:48-51 | an upper-cased name is accepted exactly when it spells an operation in any case, and gives that operation |
| JoinOperations.ExecuteOperation | src/main/java/org/neo4j/gspatial/functions/JoinOperationExecutor.java:54-58 | executeOperation reports exactly the pairs on which the predicate holds, as (node1, node2), never more than there are pairs |
| JoinOperations.ExecuteOperationCount | src/main/java/org/neo4j/gspatial/functions/JoinOperationExecutor.java:54-58 | each output appears as often as the input pairs of those two nodes when the predicate holds on them, and not at all otherwise |
| JoinOperations.ExecuteOperationFlat | src/main/java/org/neo4j/gspatial/functions/JoinOperationExecutor.java:54-58 | executeOperation is a flatMap of the per-pair output over the pairs |
| JoinOperations.ExecuteOperationPermutation | src/main/java/org/neo4j/gspatial/functions/JoinOperationExecutor.java:55 | permuted input pairs give permuted results, as the parallel stream may |
| HashTree.LinkedSymmetric | src/main/java/org/neo4j/gspatial/functions/HashTreeFunction.java:59-66 | relationshipExists looks at both directions of a node's relationships, so "a and b are linked" holds exactly when "b and a are linked" holds |
| HashTree.CreateOrSkip | src/main/java/org/neo4j/gspatial/functions/HashTreeFunction.java:53-57 | after createOrSkipRelationship the two nodes are linked both ways; the old relationships are a prefix of the new ones; exactly one relationship (from, to, t) is appended exactly when none linked them before |
| HashTree.CreateOrSkipIdempotent | src/main/java/org/neo4j/gspatial/functions/HashTreeFunction.java:53-57 | a second createOrSkipRelationship on the same pair, in either direction, adds nothing |
| HashTree.LinkedGrows | src/main/java/org/neo4j/gspatial/functions/HashTreeFunction.java:53-57 | relationships are only ever appended, so a link that held still holds |
| HashTree.FirstWhere | src/main/java/org/neo4j/gspatial/functions/HashTreeFunction.java:41-45 | the node findNodes yields first is the least id below the node count that satisfies the predicate, and there is none exactly when no id satisfies it |
| HashTree.FirstWhereIs | src/main/java/org/neo4j/gspatial/functions/HashTreeFunction.java:41-45 | the least id satisfying the predicate is the one found |
| HashTree.ExtendsTransitive | src/main/java/org/neo4j/gspatial/functions/HashTreeFunction.java:47-51 | creating nodes in two rounds extends the graph just as creating them in one round does |
| HashTree.FirstHashStable | src/main/java/org/neo4j/gspatial/functions/HashTreeFunction.java:41-51 | creating new HashTree nodes never changes which node findOrCreateHashNode finds for a geohash that already had one |
| HashTree.ClosestDescendantNode | src/main/java/org/neo4j/gspatial/functions/HashTreeFunction.java:93-107 | no descendant at MAX_GEOHASH_LENGTH 12 or beyond; otherwise the result is a HashTree node whose geohash starts with the parent and is one character longer, and there is none exactly when no such node exists |
| HashTree.DescendantFoundAgain | src/main/java/org/neo4j/gspatial/functions/HashTreeFunction.java:86-89 | findOrCreateHashNode on the descendant's geohash finds that same node again and creates none |
| HashTree.PrefixLinkedStable | src/main/java/org/neo4j/gspatial/functions/HashTreeFunction.java:73-83 | a CHILD_OF link made for one prefix survives the later rounds of the ancestor walk |
| HashTree.AncestorStep | src/main/java/org/neo4j/gspatial/functions/HashTreeFunction.java:75-82 | one round of the ancestor loop links the node of the current prefix with the node of the prefix one character longer, so every prefix from that length on is linked upwards |
| HashTree.HashGraph.constructor | src/main/java/org/neo4j/gspatial/functions/HashTreeFunction.java:20-22 | the graph holds the given nodes, geohash properties, geometry properties and relationships |
| HashTree.HashGraph.FindOrCreateHashNode | src/main/java/org/neo4j/gspatial/functions/HashTreeFunction.java:41-51 | returns the first HashTree node with the geohash when there is one and changes nothing; otherwise creates a new node, with the next id, carrying that geohash; afterwards that node is the one findNodes yields first |
| HashTree.HashGraph.RelationshipExists | src/main/java/org/neo4j/gspatial/functions/HashTreeFunction.java:59-66 | true exactly when some relationship of the type joins the two nodes, in either direction |
| HashTree.HashGraph.CreateOrSkipRelationship | src/main/java/org/neo4j/gspatial/functions/HashTreeFunction.java:53-57 | the relationships become CreateOrSkip of the old ones; nodes and properties are unchanged |
| HashTree.HashGraph.LinkAncestor | src/main/java/org/neo4j/gspatial/functions/HashTreeFunction.java:76-80 | one round of manageAncestorRelationship: the ancestor's node is found or created, and then linked by CHILD_OF with the node of the longer prefix |
| HashTree.HashGraph.ManageAncestorRelationship | src/main/java/org/neo4j/gspatial/functions/HashTreeFunction.java:73-83 | an empty geohash fails at substring(0, -1) and changes nothing; otherwise every proper non-empty prefix of the geohash has a node linked by CHILD_OF with the node of the prefix one longer, the only nodes created carry such prefixes, and only CHILD_OF relationships are added |
| HashTree.HashGraph.FindClosestDescendantGeohash | src/main/java/org/neo4j/gspatial/functions/HashTreeFunction.java:93-107 | the loop over the HashTree nodes returns the geohash of ClosestDescendantNode |
| HashTree.HashGraph.ManageDescendantRelationship | src/main/java/org/neo4j/gspatial/functions/HashTreeFunction.java:85-91 | with no closest descendant nothing changes; otherwise the hash node is linked by CHILD_OF with the descendant's node and nothing else changes |
| HashTree.HashGraph.SetHashTree | src/main/java/org/neo4j/gspatial/functions/HashTreeFunction.java:24-31 | an empty geohash fails with IndexOutOfBounds; otherwise the result is a HashTree node carrying the geohash, linked by INDEX_OF from the geometry node, with every prefix of the geohash linked upwards; relationships are only added and existing nodes keep their geohash |
| HashTree.Base32Alphabet | src/main/java/org/neo4j/gspatial/functions/HashTreeFunction.java:155 | checkNear's alphabet has 32 characters and contains none of a, i, l and o |
| HashTree.NearSameParent | src/main/java/org/neo4j/gspatial/functions/HashTreeFunction.java:144-163 | when g1 is a cell of a parent geohash, checkNear(g1, g2) holds exactly when g2 is a cell of the same parent whose last character is in the alphabet |
| HashTree.NearSymmetric | src/main/java/org/neo4j/gspatial/functions/HashTreeFunction.java:144-163 | on geohashes checkNear is symmetric, and a non-empty geohash is near itself |
| HashTree.CheckNear | src/main/java/org/neo4j/gspatial/functions/HashTreeFunction.java:144-163 | false for geohashes of different lengths or different prefixes; otherwise whether the loop finds g2's last character among the 32; a missing geohash property or two empty geohashes fail; equals NearNodes |
| HashTree.WalkStep | src/main/java/org/neo4j/gspatial/functions/HashTreeFunction.java:176-188 | adding one CHILD_OF step to a walk gives a walk one step longer |
| HashTree.ReachableSymmetric | src/main/java/org/neo4j/gspatial/functions/HashTreeFunction.java:181-182 | getOtherNode follows CHILD_OF relationships both ways, so a walk from a to b reversed is a walk from b to a |
| HashTree.WalkStaysIn | src/main/java/org/neo4j/gspatial/functions/HashTreeFunction.java:176-188 | a walk that starts in a set closed under CHILD_OF neighbours stays inside that set |
| HashTree.ClosedUnreachable | src/main/java/org/neo4j/gspatial/functions/HashTreeFunction.java:176-189 | no walk leaves a closed set that does not hold the child, so the child is not reachable |
| HashTree.Neighbours | src/main/java/org/neo4j/gspatial/functions/HashTreeFunction.java:181-182 | the other nodes of a node's CHILD_OF relationships are exactly the nodes linked with it |
| HashTree.NeighboursEndpoints | src/main/java/org/neo4j/gspatial/functions/HashTreeFunction.java:181-186 | every neighbour the search queues is the start node or an end of a relationship, so the search space is finite |
| HashTree.FollowChildOf | src/main/java/org/neo4j/gspatial/functions/HashTreeFunction.java:181-187 | the inner loop reports the child exactly when the child is a neighbour of the current node; otherwise it appends every neighbour to the queue |
| HashTree.VisitStep | src/main/java/org/neo4j/gspatial/functions/HashTreeFunction.java:176-187 | visiting a node keeps two facts: every queued node is reachable from the parent, and every neighbour of a visited node has been queued and is not the child |
| HashTree.CheckDescendant | src/main/java/org/neo4j/gspatial/functions/HashTreeFunction.java:172-190 | the breadth-first search returns true exactly when the child can be reached from the parent by one or more CHILD_OF steps, each taken in either direction |
| HashTree.ContainsIsWithin | src/main/java/org/neo4j/gspatial/functions/HashTreeFunction.java:133-142 | since the search ignores direction, CONTAINS and WITHIN give the same answer, and CONTAINS is symmetric in its two nodes |
| HashTree.SameNodeRelated | src/main/java/org/neo4j/gspatial/functions/HashTreeFunction.java:133-142 | two equal geohash nodes are related under each of the ten operation names, and any other name is an IllegalArgumentException |
| HashTree.ContainsIntersects | src/main/java/org/neo4j/gspatial/functions/HashTreeFunction.java:136-139 | when CONTAINS accepts a pair, INTERSECTS accepts it too, unless checkNear fails first |
| HashTree.CheckGeoHashRelation | src/main/java/org/neo4j/gspatial/functions/HashTreeFunction.java:133-142 | the switch, with its short-circuit order, gives Relation: equality for EQUALS; equality or descent one way for CONTAINS/COVERS, the other way for WITHIN/COVERED_BY; equality, nearness or descent either way for the five others; IllegalArgument for any other name |
| HashTree.GeohashNodeOf | src/main/java/org/neo4j/gspatial/functions/HashTreeFunction.java:165-170 | the result is linked with the node by INDEX_OF; there is none exactly when the node has no INDEX_OF relationship |
| HashTree.FindGeohashNode | src/main/java/org/neo4j/gspatial/functions/HashTreeFunction.java:165-170 | the loop returns the other node of the first INDEX_OF relationship, which is GeohashNodeOf |
| HashTree.AsNode | src/main/java/org/neo4j/gspatial/functions/HashTreeFunction.java:114-115 | the (Node) cast accepts a node or null and throws ClassCastException on anything else |
| HashTree.GeometryOf | src/main/java/org/neo4j/gspatial/functions/HashTreeFunction.java:117-118 | getProperty("geometry") gives the node's WKT; on null it is a NullPointerException, and when the property is absent it fails |
| HashTree.HashRelation | src/main/java/org/neo4j/gspatial/functions/HashTreeFunction.java:109-131 | fewer than two arguments is an IllegalArgumentException; on success both arguments were nodes with geometries and are replaced by those geometries; false is inserted at index 2 exactly when both nodes have geohash nodes that are unrelated under the upper-cased operation name; the remaining arguments are kept |
| HashTree.NonNodeRejected | src/main/java/org/neo4j/gspatial/functions/HashTreeFunction.java:114-118 | a first argument that is not a node fails before any geohash lookup: NullPointer for null next to a node or null, ClassCast otherwise |
| HashTree.FindHashRelation | src/main/java/org/neo4j/gspatial/functions/HashTreeFunction.java:109-131 | findHashRelation, with its calls, computes HashRelation |
| RecordCounter.IncrementsCount | src/main/java/org/neo4j/gspatial/index/rtree/SpatialIndexRecordCounter.java:10-17 | n int increments from 0 give n wrapped to an int, hence n itself below 2^31 |
| RecordCounter.SpatialIndexRecordCounter.constructor | src/main/java/org/neo4j/gspatial/index/rtree/SpatialIndexRecordCounter.java:7-8 | both counters start at 0 |
| RecordCounter.SpatialIndexRecordCounter.OnIndexReference | src/main/java/org/neo4j/gspatial/index/rtree/SpatialIndexRecordCounter.java:10-12 | geometryResult goes up by one, as an int; indexResult is unchanged |
| RecordCounter.SpatialIndexRecordCounter.NeedsToVisit | src/main/java/org/neo4j/gspatial/index/rtree/SpatialIndexRecordCounter.java:14-17 | always true; indexResult goes up by one, as an int; geometryResult is unchanged |
| RecordCounter.SpatialIndexRecordCounter.GetGeometryResult | src/main/java/org/neo4j/gspatial/index/rtree/SpatialIndexRecordCounter.java:19-21 | returns geometryResult |
| RecordCounter.SpatialIndexRecordCounter.GetIndexResult | src/main/java/org/neo4j/gspatial/index/rtree/SpatialIndexRecordCounter.java:23-25 | returns indexResult |
| RecordCounter.CountVisits | src/main/java/org/neo4j/gspatial/index/rtree/SpatialIndexRecordCounter.java:5-26 | a fresh counter shown a list of index nodes and a list of geometry references counts each list's length, as an int |
| SearchResultsModel.SearchResults.constructor | src/main/java/org/neo4j/gspatial/index/rtree/filter/SearchResults.java:8-13 | wraps the traversal; count starts at -1 |
| SearchResultsModel.SearchResults.Iterator | src/main/java/org/neo4j/gspatial/index/rtree/filter/SearchResults.java:15-18 | yields the wrapped traversal's nodes |
| SearchResultsModel.SearchResults.Count | src/main/java/org/neo4j/gspatial/index/rtree/filter/SearchResults.java:20-29 | the first call counts the nodes as an int and stores that count; later calls return the stored count; below 2^31 nodes the count is the number of nodes and is never negative |
| SearchResultsModel.CountTwice | src/main/java/org/neo4j/gspatial/index/rtree/filter/SearchResults.java:20-29 | two calls of count() give the same answer, the number of nodes as an int |
| RtreeUtility.AllMetasMembers | src/main/java/org/neo4j/gspatial/utils/RtreeUtility.java:95-98 | a metadata node is collected exactly when some layer holds it |
| RtreeUtility.IndexCounts | src/main/java/org/neo4j/gspatial/utils/RtreeUtility.java:99 | the totalIndexCount of each metadata node, in order |
| RtreeUtility.GeometryCounts | src/main/java/org/neo4j/gspatial/utils/RtreeUtility.java:100 | the totalGeometryCount of each metadata node, in order |
| RtreeUtility.AggregateWraps | src/main/java/org/neo4j/gspatial/utils/RtreeUtility.java:102-108 | multiplying or adding step by step in int arithmetic gives the exact product or sum wrapped to an int once |
| RtreeUtility.AggregateNext | src/main/java/org/neo4j/gspatial/utils/RtreeUtility.java:102-108 | one more metadata node takes both aggregates one int step further |
| RtreeUtility.GetMetas | src/main/java/org/neo4j/gspatial/utils/RtreeUtility.java:86-112 | a fresh two-element array: [0] is the aggregate of the totalIndexCount of every metadata node of every layer and [1] that of the totalGeometryCount; a JOIN multiplies starting from 1, the other queries add starting from 0 |
| RtreeUtility.AddLayer | src/main/java/org/neo4j/gspatial/utils/RtreeUtility.java:96-109 | the inner loop takes each metadata node of one layer into both aggregates |
| RtreeUtility.NoMetadata | src/main/java/org/neo4j/gspatial/utils/RtreeUtility.java:87-93 | with no metadata nodes getMetas returns its starting values: 1 and 1 for JOIN, 0 and 0 otherwise |
| Monitor.PaddedTo | src/main/java/org/neo4j/gspatial/index/rtree/RTreeMonitor.java:94-98 | the levels list is padded with empty lists until index level exists; existing levels are kept |
| Monitor.CountCase | src/main/java/org/neo4j/gspatial/index/rtree/RTreeMonitor.java:64-72 | addCase puts 1 for a new key and one more, as an int, for a known key; every other key is unchanged |
| Monitor.PaddedIdempotent | src/main/java/org/neo4j/gspatial/index/rtree/RTreeMonitor.java:94-98 | padding twice pads once, and padding to a lower level after that changes nothing |
| Monitor.CountCaseTwice | src/main/java/org/neo4j/gspatial/index/rtree/RTreeMonitor.java:64-72 | a new key counted twice has count 2, and other keys keep their counts |
| Monitor.RTreeMonitor.constructor | src/main/java/org/neo4j/gspatial/index/rtree/RTreeMonitor.java:20-22 | the constructor resets: counters at 0, no cases, no matched levels |
| Monitor.RTreeMonitor.SetHeight | src/main/java/org/neo4j/gspatial/index/rtree/RTreeMonitor.java:25-27 | height becomes the argument; nothing else changes |
| Monitor.RTreeMonitor.GetHeight | src/main/java/org/neo4j/gspatial/index/rtree/RTreeMonitor.java:29-31 | returns height |
| Monitor.RTreeMonitor.AddNbrRebuilt | src/main/java/org/neo4j/gspatial/index/rtree/RTreeMonitor.java:34-36 | nbrRebuilt goes up by one, as an int; nothing else changes |
| Monitor.RTreeMonitor.GetNbrRebuilt | src/main/java/org/neo4j/gspatial/index/rtree/RTreeMonitor.java:39-41 | returns nbrRebuilt |
| Monitor.RTreeMonitor.AddSplit | src/main/java/org/neo4j/gspatial/index/rtree/RTreeMonitor.java:44-46 | nbrSplit goes up by one, as an int; nothing else changes |
| Monitor.RTreeMonitor.GetNbrSplit | src/main/java/org/neo4j/gspatial/index/rtree/RTreeMonitor.java:59-61 | returns nbrSplit |
| Monitor.RTreeMonitor.AddCase | src/main/java/org/neo4j/gspatial/index/rtree/RTreeMonitor.java:64-72 | the case counts become CountCase of the old ones; nothing else changes |
| Monitor.RTreeMonitor.GetCaseCounts | src/main/java/org/neo4j/gspatial/index/rtree/RTreeMonitor.java:75-77 | returns the case counts |
| Monitor.RTreeMonitor.Reset | src/main/java/org/neo4j/gspatial/index/rtree/RTreeMonitor.java:80-86 | counters at 0, no cases, no matched levels |
| Monitor.RTreeMonitor.EnsureMatchedTreeNodeLevel | src/main/java/org/neo4j/gspatial/index/rtree/RTreeMonitor.java:94-98 | the while loop pads the levels list to PaddedTo; with a negative level it adds nothing |
| Monitor.RTreeMonitor.MatchedTreeNode | src/main/java/org/neo4j/gspatial/index/rtree/RTreeMonitor.java:89-92 | pads to the level and appends the node to that level's list; a negative level fails with IndexOutOfBounds and changes nothing |
| Monitor.RTreeMonitor.GetMatchedTreeNodes | src/main/java/org/neo4j/gspatial/index/rtree/RTreeMonitor.java:101-104 | pads to the level and returns a copy of that level's list: the old list for an existing level, empty for a new one; a negative level fails with IndexOutOfBounds |

## Left out

- Neo4j itself: transactions, labels, property storage and Cypher execution. The graph is a value, and the queries read it through the `Graph` datatype.
- Node identity: nodes are compared by an id, not by element id, and the tree is assumed acyclic, as a datatype makes it.
- A stored envelope that fails to decode cannot sit in a `Graph` value. Decoding and its failures are modelled once, in `BboxDecoder`.
- Foreign code comes in as function parameters:
  - the JTS predicates (within, intersects, distance, centroid, buffer);
  - WKT parsing;
  - geohash generation;
  - the geometry decoder;
  - the Cypher sub-query of filterCandidatesWithCypher;
  - the geometry-node lookup of setHashTree (findGeometryNode).
- Iteration orders:
  - HashMap iteration in JoinOld is an input, a sequence of the map's keys. Lemmas show that JoinOld's results do not depend on it, up to permutation.
  - findNodes is fixed to ascending id order (HashTree.FirstWhere).
  - getRelationships is fixed to the order stored.
  - Three results depend on these fixed orders. HashTree.FindGeohashNode returns the other end of the first INDEX_OF relationship. HashTree.HashGraph.FindClosestDescendantGeohash returns the one-longer geohash of least node id. Knn keeps entries of equal distance in list order, because SortBy is stable.
- Parallel streams in the join executors are modelled as sequential streams. Lemmas show that a permuted input gives a permuted output.
- ProgressLoggingListener calls, logging, and the NODE_GLOBAL uniqueness of the RangeOld traversal are not modelled. Uniqueness is not needed on a tree.
- Floating point: coordinates are reals, so rounding is not modelled. NaN appears only where a 0/0 is reached (Envelope.overlap). Double.MAX_VALUE is the constructor `MaxValue` of `Knn.NnDist`.
- Euclidean distances are squared throughout, and a reported Knn distance is the square of the Java value.
- Envelope.toGeometry, RtreeUtility.getLayer, checkArgs/checkArg and copyNodes are not part of this model. Nor are the Output, RangeOutput, KnnOutput and JoinOutput record classes, beyond datatypes that carry their fields.
- Join.Query: requires every CHILD end node of both trees to carry a bbox. A missing one would make the Java code throw at some depth, and only a missing root bbox is modelled as the NullPointerException it raises.
- Join.OperationText: the toString() of a non-string argument is modelled as the empty string. That names no operation, just as the text of a number or a list never does.
- JoinOperations.ToUpper: only ASCII letters are upper-cased. String.toUpperCase's other Unicode mappings and its locale are not modelled.
- JoinOld.Query: keeps the root handling as written, pairing only the roots' children (JoinOld.OldLeafRoot). The corrected root handling is modelled for Join only.
- JoinOld.Query: requires every CHILD end node of both trees to carry a bbox (`Boxed`). A CHILD without one makes the Java code throw NullPointerException when it tests that child's null envelope for intersection, and that failure is not modelled.
- Knn.Query: returns the queue's contents as a sequence in the model's own order. PriorityQueue.iterator's internal array order is not modelled; only the contents are stated. Among entries of equal largest distance, poll removes the first one.
- KnnCompleteness.QueryNearest: proves the k nearest of all geometries only for indexes whose CHILD bboxes are no farther from the query point than any geometry below them (`DistanceIndexed`). No node may mix CHILD and REFERENCE relationships. On other indexes only the top k of what was offered is proved.
- RtreeUtility.GetMetas: the totalIndexCount and totalGeometryCount properties are taken to be present ints. The ClassCastException and NotFoundException of the casts are not modelled.
- SearchResultsModel.SearchResults.Count: the wrapped traversal is taken to yield the same nodes on every iteration.
- HashTree.HashGraph.ManageAncestorRelationship: the `ancestorNode != null` test is always true, because findOrCreateHashNode never returns null, so the model has no branch for it.
- Fixed-width arithmetic appears explicitly only where a Java int counter or product can overflow: RecordCounter, Monitor, SearchResults.count and getMetas (`Wrappers.ToInt32`). Knn's k is a Long narrowed to an int (`Arguments.DecodeK`).

## Findings

| source | as written | input that shows it | evidently intended | confidence | as-written member | corrected member |
|---|---|---|---|---|---|---|
| src/main/java/org/neo4j/gspatial/index/rtree/KnnVisitor.java:36-43 | nnDistTemp is updated only when the new distance beats it, even while the queue holds fewer than k entries. The first entry then fixes nnDistTemp, and later nearer-than-kth entries are rejected once the queue is full. Because the cut-off of Knn.java:85-86 reads nnDistTemp, a child can also be pruned while the queue still has room | (a) k = 2, references at distances 5, 7, 6 in that order: the queue ends as {5, 7} with nnDistTemp 5, and 6 is rejected. (b) k = 2, a root with two leaf children whose bboxes lie at squared distances 0 and 9, holding one geometry each at 4 and 9: the second leaf is pruned and the query returns only the geometry at 4 | nnDistTemp is the largest distance in the queue once it holds k entries, and Double.MAX_VALUE before that, so the queue keeps the k nearest | not executed | Knn.OfferAsWritten, Knn.AsWrittenDropsNearer, Knn.AsWrittenCutsOffEarly, KnnCompleteness.AsWrittenMissesGeometry | Knn.Offer, Knn.OfferKeepsNearest, Knn.KnnVisitor.OnIndexReference, Knn.TopK, Knn.CorrectedVisitsBoth, KnnCompleteness.QueryNearest |
| src/main/java/org/neo4j/gspatial/index/rtree/query/Join.java:43-45 | query() passes the two roots to spatialJoin4, which pairs only their children. When a root is a leaf, no leaf pair is found: INTERSECTS returns nothing and DISJOINT returns every pair | two one-leaf indexes, each holding one geometry whose stored envelope is the unit square | the roots themselves are the first pair, so a leaf root is paired with the other tree | not executed | Join.QueryAsWritten, Join.AsWrittenLeafRoot, Join.AsWrittenMissesLeafRoots | Join.RootPairs, Join.CorrectedFindsLeafRoots, Join.QueryComplete |
