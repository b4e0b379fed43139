/**
 * EnvelopeDecoderFromBbox: envelopes read from stored properties. An index node stores
 * its bbox as one double[4] laid out [minX, minY, maxX, maxY]; a reference relationship
 * stores four Double properties min_x, max_x, min_y, max_y. Both go through the 2-D
 * constructor, whose argument order is (xmin, xmax, ymin, ymax).
 */
module BboxDecoder {
  import opened Wrappers
  import opened Boxes
  import opened Graph

  /** A stored property value, as far as the decoder's casts distinguish them. */
  datatype PropValue = DoubleArray(items: seq<real>) | DoubleValue(d: real) | OtherValue

  /** The properties of a node or relationship. */
  type Properties = map<string, PropValue>

  /** The bbox property laid out as [minX, minY, maxX, maxY]. */
  predicate BboxLayout(props: Properties, name: string, minX: real, minY: real, maxX: real, maxY: real)
  {
    name in props && props[name].DoubleArray? && |props[name].items| >= 4 &&
    props[name].items[0] == minX && props[name].items[1] == minY &&
    props[name].items[2] == maxX && props[name].items[3] == maxY
  }

  /**
   * decodeEnvelope: (double[]) getProperty(name), then Envelope(bbox[0], bbox[2], bbox[1],
   * bbox[3]). A missing property is Neo4j's NotFoundException, another type a
   * ClassCastException, a shorter array an ArrayIndexOutOfBoundsException.
   */
  function DecodeEnvelope(props: Properties, name: string): (r: Result<Rect>)
    ensures name !in props ==> r == Err(NotFound)
    ensures name in props && !props[name].DoubleArray? ==> r == Err(ClassCast)
    ensures name in props && props[name].DoubleArray? && |props[name].items| < 4 ==> r == Err(IndexOutOfBounds)
    ensures r.Ok? <==> exists minX, minY, maxX, maxY ::
                         BboxLayout(props, name, minX, minY, maxX, maxY) && minX <= maxX && minY <= maxY
    ensures r.Ok? ==> BboxLayout(props, name, r.value.min[0], r.value.min[1], r.value.max[0], r.value.max[1])
  {
    if name !in props then Err(NotFound)
    else match props[name]
      case DoubleArray(bbox) =>
        if |bbox| < 4 then Err(IndexOutOfBounds)
        else
          assert BboxLayout(props, name, bbox[0], bbox[1], bbox[2], bbox[3]);
          NewRect(bbox[0], bbox[2], bbox[1], bbox[3])
      case _ => Err(ClassCast)
  }

  /** (Double) getProperty(key). */
  function DoubleProperty(props: Properties, key: string): (r: Result<real>)
    ensures r.Ok? <==> key in props && props[key].DoubleValue?
    ensures r.Ok? ==> r.value == props[key].d
    ensures r.Err? ==> r.error == (if key in props then ClassCast else NotFound)
  {
    if key !in props then Err(NotFound)
    else if props[key].DoubleValue? then Ok(props[key].d)
    else Err(ClassCast)
  }

  /** The four edge properties, all present as Doubles. */
  predicate EdgeLayout(props: Properties, minX: real, minY: real, maxX: real, maxY: real)
  {
    DoubleProperty(props, "min_x") == Ok(minX) && DoubleProperty(props, "min_y") == Ok(minY) &&
    DoubleProperty(props, "max_x") == Ok(maxX) && DoubleProperty(props, "max_y") == Ok(maxY)
  }

  /**
   * decodeEnvelopeEdge: the properties are read in the order min_x, max_x, min_y, max_y,
   * so the first one that is missing or not a Double decides the failure.
   */
  function DecodeEnvelopeEdge(props: Properties): (r: Result<Rect>)
    ensures DoubleProperty(props, "min_x").Err? ==> r == Err(DoubleProperty(props, "min_x").error)
    ensures r.Ok? <==> exists minX, minY, maxX, maxY ::
                         EdgeLayout(props, minX, minY, maxX, maxY) && minX <= maxX && minY <= maxY
    ensures r.Ok? ==> EdgeLayout(props, r.value.min[0], r.value.min[1], r.value.max[0], r.value.max[1])
  {
    match DoubleProperty(props, "min_x")
    case Err(e) => Err(e)
    case Ok(minX) =>
      match DoubleProperty(props, "max_x")
      case Err(e) => Err(e)
      case Ok(maxX) =>
        match DoubleProperty(props, "min_y")
        case Err(e) => Err(e)
        case Ok(minY) =>
          match DoubleProperty(props, "max_y")
          case Err(e) => Err(e)
          case Ok(maxY) =>
            assert EdgeLayout(props, minX, minY, maxX, maxY);
            NewRect(minX, maxX, minY, maxY)
  }

  /**
   * The two layouts describe the same envelope: a bbox array [a, b, c, d] and edge
   * properties min_x = a, min_y = b, max_x = c, max_y = d decode alike, both as the
   * box from (a, b) to (c, d).
   */
  lemma LayoutsAgree(node: Properties, name: string, edge: Properties, a: real, b: real, c: real, d: real)
    requires BboxLayout(node, name, a, b, c, d) && EdgeLayout(edge, a, b, c, d)
    ensures DecodeEnvelope(node, name) == DecodeEnvelopeEdge(edge)
    ensures DecodeEnvelope(node, name).Ok? ==>
              DecodeEnvelope(node, name).value == Box2D(a, c, b, d)
  {
  }
}
