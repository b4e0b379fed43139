/**
 * The procedure arguments the queries decode: the Range/RangeOld reference envelope and the
 * Knn query point and k. JTS buffering, parsing and centroids are foreign code and come in
 * as function parameters.
 */
module Arguments {
  import opened Wrappers
  import opened Boxes
  import opened Graph

  /** A Cypher value handed to a procedure (an ArrayList for a list). */
  datatype Value =
    | VNode(node: Node)
    | VDouble(d: real)
    | VLong(l: int)
    | VString(s: string)
    | VList(items: seq<Value>)
    | VNull

  /** A (Double) cast followed by unboxing: null unboxes to a NullPointerException. */
  function AsDouble(v: Value): (r: Result<real>)
    ensures r.Ok? <==> v.VDouble?
    ensures r.Ok? ==> r.value == v.d
    ensures r.Err? ==> r.error == (if v.VNull? then NullPointer else ClassCast)
  {
    match v
    case VDouble(d) => Ok(d)
    case VNull => Err(NullPointer)
    case _ => Err(ClassCast)
  }

  /** ArrayList.get(0) instanceof Double, where get(0) of an empty list throws. */
  function FirstIsDouble(items: seq<Value>): Result<bool>
  {
    if items == [] then Err(IndexOutOfBounds) else Ok(items[0].VDouble?)
  }

  /**
   * Range/RangeOld decodeReferenceEnvelope. Four arguments are (xmin, xmax, ymin, ymax);
   * two arguments are a geometry node or an [x, y] list plus a buffer distance; any other
   * shape is an IllegalArgumentException. bufferNode and bufferPoint stand for the JTS
   * buffer of the node's geometry and of the point (x, y), taken to an envelope by the 2-D
   * constructor, which refuses the empty envelope of a large negative buffer.
   */
  function DecodeReferenceEnvelope(args: seq<Value>, bufferNode: (Node, real) -> Result<Rect>,
                                   bufferPoint: (real, real, real) -> Result<Rect>): (r: Result<Box>)
    ensures |args| != 2 && |args| != 4 ==> r == Err(IllegalArgument)
    ensures |args| == 4 && (forall i :: 0 <= i < 4 ==> args[i].VDouble?) ==>
              r == NewRect(args[0].d, args[1].d, args[2].d, args[3].d)
    ensures |args| == 4 && r.Ok? ==>
              (forall i :: 0 <= i < 4 ==> args[i].VDouble?) &&
              r.value.min == [args[0].d, args[2].d] && r.value.max == [args[1].d, args[3].d]
    ensures |args| == 2 && args[0].VNode? && args[1].VDouble? ==>
              r == bufferNode(args[0].node, args[1].d)
    ensures |args| == 2 && !args[0].VNode? && !args[0].VList? ==> r == Err(IllegalArgument)
    ensures |args| == 2 && args[0].VList? && args[0].items != [] && !args[0].items[0].VDouble? ==>
              r == Err(IllegalArgument)
    ensures r.Ok? && |args| == 2 && args[0].VList? ==>
              |args[0].items| >= 2 && forall i :: 0 <= i < 2 ==> args[0].items[i].VDouble?
  {
    if |args| == 2 then
      match args[0]
      case VNode(n) =>
        (match AsDouble(args[1])
         case Err(e) => Err(e)
         case Ok(d) => bufferNode(n, d))
      case VList(items) =>
        (match FirstIsDouble(items)
         case Err(e) => Err(e)
         case Ok(false) => Err(IllegalArgument)
         case Ok(true) =>
           match AsDouble(args[1])
           case Err(e) => Err(e)
           case Ok(d) =>
             if |items| < 2 then Err(IndexOutOfBounds)
             else
               match AsDouble(items[1])
               case Err(e) => Err(e)
               case Ok(y) => bufferPoint(items[0].d, y, d))
      case _ => Err(IllegalArgument)
    else if |args| == 4 then
      match AsDouble(args[0])
      case Err(e) => Err(e)
      case Ok(xmin) =>
        match AsDouble(args[1])
        case Err(e) => Err(e)
        case Ok(xmax) =>
          match AsDouble(args[2])
          case Err(e) => Err(e)
          case Ok(ymin) =>
            match AsDouble(args[3])
            case Err(e) => Err(e)
            case Ok(ymax) =>
              match NewRect(xmin, xmax, ymin, ymax)
              case Err(e) => Err(e)
              case Ok(b) => Ok(b)
    else Err(IllegalArgument)
  }

  /**
   * Knn decodeQueryPoint, reduced to the coordinates KnnVisitor keeps: the centroid of the
   * query geometry. A node contributes its geometry's centroid; a list starting with a
   * Double is the point (list[0], list[1]); anything else is an IllegalArgumentException.
   */
  function DecodeQueryPoint(arg: Value, centroid: Node -> (real, real)): (r: Result<seq<real>>)
    ensures r.Ok? ==> |r.value| == 2
    ensures arg.VNode? ==> r == Ok([centroid(arg.node).0, centroid(arg.node).1])
    ensures arg.VList? && |arg.items| >= 2 && arg.items[0].VDouble? && arg.items[1].VDouble? ==>
              r == Ok([arg.items[0].d, arg.items[1].d])
    ensures !arg.VNode? && !arg.VList? ==> r == Err(IllegalArgument)
    ensures arg.VList? && arg.items != [] && !arg.items[0].VDouble? ==> r == Err(IllegalArgument)
  {
    match arg
    case VNode(n) => Ok([centroid(n).0, centroid(n).1])
    case VList(items) =>
      (match FirstIsDouble(items)
       case Err(e) => Err(e)
       case Ok(false) => Err(IllegalArgument)
       case Ok(true) =>
         if |items| < 2 then Err(IndexOutOfBounds)
         else
           match AsDouble(items[1])
           case Err(e) => Err(e)
           case Ok(y) => Ok([items[0].d, y]))
    case _ => Err(IllegalArgument)
  }

  /** ((Long) args.get(1)).intValue(): the low 32 bits of the Long, as a Java int. */
  function DecodeK(v: Value): (r: Result<int>)
    ensures r.Ok? <==> v.VLong?
    ensures r.Ok? ==> r.value == ToInt32(v.l) && -0x8000_0000 <= r.value < 0x8000_0000
    ensures v.VNull? ==> r == Err(NullPointer)
  {
    match v
    case VLong(l) => Ok(ToInt32(l))
    case VNull => Err(NullPointer)
    case _ => Err(ClassCast)
  }

  /** A k that fits in an int keeps its value; 2^32 + 5 becomes 5. */
  lemma DecodeKTruncates(l: int)
    ensures -0x8000_0000 <= l < 0x8000_0000 ==> DecodeK(VLong(l)) == Ok(l)
    ensures DecodeK(VLong(0x1_0000_0005)) == Ok(5)
    ensures DecodeK(VLong(0x8000_0000)) == Ok(-0x8000_0000)
  {
  }
}
