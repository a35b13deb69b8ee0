/** The share type of Point.java: an (x, y) pair of big integers, immutable once built. */
module Points {

  datatype Point = Point(x: int, y: int)

  /** The x-coordinates of a list of points, in order. */
  function Xs(points: seq<Point>): (xs: seq<int>)
    ensures |xs| == |points| && forall i :: 0 <= i < |points| ==> xs[i] == points[i].x
  {
    seq(|points|, i requires 0 <= i < |points| => points[i].x)
  }
}
