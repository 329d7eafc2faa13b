/**
 * Pixel coordinates and the two integer-valued distance metrics of
 * `DistanceAlgorithm` (voronoi.py:73-83).
 */
module Geometry {

  /** A pixel or generator coordinate (column x, row y). */
  datatype Point = Point(x: int, y: int)

  /** The integer metrics a region can be bound to. */
  datatype Metric = Manhattan | Chebyshev

  function Abs(v: int): nat
  {
    if v < 0 then -v else v
  }

  function Min(a: int, b: int): int
  {
    if a <= b then a else b
  }

  function Max(a: int, b: int): int
  {
    if a <= b then b else a
  }

  /** `manhattan`: the sum of the absolute coordinate differences. */
  function ManhattanDistance(x: int, y: int, xn: int, yn: int): (d: nat)
    ensures d == 0 <==> x == xn && y == yn
    ensures Abs(xn - x) <= d && Abs(yn - y) <= d
  {
    Abs(xn - x) + Abs(yn - y)
  }

  /**
   * `chebyshev`, as the source writes it: the smaller absolute difference
   * plus the gap between the two absolute differences. Its contract is the
   * textbook definition, the larger of the two absolute differences.
   */
  function ChebyshevDistance(x: int, y: int, xn: int, yn: int): (d: nat)
    ensures d == Max(Abs(xn - x), Abs(yn - y))
    ensures d == 0 <==> x == xn && y == yn
  {
    Min(Abs(xn - x), Abs(yn - y)) + Abs(Abs(xn - x) - Abs(yn - y))
  }

  /** The distance from pixel (x, y) to generator (xn, yn) under metric m. */
  function Distance(m: Metric, x: int, y: int, xn: int, yn: int): (d: nat)
    ensures d == 0 <==> x == xn && y == yn
    ensures d >= Abs(xn - x) && d >= Abs(yn - y)
  {
    match m
    case Manhattan => ManhattanDistance(x, y, xn, yn)
    case Chebyshev => ChebyshevDistance(x, y, xn, yn)
  }

  /** Both metrics are symmetric in the pixel and the generator. */
  lemma DistanceSymmetric(m: Metric, x: int, y: int, xn: int, yn: int)
    ensures Distance(m, x, y, xn, yn) == Distance(m, xn, yn, x, y)
  {
  }
}
