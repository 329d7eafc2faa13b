/**
 * The distance-field labeler `DistanceAlgorithm.set_each_point`
 * (voronoi.py:85-105): every pixel of a width x height grid is given the
 * index of its nearest generator, provided that distance is within the cap.
 */
module Labeling {
  import opened Geometry

  /** A grid cell: unassigned (`None` in the source) or a region index. */
  datatype Label = Unassigned | Region(index: nat)

  /** The distance cap `d_limit`: unbounded (`float('inf')`) or an integer. */
  datatype Cap = Unbounded | AtMost(limit: nat)

  predicate Within(d: nat, cap: Cap)
  {
    cap.Unbounded? || d <= cap.limit
  }

  /** Distance from pixel (x, y) to generator i under that generator's own metric. */
  function DistanceTo(centers: seq<Point>, metrics: seq<Metric>, i: nat, x: int, y: int): nat
    requires i < |centers| == |metrics|
  {
    Distance(metrics[i], x, y, centers[i].x, centers[i].y)
  }

  /**
   * The generator the running-minimum scan settles on among the first k:
   * the lowest index whose distance is minimal.
   */
  function NearestAmong(centers: seq<Point>, metrics: seq<Metric>, x: int, y: int, k: nat): (i: nat)
    requires 0 < k <= |centers| == |metrics|
    ensures i < k
    ensures forall j :: 0 <= j < k ==>
      DistanceTo(centers, metrics, i, x, y) <= DistanceTo(centers, metrics, j, x, y)
    ensures forall j :: 0 <= j < i ==>
      DistanceTo(centers, metrics, j, x, y) > DistanceTo(centers, metrics, i, x, y)
  {
    if k == 1 then 0
    else
      var i := NearestAmong(centers, metrics, x, y, k - 1);
      if DistanceTo(centers, metrics, k - 1, x, y) < DistanceTo(centers, metrics, i, x, y) then k - 1 else i
  }

  /** The nearest generator over all of them (first one on ties). */
  function Nearest(centers: seq<Point>, metrics: seq<Metric>, x: int, y: int): nat
    requires 0 < |centers| == |metrics|
  {
    NearestAmong(centers, metrics, x, y, |centers|)
  }

  /** The pixel's minimum distance over all generators (0 when there are none). */
  function MinDistance(centers: seq<Point>, metrics: seq<Metric>, x: int, y: int): nat
    requires |centers| == |metrics|
  {
    if |centers| == 0 then 0 else DistanceTo(centers, metrics, Nearest(centers, metrics, x, y), x, y)
  }

  /**
   * What a cell holds after the generator scan, given what it held before:
   * the nearest generator when the minimum distance is within the cap,
   * otherwise the prior value untouched.
   */
  function Scanned(prior: Label, centers: seq<Point>, metrics: seq<Metric>, x: int, y: int, cap: Cap): Label
    requires |centers| == |metrics|
  {
    if |centers| == 0 || !Within(MinDistance(centers, metrics, x, y), cap) then prior
    else Region(Nearest(centers, metrics, x, y))
  }

  /**
   * The generator scan of one pixel (voronoi.py:95-105): a running minimum
   * `dMin`, and a write of generator i only when it strictly improves on
   * the minimum and lies within the cap. Returns the cell's final value.
   */
  method ScanPixel(prior: Label, centers: seq<Point>, metrics: seq<Metric>, x: int, y: int, cap: Cap)
    returns (cell: Label)
    requires |centers| == |metrics|
    ensures |centers| == 0 ==> cell == prior
    ensures |centers| > 0 && !Within(MinDistance(centers, metrics, x, y), cap) ==> cell == prior
    ensures |centers| > 0 && Within(MinDistance(centers, metrics, x, y), cap) ==>
      cell.Region? && cell.index < |centers| &&
      (forall j :: 0 <= j < |centers| ==>
        DistanceTo(centers, metrics, cell.index, x, y) <= DistanceTo(centers, metrics, j, x, y)) &&
      (forall j :: 0 <= j < cell.index ==>
        DistanceTo(centers, metrics, j, x, y) > DistanceTo(centers, metrics, cell.index, x, y))
    ensures cell == Scanned(prior, centers, metrics, x, y, cap)
  {
    cell := prior;
    var dMin: nat := 0;  // stands for +infinity until the first generator is seen
    for i := 0 to |centers|
      invariant i > 0 ==> dMin == DistanceTo(centers, metrics, NearestAmong(centers, metrics, x, y, i), x, y)
      invariant cell == if i > 0 && Within(dMin, cap) then Region(NearestAmong(centers, metrics, x, y, i)) else prior
    {
      var d := Distance(metrics[i], x, y, centers[i].x, centers[i].y);
      if i == 0 || d < dMin {
        dMin := d;
        if Within(d, cap) {
          cell := Region(i);
        }
      }
    }
  }

  /**
   * `set_each_point`: scans every pixel of the width x height grid in
   * place. Each cell ends as `Scanned` of its previous value; nothing
   * outside the grid is touched. The per-region metric list stands for
   * the seeded `choice` of the source.
   */
  method SetEachPoint(width: nat, height: nat, centers: seq<Point>, image: array2<Label>, cap: Cap, metrics: seq<Metric>)
    requires image.Length0 == width && image.Length1 == height
    requires |centers| == |metrics|
    modifies image
    ensures forall x, y :: 0 <= x < width && 0 <= y < height ==>
      image[x, y] == Scanned(old(image[x, y]), centers, metrics, x, y, cap)
  {
    for x := 0 to width
      invariant forall x', y' :: 0 <= x' < x && 0 <= y' < height ==>
        image[x', y'] == Scanned(old(image[x', y']), centers, metrics, x', y', cap)
      invariant forall x', y' :: x <= x' < width && 0 <= y' < height ==> image[x', y'] == old(image[x', y'])
    {
      for y := 0 to height
        invariant forall x', y' :: 0 <= x' < x && 0 <= y' < height ==>
          image[x', y'] == Scanned(old(image[x', y']), centers, metrics, x', y', cap)
        invariant forall y' :: 0 <= y' < y ==>
          image[x, y'] == Scanned(old(image[x, y']), centers, metrics, x, y', cap)
        invariant forall y' :: y <= y' < height ==> image[x, y'] == old(image[x, y'])
        invariant forall x', y' :: x < x' < width && 0 <= y' < height ==> image[x', y'] == old(image[x', y'])
      {
        var cell := ScanPixel(image[x, y], centers, metrics, x, y, cap);
        image[x, y] := cell;
      }
    }
  }

  /** A pixel whose minimum distance is within the cap holds its nearest generator whatever it held before. */
  lemma ScannedIgnoresPriorWhenWithin(p: Label, q: Label, centers: seq<Point>, metrics: seq<Metric>, x: int, y: int, cap: Cap)
    requires 0 < |centers| == |metrics|
    requires Within(MinDistance(centers, metrics, x, y), cap)
    ensures Scanned(p, centers, metrics, x, y, cap) == Scanned(q, centers, metrics, x, y, cap)
    ensures Scanned(p, centers, metrics, x, y, cap) == Region(Nearest(centers, metrics, x, y))
  {
  }

  /** A generator's own pixel is always labelled with a generator at distance 0 (itself or an earlier duplicate). */
  lemma GeneratorPixelOwned(centers: seq<Point>, metrics: seq<Metric>, i: nat, cap: Cap)
    requires i < |centers| == |metrics|
    ensures Scanned(Unassigned, centers, metrics, centers[i].x, centers[i].y, cap).Region?
    ensures var n := Nearest(centers, metrics, centers[i].x, centers[i].y); n <= i && centers[n] == centers[i]
  {
    var p := centers[i];
    assert DistanceTo(centers, metrics, i, p.x, p.y) == 0;
  }
}
