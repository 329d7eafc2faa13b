/**
 * The progressive growth driver of `generate` (voronoi.py:272-299): frames
 * are labelled with caps d = 1, 2, ... on fresh grids until a frame equals
 * the unbounded labelling computed first (voronoi.py:239-241).
 */
module Growth {
  import opened Geometry
  import opened Labeling

  /**
   * The distance field of a w x h grid: column x, row y holds the pixel's
   * minimum distance to the generators.
   */
  ghost function Field(centers: seq<Point>, metrics: seq<Metric>, w: nat, h: nat): (f: seq<seq<nat>>)
    requires |centers| == |metrics|
    ensures |f| == w
    ensures forall x :: 0 <= x < w ==> |f[x]| == h
    ensures forall x, y :: 0 <= x < w && 0 <= y < h ==> f[x][y] == MinDistance(centers, metrics, x, y)
  {
    seq(w, x => seq(h, y => MinDistance(centers, metrics, x, y)))
  }

  /** The largest entry of a column (0 for an empty one). */
  function ColumnMax(column: seq<nat>): (m: nat)
    ensures forall y :: 0 <= y < |column| ==> column[y] <= m
    ensures |column| > 0 ==> exists y :: 0 <= y < |column| && column[y] == m
    ensures |column| == 0 ==> m == 0
  {
    if |column| == 0 then 0
    else Max(ColumnMax(column[..|column| - 1]), column[|column| - 1])
  }

  /** The largest entry of a grid of columns (0 when it has no entry). */
  function GridMax(f: seq<seq<nat>>): (m: nat)
    ensures forall x, y :: 0 <= x < |f| && 0 <= y < |f[x]| ==> f[x][y] <= m
  {
    if |f| == 0 then 0
    else Max(GridMax(f[..|f| - 1]), ColumnMax(f[|f| - 1]))
  }

  /** A positive maximum is attained by some entry. */
  lemma {:induction false} GridMaxAttained(f: seq<seq<nat>>)
    ensures GridMax(f) == 0 || exists x, y :: 0 <= x < |f| && 0 <= y < |f[x]| && f[x][y] == GridMax(f)
  {
    if |f| > 0 {
      var init := f[..|f| - 1];
      var last := f[|f| - 1];
      if GridMax(init) <= ColumnMax(last) {
        if |last| > 0 {
          var y :| 0 <= y < |last| && last[y] == ColumnMax(last);
          assert f[|f| - 1][y] == GridMax(f);
        }
      } else {
        GridMaxAttained(init);
        var x, y :| 0 <= x < |init| && 0 <= y < |init[x]| && init[x][y] == GridMax(init);
        assert f[x][y] == GridMax(f);
      }
    }
  }

  /** M: the largest per-pixel minimum distance over a w x h grid (0 on an empty grid). */
  ghost function MaxDistance(centers: seq<Point>, metrics: seq<Metric>, w: nat, h: nat): (m: nat)
    requires |centers| == |metrics|
    ensures forall x, y :: 0 <= x < w && 0 <= y < h ==> MinDistance(centers, metrics, x, y) <= m
    ensures m > 0 ==> exists x, y :: 0 <= x < w && 0 <= y < h && MinDistance(centers, metrics, x, y) == m
  {
    var f := Field(centers, metrics, w, h);
    GridMaxAttained(f);
    GridMax(f)
  }

  /**
   * Monotone reveal: on a fresh grid, the frame for cap D agrees with the
   * unbounded labelling exactly on the pixels whose minimum distance is at
   * most D, and leaves every other pixel unassigned.
   */
  lemma FrameReveals(centers: seq<Point>, metrics: seq<Metric>, x: int, y: int, d: nat)
    requires |centers| == |metrics|
    ensures MinDistance(centers, metrics, x, y) <= d ==>
      Scanned(Unassigned, centers, metrics, x, y, AtMost(d)) == Scanned(Unassigned, centers, metrics, x, y, Unbounded)
    ensures MinDistance(centers, metrics, x, y) > d ==>
      Scanned(Unassigned, centers, metrics, x, y, AtMost(d)) == Unassigned &&
      Scanned(Unassigned, centers, metrics, x, y, Unbounded).Region?
  {
  }

  /** Once a pixel is revealed at cap d, every larger cap gives it the same label. */
  lemma RevealIsStable(centers: seq<Point>, metrics: seq<Metric>, x: int, y: int, d: nat, d': nat)
    requires |centers| == |metrics|
    requires d <= d'
    requires Scanned(Unassigned, centers, metrics, x, y, AtMost(d)).Region?
    ensures Scanned(Unassigned, centers, metrics, x, y, AtMost(d')) == Scanned(Unassigned, centers, metrics, x, y, AtMost(d))
  {
  }

  /** Every pixel of the frame for cap d agrees with the unbounded labelling. */
  ghost predicate FrameComplete(centers: seq<Point>, metrics: seq<Metric>, w: nat, h: nat, d: nat)
    requires |centers| == |metrics|
  {
    forall x, y :: 0 <= x < w && 0 <= y < h ==>
      Scanned(Unassigned, centers, metrics, x, y, AtMost(d)) == Scanned(Unassigned, centers, metrics, x, y, Unbounded)
  }

  /** The frame for cap d is the whole unbounded labelling exactly when d reaches M. */
  lemma FrameCompleteIff(centers: seq<Point>, metrics: seq<Metric>, w: nat, h: nat, d: nat)
    requires |centers| == |metrics|
    ensures FrameComplete(centers, metrics, w, h, d) <==> MaxDistance(centers, metrics, w, h) <= d
  {
    var m := MaxDistance(centers, metrics, w, h);
    if m <= d {
      forall x, y | 0 <= x < w && 0 <= y < h
        ensures Scanned(Unassigned, centers, metrics, x, y, AtMost(d)) == Scanned(Unassigned, centers, metrics, x, y, Unbounded)
      {
        FrameReveals(centers, metrics, x, y, d);
      }
    } else {
      var x, y :| 0 <= x < w && 0 <= y < h && MinDistance(centers, metrics, x, y) == m;
      FrameReveals(centers, metrics, x, y, d);
    }
  }

  /** `image == animation_image`: cell-by-cell equality of two grids (false when their shapes differ). */
  method SameGrid(a: array2<Label>, b: array2<Label>) returns (same: bool)
    ensures same <==>
      a.Length0 == b.Length0 && a.Length1 == b.Length1 &&
      forall x, y :: 0 <= x < a.Length0 && 0 <= y < a.Length1 ==> a[x, y] == b[x, y]
  {
    if a.Length0 != b.Length0 || a.Length1 != b.Length1 {
      return false;
    }
    for x := 0 to a.Length0
      invariant forall x', y :: 0 <= x' < x && 0 <= y < a.Length1 ==> a[x', y] == b[x', y]
    {
      for y := 0 to a.Length1
        invariant forall x', y' :: 0 <= x' < x && 0 <= y' < a.Length1 ==> a[x', y'] == b[x', y']
        invariant forall y' :: 0 <= y' < y ==> a[x, y'] == b[x, y']
      {
        if a[x, y] != b[x, y] {
          return false;
        }
      }
    }
    return true;
  }

  /** A fresh grid of unassigned cells labelled with cap d: the frame drawn for d. */
  method DrawFrame(width: nat, height: nat, centers: seq<Point>, metrics: seq<Metric>, d: nat)
    returns (frame: array2<Label>)
    requires |centers| == |metrics|
    ensures fresh(frame) && frame.Length0 == width && frame.Length1 == height
    ensures forall x, y :: 0 <= x < width && 0 <= y < height ==>
      frame[x, y] == Scanned(Unassigned, centers, metrics, x, y, AtMost(d))
  {
    frame := new Label[width, height]((_, _) => Unassigned);
    SetEachPoint(width, height, centers, frame, AtMost(d), metrics);
  }

  /**
   * The animation loop: label a fresh grid with cap d = 1, 2, ... until it
   * equals the unbounded grid `image`. Returns the number of frames, which
   * is max(1, M) for M the largest per-pixel minimum distance.
   */
  method GrowthFrames(width: nat, height: nat, centers: seq<Point>, metrics: seq<Metric>, image: array2<Label>)
    returns (frames: nat)
    requires |centers| == |metrics|
    requires image.Length0 == width && image.Length1 == height
    requires forall x, y :: 0 <= x < width && 0 <= y < height ==>
      image[x, y] == Scanned(Unassigned, centers, metrics, x, y, Unbounded)
    ensures frames == Max(1, MaxDistance(centers, metrics, width, height))
  {
    ghost var bound := Max(1, MaxDistance(centers, metrics, width, height));
    var d := 1;
    while true
      invariant 1 <= d <= bound
      decreases bound - d
    {
      var frame := DrawFrame(width, height, centers, metrics, d);
      var same := SameGrid(image, frame);
      FrameCompleteIff(centers, metrics, width, height, d);
      assert same <==> FrameComplete(centers, metrics, width, height, d);
      d := d + 1;
      if same {
        break;
      }
    }
    frames := d - 1;
  }
}
