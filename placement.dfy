/**
 * Generator placement, `RegionAlgorithm.randomized` and
 * `RegionAlgorithm.uniform` (voronoi.py:17-65), and the pixel-count guard
 * of `generate` (voronoi.py:232-237). The `randint` draws are a supplied
 * sequence of in-bounds candidate points, consumed in order; a run stops
 * when the sequence runs out.
 */
module Placement {
  import opened Wrappers
  import opened Geometry

  datatype RegionAlgorithm = Randomized | Uniform

  datatype PlacementError = NotEnoughPixels

  predicate InBounds(p: Point, width: int, height: int)
  {
    0 <= p.x < width && 0 <= p.y < height
  }

  predicate AllInBounds(ps: seq<Point>, width: int, height: int)
  {
    forall i :: 0 <= i < |ps| ==> InBounds(ps[i], width, height)
  }

  predicate Distinct(ps: seq<Point>)
  {
    forall i, j :: 0 <= i < j < |ps| ==> ps[i] != ps[j]
  }

  /**
   * `randomized`: keep every draw not already kept until `regions` points
   * are kept. The kept points are exactly the first occurrences among the
   * draws consumed, in the order drawn.
   */
  method RandomizedPoints(width: int, height: int, regions: nat, draws: seq<Point>)
    returns (points: seq<Point>, used: nat, ghost picks: seq<nat>)
    requires AllInBounds(draws, width, height)
    ensures used <= |draws|
    ensures Distinct(points) && AllInBounds(points, width, height)
    ensures |points| <= regions
    ensures |points| == regions || used == |draws|
    ensures forall p :: p in points <==> p in draws[..used]
    ensures |picks| == |points|
    ensures forall i :: 0 <= i < |picks| ==> picks[i] < used && draws[picks[i]] == points[i] && points[i] !in draws[..picks[i]]
    ensures forall i, j :: 0 <= i < j < |picks| ==> picks[i] < picks[j]
  {
    points, used, picks := [], 0, [];
    while |points| != regions && used < |draws|
      invariant used <= |draws|
      invariant Distinct(points) && AllInBounds(points, width, height)
      invariant |points| <= regions
      invariant forall p :: p in points <==> p in draws[..used]
      invariant |picks| == |points|
      invariant forall i :: 0 <= i < |picks| ==> picks[i] < used && draws[picks[i]] == points[i] && points[i] !in draws[..picks[i]]
      invariant forall i, j :: 0 <= i < j < |picks| ==> picks[i] < picks[j]
    {
      var p := draws[used];
      assert draws[..used + 1] == draws[..used] + [p];
      used := used + 1;
      if p in points {
        continue;
      }
      points, picks := points + [p], picks + [used - 1];
    }
  }

  /** Squared Euclidean distance: orders candidates as `hypot` does. */
  function SqDist(p: Point, q: Point): (d: nat)
    ensures d == 0 <==> p == q
  {
    var dx, dy := Abs(p.x - q.x), Abs(p.y - q.y);
    assert dx > 0 ==> dx * dx > 0;
    assert dy > 0 ==> dy * dy > 0;
    dx * dx + dy * dy
  }

  /** The smallest squared distance from p to an accepted point. */
  function NearestSqDist(p: Point, points: seq<Point>): nat
    requires |points| > 0
  {
    if |points| == 1 then SqDist(p, points[0])
    else
      var rest := NearestSqDist(p, points[..|points| - 1]);
      var last := SqDist(p, points[|points| - 1]);
      if last < rest then last else rest
  }

  /** `NearestSqDist` is a lower bound on the distances to the accepted points, and is attained. */
  lemma {:induction false} NearestSqDistIsMin(p: Point, points: seq<Point>)
    requires |points| > 0
    ensures forall i :: 0 <= i < |points| ==> NearestSqDist(p, points) <= SqDist(p, points[i])
    ensures exists i :: 0 <= i < |points| && NearestSqDist(p, points) == SqDist(p, points[i])
  {
    if |points| > 1 {
      var init := points[..|points| - 1];
      NearestSqDistIsMin(p, init);
      assert forall i :: 0 <= i < |init| ==> init[i] == points[i];
      var j :| 0 <= j < |init| && NearestSqDist(p, init) == SqDist(p, init[j]);
      if SqDist(p, points[|points| - 1]) < NearestSqDist(p, init) {
        assert NearestSqDist(p, points) == SqDist(p, points[|points| - 1]);
      } else {
        assert NearestSqDist(p, points) == SqDist(p, points[j]);
      }
    }
  }

  /** A candidate's score: its nearest squared distance, 0 while nothing is accepted. */
  function Score(points: seq<Point>, c: Point): nat
  {
    if |points| == 0 then 0 else NearestSqDist(c, points)
  }

  /**
   * Candidate j of a round is the one kept: not a duplicate, of the largest
   * score among non-duplicates, and strictly better than every earlier
   * non-duplicate.
   */
  ghost predicate IsBest(points: seq<Point>, cands: seq<Point>, j: nat)
  {
    && j < |cands|
    && cands[j] !in points
    && (forall i :: 0 <= i < |cands| && cands[i] !in points ==> Score(points, cands[i]) <= Score(points, cands[j]))
    && (forall i :: 0 <= i < j && cands[i] !in points ==> Score(points, cands[i]) < Score(points, cands[j]))
  }

  lemma BestIsUnique(points: seq<Point>, cands: seq<Point>, j: nat, j': nat)
    requires IsBest(points, cands, j) && IsBest(points, cands, j')
    ensures j == j'
  {
  }

  /** Lines 49-54: the running minimum of the distances to the accepted points. */
  method NearestSquaredDistance(p: Point, points: seq<Point>) returns (dMin: nat)
    requires |points| > 0
    ensures forall i :: 0 <= i < |points| ==> dMin <= SqDist(p, points[i])
    ensures exists i :: 0 <= i < |points| && dMin == SqDist(p, points[i])
    ensures dMin == NearestSqDist(p, points)
  {
    dMin := SqDist(p, points[0]);
    ghost var at := 0;
    for i := 1 to |points|
      invariant at < i && dMin == SqDist(p, points[at])
      invariant forall i' :: 0 <= i' < i ==> dMin <= SqDist(p, points[i'])
    {
      var d := SqDist(p, points[i]);
      if d < dMin {
        dMin, at := d, i;
      }
    }
    NearestSqDistIsMin(p, points);
    var j :| 0 <= j < |points| && NearestSqDist(p, points) == SqDist(p, points[j]);
    assert dMin <= NearestSqDist(p, points);
  }

  /**
   * One round of `uniform` (lines 36-58) over its batch of candidates:
   * duplicates are skipped, the first candidate is taken outright while
   * nothing is accepted, and otherwise a candidate replaces the best so far
   * only on a strictly larger score. `None` when every candidate is a
   * duplicate. The result is `BestIn`, which `BestInIsBest` characterises.
   */
  method BestCandidate(points: seq<Point>, cands: seq<Point>) returns (best: Option<nat>)
    ensures best == BestIn(points, cands)
  {
    best := None;
    var dMax: nat := 0;
    for i := 0 to |cands|
      invariant best.None? ==> dMax == 0 && forall i' :: 0 <= i' < i ==> cands[i'] in points
      invariant best.Some? ==> |points| > 0 && best.value < i && cands[best.value] !in points && dMax == Score(points, cands[best.value])
      invariant best.Some? ==> forall i' :: 0 <= i' < i && cands[i'] !in points ==> Score(points, cands[i']) <= dMax
      invariant best.Some? ==> forall i' :: 0 <= i' < best.value && cands[i'] !in points ==> Score(points, cands[i']) < dMax
    {
      var p := cands[i];
      if p in points {
        continue;
      }
      if |points| == 0 {
        best := Some(i);
        break;
      }
      var dMin := NearestSquaredDistance(p, points);
      if dMin > dMax {
        dMax, best := dMin, Some(i);
      }
    }
    BestInIsBest(points, cands);
    if best.Some? {
      BestIsUnique(points, cands, best.value, BestIn(points, cands).value);
    }
  }

  /**
   * The candidate a round keeps, if any, read left to right: a later
   * non-duplicate replaces the best so far only on a strictly larger score.
   */
  function BestIn(points: seq<Point>, cands: seq<Point>): (r: Option<nat>)
    ensures r.Some? ==> r.value < |cands| && cands[r.value] !in points
  {
    if |cands| == 0 then None
    else
      var prev := BestIn(points, cands[..|cands| - 1]);
      var c := cands[|cands| - 1];
      if c in points then prev
      else if prev.None? then Some(|cands| - 1)
      else if Score(points, c) > Score(points, cands[prev.value]) then Some(|cands| - 1)
      else prev
  }

  /** `BestIn` keeps exactly the candidate `IsBest` describes, and nothing when all are duplicates. */
  lemma {:induction false} BestInIsBest(points: seq<Point>, cands: seq<Point>)
    ensures BestIn(points, cands).Some? ==> IsBest(points, cands, BestIn(points, cands).value)
    ensures BestIn(points, cands).None? <==> forall i :: 0 <= i < |cands| ==> cands[i] in points
  {
    if |cands| > 0 {
      var init := cands[..|cands| - 1];
      BestInIsBest(points, init);
      assert forall i :: 0 <= i < |init| ==> init[i] == cands[i];
    }
  }

  /** The accepted points after one round whose candidates are `cands`. */
  function RoundResult(points: seq<Point>, cands: seq<Point>): seq<Point>
  {
    match BestIn(points, cands)
    case None => points
    case Some(j) => points + [cands[j]]
  }

  /** A round appends at most one point, and only a fresh one. */
  lemma RoundExtends(points: seq<Point>, cands: seq<Point>)
    ensures var next := RoundResult(points, cands);
      |points| <= |next| <= |points| + 1 && forall i :: 0 <= i < |points| ==> next[i] == points[i]
    ensures Distinct(points) ==> Distinct(RoundResult(points, cands))
  {
  }

  /** A round appends only in-bounds points. */
  lemma RoundInBounds(points: seq<Point>, cands: seq<Point>, width: int, height: int)
    requires AllInBounds(points, width, height) && AllInBounds(cands, width, height)
    ensures AllInBounds(RoundResult(points, cands), width, height)
  {
    var best := BestIn(points, cands);
    if best.Some? {
      assert InBounds(cands[best.value], width, height);
    }
  }

  lemma SliceInBounds(draws: seq<Point>, lo: nat, hi: nat, width: int, height: int)
    requires lo <= hi <= |draws| && AllInBounds(draws, width, height)
    ensures AllInBounds(draws[lo..hi], width, height)
  {
    assert forall i :: 0 <= i < hi - lo ==> draws[lo..hi][i] == draws[lo + i];
  }

  /**
   * The points `uniform` accepts, starting from `points` with the draws
   * before `used` consumed: each round takes the next 10 * |points| + 1
   * draws as candidates and appends the one `IsBest` keeps, if any.
   */
  ghost function UniformRun(points: seq<Point>, draws: seq<Point>, used: nat, regions: nat): seq<Point>
    requires used <= |draws|
    decreases |draws| - used
  {
    if |points| == regions then points
    else
      var k := 10 * |points| + 1;
      if |draws| - used < k then points
      else UniformRun(RoundResult(points, draws[used..used + k]), draws, used + k, regions)
  }

  lemma RunStops(points: seq<Point>, draws: seq<Point>, used: nat, regions: nat)
    requires used <= |draws|
    requires |points| == regions || |draws| - used < 10 * |points| + 1
    ensures UniformRun(points, draws, used, regions) == points
  {
  }

  lemma RunUnfolds(points: seq<Point>, draws: seq<Point>, used: nat, used': nat, regions: nat, next: seq<Point>)
    requires |points| != regions && used' == used + 10 * |points| + 1 && used' <= |draws|
    requires next == RoundResult(points, draws[used..used'])
    ensures UniformRun(points, draws, used, regions) == UniformRun(next, draws, used', regions)
  {
  }

  /**
   * One pass of the outer loop of `uniform` (lines 36-63): draw the round's
   * 10 * |points| + 1 candidates, keep the best one, append it if any.
   */
  method UniformRoundStep(width: int, height: int, regions: nat, draws: seq<Point>, points: seq<Point>, used: nat)
    returns (next: seq<Point>, used': nat)
    requires AllInBounds(draws, width, height)
    requires Distinct(points) && AllInBounds(points, width, height)
    requires used + 10 * |points| + 1 <= |draws|
    ensures used' == used + 10 * |points| + 1
    ensures next == RoundResult(points, draws[used..used'])
    ensures Distinct(next) && AllInBounds(next, width, height) && |points| <= |next| <= |points| + 1
    ensures forall i :: 0 <= i < |points| ==> next[i] == points[i]
    ensures points == [] ==> next == [draws[used]]
  {
    var k := 10 * |points| + 1;
    var cands := draws[used..used + k];
    var best := BestCandidate(points, cands);
    used' := used + k;
    if best.None? {
      next := points;
    } else {
      next := points + [cands[best.value]];
    }
    SliceInBounds(draws, used, used + k, width, height);
    RoundExtends(points, cands);
    RoundInBounds(points, cands, width, height);
    if points == [] {
      assert BestIn(points, cands) == Some(0);
    }
  }

  /**
   * `uniform`: rounds of 10 * |points| + 1 candidates; a round whose
   * candidates are all duplicates appends nothing. The result is the
   * `UniformRun` of the draws.
   */
  method UniformPoints(width: int, height: int, regions: nat, draws: seq<Point>) returns (points: seq<Point>)
    requires AllInBounds(draws, width, height)
    ensures points == UniformRun([], draws, 0, regions)
    ensures Distinct(points) && AllInBounds(points, width, height) && |points| <= regions
    ensures regions > 0 && |draws| > 0 ==> |points| > 0 && points[0] == draws[0]
  {
    points := [];
    var used := 0;
    ghost var run := UniformRun([], draws, 0, regions);
    while |points| != regions && |draws| - used >= 10 * |points| + 1
      invariant used <= |draws|
      invariant UniformRun(points, draws, used, regions) == run
      invariant Distinct(points) && AllInBounds(points, width, height) && |points| <= regions
      invariant used == 0 ==> points == []
      invariant used > 0 && regions > 0 ==> |points| > 0 && points[0] == draws[0]
      decreases |draws| - used
    {
      var next, used' := UniformRoundStep(width, height, regions, draws, points, used);
      RunUnfolds(points, draws, used, used', regions, next);
      points, used := next, used';
    }
    RunStops(points, draws, used, regions);
  }

  /** The pixels of column x, rows 0..h-1. */
  ghost function Column(x: int, h: nat): set<Point>
  {
    set y | 0 <= y < h :: Point(x, y)
  }

  /** The pixels of the first w columns. */
  ghost function Pixels(w: nat, h: nat): set<Point>
  {
    set x, y | 0 <= x < w && 0 <= y < h :: Point(x, y)
  }

  lemma {:induction false} ColumnCount(x: int, h: nat)
    ensures |Column(x, h)| == h
  {
    if h > 0 {
      assert Column(x, h) == Column(x, h - 1) + {Point(x, h - 1)};
      ColumnCount(x, h - 1);
    }
  }

  /** The grid of w columns is the grid of w - 1 columns plus its last column. */
  lemma PixelsSplit(w: nat, h: nat)
    requires w > 0
    ensures Pixels(w, h) == Pixels(w - 1, h) + Column(w - 1, h)
    ensures Pixels(w - 1, h) !! Column(w - 1, h)
  {
    forall p | p in Pixels(w, h)
      ensures p in Pixels(w - 1, h) + Column(w - 1, h)
    {
      if p.x < w - 1 {
        assert p in Pixels(w - 1, h);
      } else {
        assert p in Column(w - 1, h);
      }
    }
  }

  lemma {:induction false} PixelsCount(w: nat, h: nat)
    ensures |Pixels(w, h)| == w * h
  {
    if w > 0 {
      PixelsSplit(w, h);
      PixelsCount(w - 1, h);
      ColumnCount(w - 1, h);
      assert (w - 1) * h + h == w * h;
    }
  }

  lemma {:induction false} SubsetCount<T>(a: set<T>, b: set<T>)
    requires a <= b
    ensures |a| <= |b|
    decreases |b|
  {
    if b != {} {
      var x :| x in b;
      SubsetCount(a - {x}, b - {x});
    }
  }

  /** A sequence without repeats has as many elements as its set. */
  lemma {:induction false} DistinctCount(ps: seq<Point>)
    requires Distinct(ps)
    ensures |set p | p in ps| == |ps|
  {
    if ps != [] {
      var init := ps[..|ps| - 1];
      assert (set p | p in ps) == (set p | p in init) + {ps[|ps| - 1]};
      assert ps[|ps| - 1] !in init;
      DistinctCount(init);
    }
  }

  /** Distinct in-bounds points number at most width * height. */
  lemma DistinctPointsFit(ps: seq<Point>, width: nat, height: nat)
    requires Distinct(ps) && AllInBounds(ps, width, height)
    ensures |ps| <= width * height
  {
    DistinctCount(ps);
    var occupied := set p | p in ps;
    assert occupied <= Pixels(width, height) by {
      forall p | p in ps
        ensures p in Pixels(width, height)
      {
        assert InBounds(p, width, height);
      }
    }
    SubsetCount(occupied, Pixels(width, height));
    PixelsCount(width, height);
  }

  /** Any k points of a set, without repeats. */
  lemma {:induction false} PickDistinct(s: set<Point>, k: nat) returns (ps: seq<Point>)
    requires k <= |s|
    ensures |ps| == k && Distinct(ps) && forall i :: 0 <= i < k ==> ps[i] in s
    decreases k
  {
    if k == 0 {
      ps := [];
    } else {
      var p :| p in s;
      var rest := PickDistinct(s - {p}, k - 1);
      ps := [p] + rest;
    }
  }

  /**
   * The guard of lines 233-234 is exact: `regions` distinct in-bounds
   * points exist if and only if width * height >= regions.
   */
  lemma CapacityGuardIsExact(width: nat, height: nat, regions: nat)
    ensures (exists ps :: |ps| == regions && Distinct(ps) && AllInBounds(ps, width, height)) <==> regions <= width * height
  {
    if regions <= width * height {
      PixelsCount(width, height);
      var ps := PickDistinct(Pixels(width, height), regions);
      assert AllInBounds(ps, width, height);
    } else {
      forall ps | |ps| == regions && Distinct(ps) && AllInBounds(ps, width, height)
        ensures false
      {
        DistinctPointsFit(ps, width, height);
      }
    }
  }

  /**
   * Lines 232-237: refuse more regions than pixels, otherwise run the
   * chosen placement algorithm on the draws.
   */
  method PlaceCenters(width: nat, height: nat, regions: nat, algorithm: RegionAlgorithm, draws: seq<Point>)
    returns (r: Result<seq<Point>, PlacementError>)
    requires AllInBounds(draws, width, height)
    ensures r.Failure? <==> width * height < regions
    ensures r.Success? ==> Distinct(r.value) && AllInBounds(r.value, width, height) && |r.value| <= regions
    ensures r.Success? && algorithm == Uniform ==> r.value == UniformRun([], draws, 0, regions)
    ensures r.Success? && algorithm == Randomized ==>
      (forall p :: p in r.value ==> p in draws) &&
      (|r.value| == regions || forall p :: p in draws ==> p in r.value)
  {
    if width * height < regions {
      return Failure(NotEnoughPixels);
    }
    var points: seq<Point>;
    match algorithm {
      case Randomized =>
        var used;
        ghost var picks;
        points, used, picks := RandomizedPoints(width, height, regions, draws);
        assert used == |draws| ==> draws[..used] == draws;
      case Uniform =>
        points := UniformPoints(width, height, regions, draws);
    }
    return Success(points);
  }
}
