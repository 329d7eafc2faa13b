/**
 * The region-adjacency builder at the start of
 * `Utilities.get_different_adjacent_colors` (voronoi.py:127-155): every
 * pixel is compared with its four neighbours; a pair whose labels compare
 * strictly increasing gets both labels a dense id 1..n and the pair of
 * dense ids is recorded as an edge.
 *
 * The source keeps both directions of the id allocation in one dictionary
 * (`mapping[n] = i1; mapping[i1] = n`), which is safe only because object
 * identities never fall in 1..n. Region indices can, so the two directions
 * are two maps here: `toDense` (label to dense id) and `toLabel` (dense id
 * to label).
 */
module Adjacency {
  import opened Wrappers
  import opened Labeling

  /** The neighbour offsets ((0, 1), (1, 0), (-1, 0), (0, -1)), in the order they are visited. */
  function DX(k: nat): int
  {
    if k == 1 then 1 else if k == 2 then -1 else 0
  }

  function DY(k: nat): int
  {
    if k == 0 then 1 else if k == 3 then -1 else 0
  }

  predicate InGrid(g: array2<Label>, x: int, y: int)
  {
    0 <= x < g.Length0 && 0 <= y < g.Length1
  }

  /** Pixel (x, y) and its k-th neighbour are in the grid. */
  predicate NeighbourAt(g: array2<Label>, x: int, y: int, k: nat)
  {
    InGrid(g, x, y) && k < 4 && InGrid(g, x + DX(k), y + DY(k))
  }

  /** Pixel (x, y) is labelled a and its k-th neighbour b, with a < b: the pair the source records. */
  ghost predicate OrderedPairAt(g: array2<Label>, x: int, y: int, k: nat, a: nat, b: nat)
    reads g
  {
    NeighbourAt(g, x, y, k) && g[x, y] == Region(a) && g[x + DX(k), y + DY(k)] == Region(b) && a < b
  }

  /** The comparison at (x, y, k) involves an unassigned cell (a `TypeError` in the source). */
  ghost predicate UnlabelledPairAt(g: array2<Label>, x: int, y: int, k: nat)
    reads g
  {
    NeighbourAt(g, x, y, k) && (g[x, y].Unassigned? || g[x + DX(k), y + DY(k)].Unassigned?)
  }

  /** Regions a < b touch somewhere in the grid. */
  ghost predicate Touching(g: array2<Label>, a: nat, b: nat)
    reads g
  {
    exists x, y, k :: OrderedPairAt(g, x, y, k, a, b)
  }

  /** Label l is an end of some recorded neighbour pair. */
  ghost predicate Occurs(g: array2<Label>, l: nat)
    reads g
  {
    exists x, y, k, b :: OrderedPairAt(g, x, y, k, l, b) || OrderedPairAt(g, x, y, k, b, l)
  }

  /** The builder's state: the counter `n`, the edge set and the two directions of `mapping`. */
  datatype Adjacency = Adjacency(n: nat, edges: set<(nat, nat)>, toDense: map<nat, nat>, toLabel: map<nat, nat>)

  /**
   * `toLabel` is defined exactly on 1..n, the two maps are inverse to each
   * other, and every edge joins two dense ids whose labels are increasing.
   */
  ghost predicate Valid(adj: Adjacency)
  {
    && (forall k :: k in adj.toLabel <==> 1 <= k <= adj.n)
    && (forall l :: l in adj.toDense ==> adj.toDense[l] in adj.toLabel && adj.toLabel[adj.toDense[l]] == l)
    && (forall k :: k in adj.toLabel ==> adj.toLabel[k] in adj.toDense && adj.toDense[adj.toLabel[k]] == k)
    && (forall e :: e in adj.edges ==> e.0 in adj.toLabel && e.1 in adj.toLabel && adj.toLabel[e.0] < adj.toLabel[e.1])
  }

  /** Labels a and b hold dense ids and their edge has been recorded. */
  ghost predicate Recorded(adj: Adjacency, a: nat, b: nat)
  {
    a in adj.toDense && b in adj.toDense && (adj.toDense[a], adj.toDense[b]) in adj.edges
  }

  /** r keeps every id and every edge of adj. */
  ghost predicate Extends(r: Adjacency, adj: Adjacency)
  {
    && adj.edges <= r.edges
    && (forall l :: l in adj.toDense ==> l in r.toDense && r.toDense[l] == adj.toDense[l])
    && (forall k :: k in adj.toLabel ==> k in r.toLabel && r.toLabel[k] == adj.toLabel[k])
  }

  /** The empty state the builder starts from. */
  function Empty(): (adj: Adjacency)
    ensures Valid(adj) && adj.n == 0 && adj.edges == {}
  {
    Adjacency(0, {}, map[], map[])
  }

  /** Lines 143-146 (and 148-151): give label l the next dense id unless it has one. */
  function Allocate(adj: Adjacency, l: nat): (r: Adjacency)
    requires Valid(adj)
    ensures Valid(r) && Extends(r, adj)
    ensures l in r.toDense
    ensures r.toDense.Keys == adj.toDense.Keys + {l}
    ensures r.n == if l in adj.toDense then adj.n else adj.n + 1
  {
    if l in adj.toDense then adj
    else
      var n := adj.n + 1;
      Adjacency(n, adj.edges, adj.toDense[l := n], adj.toLabel[n := l])
  }

  /** Lines 143-153: allocate ids for a < b, then record the edge between them. */
  function Record(adj: Adjacency, a: nat, b: nat): (r: Adjacency)
    requires Valid(adj) && a < b
    ensures Valid(r) && Extends(r, adj)
    ensures Recorded(r, a, b) && r.toLabel[r.toDense[a]] == a && r.toLabel[r.toDense[b]] == b
    ensures r.toDense.Keys == adj.toDense.Keys + {a, b}
    ensures r.edges == adj.edges + {(r.toDense[a], r.toDense[b])}
  {
    var withA := Allocate(adj, a);
    var withB := Allocate(withA, b);
    RecordFacts(adj, withA, withB, a, b);
    withB.(edges := withB.edges + {(withB.toDense[a], withB.toDense[b])})
  }

  /** The postcondition of `Record`, from those of its two allocations. */
  lemma RecordFacts(adj: Adjacency, withA: Adjacency, withB: Adjacency, a: nat, b: nat)
    requires Valid(adj) && a < b
    requires Valid(withA) && Extends(withA, adj) && withA.toDense.Keys == adj.toDense.Keys + {a}
    requires Valid(withB) && Extends(withB, withA) && withB.toDense.Keys == withA.toDense.Keys + {b}
    ensures a in withB.toDense && b in withB.toDense
    ensures var r := withB.(edges := withB.edges + {(withB.toDense[a], withB.toDense[b])});
      && Valid(r) && Extends(r, adj)
      && Recorded(r, a, b) && r.toLabel[r.toDense[a]] == a && r.toLabel[r.toDense[b]] == b
      && r.toDense.Keys == adj.toDense.Keys + {a, b}
  {
    var e := (withB.toDense[a], withB.toDense[b]);
    assert withB.toLabel[e.0] == a && withB.toLabel[e.1] == b;
  }

  lemma ExtendsKeepsRecorded(r: Adjacency, adj: Adjacency)
    requires Extends(r, adj)
    ensures forall a, b :: Recorded(adj, a, b) ==> Recorded(r, a, b)
  {
  }

  /** Position (x', y', k') is visited before (x, y, k) by the three nested loops. */
  predicate Before(x': int, y': int, k': nat, x: int, y: int, k: nat)
  {
    x' < x || (x' == x && (y' < y || (y' == y && k' < k)))
  }

  /**
   * What the scan has established once it reaches position (x, y, k):
   * the state is valid, no comparison so far involved an unassigned cell,
   * every increasing pair so far is recorded, and every edge and every id
   * comes from some increasing pair of the grid.
   */
  ghost predicate ScanInv(g: array2<Label>, adj: Adjacency, x: int, y: int, k: nat)
    reads g
  {
    Valid(adj) && CoveredBefore(g, adj, x, y, k) && CleanBefore(g, x, y, k) && EdgesTouch(g, adj) && IdsOccur(g, adj)
  }

  /** Every increasing pair visited before (x, y, k) is recorded. */
  ghost predicate CoveredBefore(g: array2<Label>, adj: Adjacency, x: int, y: int, k: nat)
    reads g
  {
    forall x', y', k': nat, a, b :: Before(x', y', k', x, y, k) && OrderedPairAt(g, x', y', k', a, b) ==> Recorded(adj, a, b)
  }

  /** No comparison visited before (x, y, k) involved an unassigned cell. */
  ghost predicate CleanBefore(g: array2<Label>, x: int, y: int, k: nat)
    reads g
  {
    forall x', y', k': nat :: Before(x', y', k', x, y, k) ==> !UnlabelledPairAt(g, x', y', k')
  }

  /** Every edge joins two regions that touch. */
  ghost predicate EdgesTouch(g: array2<Label>, adj: Adjacency)
    reads g
    requires Valid(adj)
  {
    forall e :: e in adj.edges ==> Touching(g, adj.toLabel[e.0], adj.toLabel[e.1])
  }

  /** Every label holding a dense id is an end of a neighbour pair. */
  ghost predicate IdsOccur(g: array2<Label>, adj: Adjacency)
    reads g
  {
    forall l :: l in adj.toDense ==> Occurs(g, l)
  }

  /** A position that records nothing (out of the grid, or not increasing) leaves the state alone. */
  lemma StepSkip(g: array2<Label>, adj: Adjacency, x: int, y: int, k: nat)
    requires ScanInv(g, adj, x, y, k)
    requires !UnlabelledPairAt(g, x, y, k)
    requires forall a, b :: !OrderedPairAt(g, x, y, k, a, b)
    ensures ScanInv(g, adj, x, y, k + 1)
  {
  }

  /** A position holding an increasing pair a < b is covered by recording it. */
  lemma StepRecord(g: array2<Label>, adj: Adjacency, x: int, y: int, k: nat, a: nat, b: nat)
    requires ScanInv(g, adj, x, y, k)
    requires !UnlabelledPairAt(g, x, y, k)
    requires OrderedPairAt(g, x, y, k, a, b)
    ensures ScanInv(g, Record(adj, a, b), x, y, k + 1)
  {
    var r := Record(adj, a, b);
    RecordCovers(g, adj, r, x, y, k, a, b);
    RecordTouches(g, adj, r, x, y, k, a, b);
    RecordOccurs(g, adj, r, x, y, k, a, b);
    CleanStep(g, x, y, k);
  }

  lemma CleanStep(g: array2<Label>, x: int, y: int, k: nat)
    requires CleanBefore(g, x, y, k) && !UnlabelledPairAt(g, x, y, k)
    ensures CleanBefore(g, x, y, k + 1)
  {
    forall x', y', k': nat | Before(x', y', k', x, y, k + 1)
      ensures !UnlabelledPairAt(g, x', y', k')
    {
      if !Before(x', y', k', x, y, k) {
        assert x' == x && y' == y && k' == k;
      }
    }
  }

  lemma RecordCovers(g: array2<Label>, adj: Adjacency, r: Adjacency, x: int, y: int, k: nat, a: nat, b: nat)
    requires CoveredBefore(g, adj, x, y, k) && Extends(r, adj) && Recorded(r, a, b)
    requires OrderedPairAt(g, x, y, k, a, b)
    ensures CoveredBefore(g, r, x, y, k + 1)
  {
    ExtendsKeepsRecorded(r, adj);
    forall x', y', k': nat, a', b' | Before(x', y', k', x, y, k + 1) && OrderedPairAt(g, x', y', k', a', b')
      ensures Recorded(r, a', b')
    {
      if Before(x', y', k', x, y, k) {
        assert Recorded(adj, a', b');
      } else {
        assert x' == x && y' == y && k' == k;
        assert a' == a && b' == b;
      }
    }
  }

  lemma RecordTouches(g: array2<Label>, adj: Adjacency, r: Adjacency, x: int, y: int, k: nat, a: nat, b: nat)
    requires Valid(adj) && EdgesTouch(g, adj) && Valid(r) && Extends(r, adj)
    requires a in r.toDense && b in r.toDense && r.toLabel[r.toDense[a]] == a && r.toLabel[r.toDense[b]] == b
    requires r.edges == adj.edges + {(r.toDense[a], r.toDense[b])}
    requires OrderedPairAt(g, x, y, k, a, b)
    ensures EdgesTouch(g, r)
  {
    forall e | e in r.edges
      ensures Touching(g, r.toLabel[e.0], r.toLabel[e.1])
    {
      if e in adj.edges {
        assert r.toLabel[e.0] == adj.toLabel[e.0] && r.toLabel[e.1] == adj.toLabel[e.1];
      } else {
        assert r.toLabel[e.0] == a && r.toLabel[e.1] == b;
        assert Touching(g, a, b) by {
          assert OrderedPairAt(g, x, y, k, a, b);
        }
      }
    }
  }

  lemma RecordOccurs(g: array2<Label>, adj: Adjacency, r: Adjacency, x: int, y: int, k: nat, a: nat, b: nat)
    requires IdsOccur(g, adj)
    requires r.toDense.Keys == adj.toDense.Keys + {a, b}
    requires OrderedPairAt(g, x, y, k, a, b)
    ensures IdsOccur(g, r)
  {
    forall l | l in r.toDense
      ensures Occurs(g, l)
    {
      if l !in adj.toDense {
        assert l == a || l == b;
        assert OrderedPairAt(g, x, y, k, a, b);
      }
    }
  }

  /** Finishing the four neighbours of a pixel moves on to the next pixel of the column. */
  lemma NextPixel(g: array2<Label>, adj: Adjacency, x: int, y: int)
    requires ScanInv(g, adj, x, y, 4)
    ensures ScanInv(g, adj, x, y + 1, 0)
  {
  }

  /** Finishing a column moves on to the next column. */
  lemma NextColumn(g: array2<Label>, adj: Adjacency, x: int)
    requires ScanInv(g, adj, x, g.Length1, 0)
    ensures ScanInv(g, adj, x + 1, 0, 0)
  {
  }

  /**
   * The scan of lines 132-153. Fails (`None`) exactly when some compared
   * pair involves an unassigned cell; otherwise every increasing neighbour
   * pair is recorded, every edge comes from one, and every label holding a
   * dense id is an end of one.
   */
  method BuildAdjacency(g: array2<Label>) returns (result: Option<Adjacency>)
    ensures result.None? <==> exists x, y, k :: UnlabelledPairAt(g, x, y, k)
    ensures result.Some? ==> Valid(result.value)
    ensures result.Some? ==> forall x, y, k, a, b :: OrderedPairAt(g, x, y, k, a, b) ==> Recorded(result.value, a, b)
    ensures result.Some? ==> forall e :: e in result.value.edges ==>
      Touching(g, result.value.toLabel[e.0], result.value.toLabel[e.1])
    ensures result.Some? ==> forall l :: l in result.value.toDense ==> Occurs(g, l)
  {
    var adj := Empty();
    for x := 0 to g.Length0
      invariant ScanInv(g, adj, x, 0, 0)
    {
      for y := 0 to g.Length1
        invariant ScanInv(g, adj, x, y, 0)
      {
        for k := 0 to 4
          invariant ScanInv(g, adj, x, y, k)
        {
          var xn, yn := x + DX(k), y + DY(k);
          if !(0 <= xn < g.Length0) || !(0 <= yn < g.Length1) {
            StepSkip(g, adj, x, y, k);
            continue;
          }
          var i1, i2 := g[x, y], g[xn, yn];
          if i1.Unassigned? || i2.Unassigned? {
            assert UnlabelledPairAt(g, x, y, k);
            return None;
          }
          if i1.index < i2.index {
            StepRecord(g, adj, x, y, k, i1.index, i2.index);
            adj := Record(adj, i1.index, i2.index);
          } else {
            StepSkip(g, adj, x, y, k);
          }
        }
        NextPixel(g, adj, x, y);
      }
      NextColumn(g, adj, x);
    }
    assert ScanInv(g, adj, g.Length0, 0, 0);
    return Some(adj);
  }

  /** No edge joins a region to itself. */
  lemma NoSelfEdges(adj: Adjacency)
    requires Valid(adj)
    ensures forall e :: e in adj.edges ==> e.0 != e.1
  {
  }

  /** An edge is never recorded in both orientations. */
  lemma NoReversedEdges(adj: Adjacency, u: nat, v: nat)
    requires Valid(adj)
    requires (u, v) in adj.edges
    ensures (v, u) !in adj.edges
  {
  }

  /** Every edge end is a dense id in 1..n. */
  lemma EdgesInRange(adj: Adjacency)
    requires Valid(adj)
    ensures forall e :: e in adj.edges ==> 1 <= e.0 <= adj.n && 1 <= e.1 <= adj.n
  {
  }
}
