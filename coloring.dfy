/**
 * The colouring constraint system of `get_different_adjacent_colors`
 * (voronoi.py:162-174) as a predicate over the solver's 0/1 matrix, and
 * the result extraction with its palette check (voronoi.py:178-184). The
 * solver itself is not modelled: its values are inputs.
 */
module Coloring {
  import opened Wrappers
  import opened Adjacency

  /** The two adjacency-respecting values of `ColorAlgorithm` (voronoi.py:11-14). */
  datatype ColorAlgorithm = NoAdjacentSame | LeastPossible

  datatype ColoringError = NotEnoughColors | PaletteIndexOutOfRange

  /** `lpSum` of one row. */
  function RowSum(row: seq<int>): int
  {
    if row == [] then 0 else RowSum(row[..|row| - 1]) + row[|row| - 1]
  }

  /** The matrix has the n x n shape of `variables`. */
  predicate Square(assign: seq<seq<int>>, n: nat)
  {
    |assign| == n && forall i :: 0 <= i < n ==> |assign[i]| == n
  }

  /** Every variable is binary. */
  predicate Binary(assign: seq<seq<int>>)
  {
    forall i, j :: 0 <= i < |assign| && 0 <= j < |assign[i]| ==> assign[i][j] == 0 || assign[i][j] == 1
  }

  /** Rows u and v never both take the same slot. */
  predicate NeverShareSlot(assign: seq<seq<int>>, u: nat, v: nat, n: nat)
    requires Square(assign, n) && u < n && v < n
  {
    forall c :: 0 <= c < n ==> assign[u][c] + assign[v][c] <= 1
  }

  /**
   * The constraints of lines 162-169: each region takes exactly one slot,
   * the two ends of an edge never share a slot, and the chromatic number
   * is at least j + 1 whenever some region takes slot j.
   */
  predicate Satisfies(n: nat, edges: set<(nat, nat)>, assign: seq<seq<int>>, chromatic: int)
  {
    && Square(assign, n)
    && Binary(assign)
    && (forall i :: 0 <= i < n ==> RowSum(assign[i]) == 1)
    && (forall e :: e in edges && 1 <= e.0 <= n && 1 <= e.1 <= n ==> NeverShareSlot(assign, e.0 - 1, e.1 - 1, n))
    && (forall i, j :: 0 <= i < n && 0 <= j < n ==> chromatic >= (j + 1) * assign[i][j])
  }

  /** The objective line of the fixed-palette mode (line 174); the minimising mode adds no constraint. */
  predicate ModeHolds(algorithm: ColorAlgorithm, chromatic: int, paletteSize: nat)
  {
    algorithm == NoAdjacentSame ==> chromatic == paletteSize
  }

  /** The last slot of a row whose variable is 1: the entry the dictionary comprehension keeps. */
  function LastOne(row: seq<int>): (r: Option<nat>)
    ensures r.Some? ==> r.value < |row| && row[r.value] == 1 && forall j :: r.value < j < |row| ==> row[j] != 1
    ensures r.None? ==> forall j :: 0 <= j < |row| ==> row[j] != 1
  {
    if row == [] then None
    else if row[|row| - 1] == 1 then Some(|row| - 1)
    else LastOne(row[..|row| - 1])
  }

  lemma {:induction false} BinaryRowSumNonNegative(row: seq<int>)
    requires forall j :: 0 <= j < |row| ==> row[j] == 0 || row[j] == 1
    ensures 0 <= RowSum(row) <= |row|
  {
    if row != [] {
      var init := row[..|row| - 1];
      assert forall j :: 0 <= j < |init| ==> init[j] == row[j];
      BinaryRowSumNonNegative(init);
    }
  }

  lemma {:induction false} ZeroSumIsAllZero(row: seq<int>)
    requires forall j :: 0 <= j < |row| ==> row[j] == 0 || row[j] == 1
    requires RowSum(row) == 0
    ensures forall j :: 0 <= j < |row| ==> row[j] == 0
  {
    if row != [] {
      var init := row[..|row| - 1];
      assert forall j :: 0 <= j < |init| ==> init[j] == row[j];
      BinaryRowSumNonNegative(init);
      ZeroSumIsAllZero(init);
    }
  }

  /** A binary row summing to 1 has exactly one 1, at `LastOne`. */
  lemma {:induction false} UnitRowHasOneSlot(row: seq<int>)
    requires forall j :: 0 <= j < |row| ==> row[j] == 0 || row[j] == 1
    requires RowSum(row) == 1
    ensures LastOne(row).Some?
    ensures forall j :: 0 <= j < |row| && j != LastOne(row).value ==> row[j] == 0
  {
    var init := row[..|row| - 1];
    assert forall j :: 0 <= j < |init| ==> init[j] == row[j];
    BinaryRowSumNonNegative(init);
    if row[|row| - 1] == 1 {
      ZeroSumIsAllZero(init);
    } else {
      UnitRowHasOneSlot(init);
    }
  }

  /**
   * Any solution of the constraint system is a proper colouring by slots:
   * every dense region has exactly one slot, adjacent regions have
   * different slots, and every used slot is below the chromatic number.
   */
  lemma SolutionIsColoring(n: nat, edges: set<(nat, nat)>, assign: seq<seq<int>>, chromatic: int)
    requires Satisfies(n, edges, assign, chromatic)
    ensures forall i :: 0 <= i < n ==>
      LastOne(assign[i]).Some? && LastOne(assign[i]).value < chromatic &&
      forall j :: 0 <= j < n && j != LastOne(assign[i]).value ==> assign[i][j] == 0
    ensures forall e :: e in edges && 1 <= e.0 <= n && 1 <= e.1 <= n ==>
      LastOne(assign[e.0 - 1]) != LastOne(assign[e.1 - 1])
  {
    forall i | 0 <= i < n
      ensures LastOne(assign[i]).Some? && LastOne(assign[i]).value < chromatic
      ensures forall j :: 0 <= j < n && j != LastOne(assign[i]).value ==> assign[i][j] == 0
    {
      UnitRowHasOneSlot(assign[i]);
      var s := LastOne(assign[i]).value;
      assert chromatic >= (s + 1) * assign[i][s];
    }
    forall e | e in edges && 1 <= e.0 <= n && 1 <= e.1 <= n
      ensures LastOne(assign[e.0 - 1]) != LastOne(assign[e.1 - 1])
    {
      var s := LastOne(assign[e.0 - 1]).value;
      assert assign[e.0 - 1][s] + assign[e.1 - 1][s] <= 1;
    }
  }

  /**
   * Lines 178-184: fail when the chromatic number exceeds the palette;
   * otherwise map each dense region's label to the palette entry of its
   * slot (the last slot set to 1, as the comprehension overwrites), failing
   * as `colors[color]` would on a slot past the palette.
   */
  function Extract<C>(adj: Adjacency, assign: seq<seq<int>>, chromatic: int, colors: seq<C>): (r: Result<map<nat, C>, ColoringError>)
    requires Valid(adj) && Square(assign, adj.n)
    ensures r == Failure(NotEnoughColors) <==> chromatic > |colors|
    ensures r.Success? ==> r.value.Keys <= adj.toDense.Keys
    ensures r.Success? ==> forall l :: l in r.value ==> exists c :: 0 <= c < |colors| && r.value[l] == colors[c]
  {
    if chromatic > |colors| then Failure(NotEnoughColors)
    else if exists v, c :: 0 <= v < adj.n && 0 <= c < adj.n && assign[v][c] == 1 && c >= |colors| then
      Failure(PaletteIndexOutOfRange)
    else
      Success(map l | l in adj.toDense && LastOne(assign[adj.toDense[l] - 1]).Some? ::
                colors[LastOne(assign[adj.toDense[l] - 1]).value])
  }

  /**
   * When the solver's values satisfy the constraints and the chromatic
   * number fits the palette, extraction succeeds, colours every dense
   * region, and gives the two ends of every edge different slots (so
   * different colours when the palette has no repeats).
   */
  lemma ExtractIsProperColoring<C>(adj: Adjacency, assign: seq<seq<int>>, chromatic: int, colors: seq<C>)
    requires Valid(adj)
    requires Satisfies(adj.n, adj.edges, assign, chromatic)
    requires chromatic <= |colors|
    ensures Extract(adj, assign, chromatic, colors).Success?
    ensures Extract(adj, assign, chromatic, colors).value.Keys == adj.toDense.Keys
    ensures forall e :: e in adj.edges ==>
      var m := Extract(adj, assign, chromatic, colors).value;
      exists s, t ::
        0 <= s < |colors| && 0 <= t < |colors| && s != t &&
        m[adj.toLabel[e.0]] == colors[s] && m[adj.toLabel[e.1]] == colors[t]
  {
    SolutionIsColoring(adj.n, adj.edges, assign, chromatic);
    EdgesInRange(adj);
    var n := adj.n;
    forall v, c | 0 <= v < n && 0 <= c < n && assign[v][c] == 1
      ensures c < |colors|
    {
      assert chromatic >= (c + 1) * assign[v][c];
    }
    var r := Extract(adj, assign, chromatic, colors);
    assert r.Success?;
    var m := r.value;
    forall l | l in adj.toDense
      ensures l in m
    {
      assert 1 <= adj.toDense[l] <= n;
    }
    forall e | e in adj.edges
      ensures exists s, t ::
        0 <= s < |colors| && 0 <= t < |colors| && s != t &&
        m[adj.toLabel[e.0]] == colors[s] && m[adj.toLabel[e.1]] == colors[t]
    {
      var s := LastOne(assign[e.0 - 1]).value;
      var t := LastOne(assign[e.1 - 1]).value;
      assert adj.toDense[adj.toLabel[e.0]] == e.0;
      assert adj.toDense[adj.toLabel[e.1]] == e.1;
      assert m[adj.toLabel[e.0]] == colors[s];
      assert m[adj.toLabel[e.1]] == colors[t];
    }
  }

  /** The slot dense region v takes (-1 when its row has no 1). */
  function SlotOf(assign: seq<seq<int>>, v: nat): int
    requires 1 <= v <= |assign|
  {
    match LastOne(assign[v - 1])
    case Some(s) => s
    case None => -1
  }

  /** The two ends of an edge, in either orientation, have different slots below the chromatic number. */
  lemma EdgeSlotsDiffer(adj: Adjacency, assign: seq<seq<int>>, chromatic: int, u: nat, v: nat)
    requires Valid(adj)
    requires Satisfies(adj.n, adj.edges, assign, chromatic)
    requires (u, v) in adj.edges || (v, u) in adj.edges
    ensures 1 <= u <= adj.n && 1 <= v <= adj.n
    ensures 0 <= SlotOf(assign, u) < chromatic && 0 <= SlotOf(assign, v) < chromatic
    ensures SlotOf(assign, u) != SlotOf(assign, v)
  {
    SolutionIsColoring(adj.n, adj.edges, assign, chromatic);
    EdgesInRange(adj);
  }

  lemma FourDistinctSlots(s0: int, s1: int, s2: int, s3: int, chromatic: int)
    requires s0 != s1 && s0 != s2 && s0 != s3 && s1 != s2 && s1 != s3 && s2 != s3
    requires 0 <= s0 < chromatic && 0 <= s1 < chromatic && 0 <= s2 < chromatic && 0 <= s3 < chromatic
    ensures chromatic >= 4
  {
  }

  /** Four mutually adjacent regions take four different slots below the chromatic number. */
  lemma CliqueForcesFourSlots(adj: Adjacency, assign: seq<seq<int>>, chromatic: int, u0: nat, u1: nat, u2: nat, u3: nat)
    requires Valid(adj)
    requires Satisfies(adj.n, adj.edges, assign, chromatic)
    requires (u0, u1) in adj.edges || (u1, u0) in adj.edges
    requires (u0, u2) in adj.edges || (u2, u0) in adj.edges
    requires (u0, u3) in adj.edges || (u3, u0) in adj.edges
    requires (u1, u2) in adj.edges || (u2, u1) in adj.edges
    requires (u1, u3) in adj.edges || (u3, u1) in adj.edges
    requires (u2, u3) in adj.edges || (u3, u2) in adj.edges
    ensures chromatic >= 4
  {
    EdgeSlotsDiffer(adj, assign, chromatic, u0, u1);
    EdgeSlotsDiffer(adj, assign, chromatic, u0, u2);
    EdgeSlotsDiffer(adj, assign, chromatic, u0, u3);
    EdgeSlotsDiffer(adj, assign, chromatic, u1, u2);
    EdgeSlotsDiffer(adj, assign, chromatic, u1, u3);
    EdgeSlotsDiffer(adj, assign, chromatic, u2, u3);
    FourDistinctSlots(SlotOf(assign, u0), SlotOf(assign, u1), SlotOf(assign, u2), SlotOf(assign, u3), chromatic);
  }

  /**
   * Four mutually adjacent regions force a chromatic number of at least 4:
   * with a palette of fewer than four colours, any solution meeting the
   * constraints ends in the error of line 178. Such a solution exists only
   * in the minimising mode: in the fixed-palette mode the constraints then
   * have no solution at all (see `FixedModeInfeasibleUnchecked`).
   */
  lemma CliqueNeedsFourColors<C>(adj: Adjacency, assign: seq<seq<int>>, chromatic: int, colors: seq<C>, u: seq<nat>)
    requires Valid(adj)
    requires Satisfies(adj.n, adj.edges, assign, chromatic)
    requires |u| == 4 && |colors| < 4
    requires forall i, j :: 0 <= i < j < 4 ==> (u[i], u[j]) in adj.edges || (u[j], u[i]) in adj.edges
    ensures chromatic >= 4
    ensures Extract(adj, assign, chromatic, colors) == Failure(NotEnoughColors)
  {
    CliqueForcesFourSlots(adj, assign, chromatic, u[0], u[1], u[2], u[3]);
  }

  /**
   * In the fixed-palette mode (line 174) the chromatic number is the
   * palette size, so extraction never reports too few colours; it
   * succeeds whenever the constraints hold.
   */
  lemma FixedPaletteFits<C>(adj: Adjacency, assign: seq<seq<int>>, chromatic: int, colors: seq<C>)
    requires Valid(adj)
    requires Satisfies(adj.n, adj.edges, assign, chromatic)
    requires ModeHolds(NoAdjacentSame, chromatic, |colors|)
    ensures Extract(adj, assign, chromatic, colors).Success?
  {
    ExtractIsProperColoring(adj, assign, chromatic, colors);
  }

  /**
   * In the fixed-palette mode the test of line 178 never fires, whatever
   * the solver left in the other variables.
   */
  lemma FixedModeNeverTooFew<C>(adj: Adjacency, assign: seq<seq<int>>, chromatic: int, colors: seq<C>)
    requires Valid(adj) && Square(assign, adj.n)
    requires ModeHolds(NoAdjacentSame, chromatic, |colors|)
    ensures Extract(adj, assign, chromatic, colors) != Failure(NotEnoughColors)
  {
  }

  /**
   * The source as written: `status` (line 176) is never read. In the
   * fixed-palette mode with a 4-clique and fewer than four colours the
   * constraints have no solution, so the solver's values cannot meet them.
   * If the chromatic number is left at the palette size, the test of
   * line 178 does not raise "Not enough colors": extraction goes on with
   * the leftover values, building a map or failing on `colors[color]`.
   */
  lemma FixedModeInfeasibleUnchecked<C>(adj: Adjacency, assign: seq<seq<int>>, chromatic: int, colors: seq<C>,
                                        u0: nat, u1: nat, u2: nat, u3: nat)
    requires Valid(adj) && Square(assign, adj.n)
    requires (u0, u1) in adj.edges && (u0, u2) in adj.edges && (u0, u3) in adj.edges
    requires (u1, u2) in adj.edges && (u1, u3) in adj.edges && (u2, u3) in adj.edges
    requires |colors| < 4 && ModeHolds(NoAdjacentSame, chromatic, |colors|)
    ensures !Satisfies(adj.n, adj.edges, assign, chromatic)
    ensures Extract(adj, assign, chromatic, colors) != Failure(NotEnoughColors)
  {
    if Satisfies(adj.n, adj.edges, assign, chromatic) {
      CliqueForcesFourSlots(adj, assign, chromatic, u0, u1, u2, u3);
    }
  }

  /**
   * Extraction that also reads the solve status: `solved` stands for an
   * optimal status. An unsolved model is reported as too few colours, the
   * error the authors intended for a palette that cannot colour the map.
   */
  function ExtractSolved<C>(solved: bool, adj: Adjacency, assign: seq<seq<int>>, chromatic: int, colors: seq<C>)
    : (r: Result<map<nat, C>, ColoringError>)
    requires Valid(adj) && Square(assign, adj.n)
    ensures r == Failure(NotEnoughColors) <==> !solved || chromatic > |colors|
    ensures r.Success? ==> solved && r == Extract(adj, assign, chromatic, colors)
  {
    if !solved then Failure(NotEnoughColors) else Extract(adj, assign, chromatic, colors)
  }

  /**
   * With the status read, a 4-clique and fewer than four colours end in the
   * error in either mode, given only that a solved model's values meet the
   * constraints.
   */
  lemma CliqueRefusedInEitherMode<C>(solved: bool, adj: Adjacency, assign: seq<seq<int>>, chromatic: int, colors: seq<C>,
                                     u0: nat, u1: nat, u2: nat, u3: nat)
    requires Valid(adj) && Square(assign, adj.n)
    requires solved ==> Satisfies(adj.n, adj.edges, assign, chromatic)
    requires (u0, u1) in adj.edges && (u0, u2) in adj.edges && (u0, u3) in adj.edges
    requires (u1, u2) in adj.edges && (u1, u3) in adj.edges && (u2, u3) in adj.edges
    requires |colors| < 4
    ensures ExtractSolved(solved, adj, assign, chromatic, colors) == Failure(NotEnoughColors)
  {
    if solved {
      CliqueForcesFourSlots(adj, assign, chromatic, u0, u1, u2, u3);
    }
  }

  /** With the status read, a solved model still yields a proper colouring. */
  lemma SolvedExtractIsProperColoring<C>(adj: Adjacency, assign: seq<seq<int>>, chromatic: int, colors: seq<C>)
    requires Valid(adj)
    requires Satisfies(adj.n, adj.edges, assign, chromatic)
    requires chromatic <= |colors|
    ensures ExtractSolved(true, adj, assign, chromatic, colors).Success?
    ensures ExtractSolved(true, adj, assign, chromatic, colors).value.Keys == adj.toDense.Keys
    ensures forall e :: e in adj.edges ==>
      var m := ExtractSolved(true, adj, assign, chromatic, colors).value;
      exists s, t ::
        0 <= s < |colors| && 0 <= t < |colors| && s != t &&
        m[adj.toLabel[e.0]] == colors[s] && m[adj.toLabel[e.1]] == colors[t]
  {
    ExtractIsProperColoring(adj, assign, chromatic, colors);
  }
}
