/**
 * One generation of the hexagonal cellular automaton. Only "active" cells,
 * the live cells and their direct neighbours, are evaluated: each looks up
 * its next state in the rule table at row = own state, column = sum of the
 * six direct neighbours' states, and survives when that entry is positive.
 */
module Automaton {
  import opened Vec
  import opened HexGrid
  import opened StateTable

  /** The state of a cell; a cell missing from the grid is in state 0. */
  function StateAt(g: Grid, h: Hex): (s: int)
    ensures h !in g ==> s == 0
    ensures h in g ==> s == g[h]
  {
    if h !in g then 0 else g[h]
  }

  /** Left fold of `+` over the states of `cells`, starting from 0. */
  function SumStates(g: Grid, cells: seq<Hex>): int
    decreases |cells|
  {
    if |cells| == 0 then 0
    else SumStates(g, cells[..|cells| - 1]) + StateAt(g, cells[|cells| - 1])
  }

  /** Left fold of `+` over 1 for each of `cells` present in the grid. */
  function CountPresent(g: Grid, cells: seq<Hex>): int
    decreases |cells|
  {
    if |cells| == 0 then 0
    else CountPresent(g, cells[..|cells| - 1]) + (if cells[|cells| - 1] in g then 1 else 0)
  }

  function NeighborSum(g: Grid, h: Hex): int {
    SumStates(g, Neighbors(h, false))
  }

  function NeighborCount(g: Grid, h: Hex): int {
    CountPresent(g, Neighbors(h, false))
  }

  /** The live cells together with all their direct neighbours. */
  function ActiveCells(g: Grid): (a: set<Hex>)
    ensures a == {} <==> g == map[]
  {
    var a := g.Keys + set k, c | k in g && c in Neighbors(k, false) :: c;
    assert g != map[] ==> exists k :: k in g && k in a;
    a
  }

  /** Every live state is one of 1..n-1. */
  predicate GridStates(g: Grid, n: int) {
    forall h :: h in g ==> 1 <= g[h] < n
  }

  /** The unchecked rule-table read for `h` stays inside the table. */
  predicate LookupInBounds(g: Grid, tbl: StateTable, h: Hex) {
    0 <= StateAt(g, h) < |tbl| && 0 <= NeighborSum(g, h) < |tbl[StateAt(g, h)]|
  }

  predicate StepDefined(g: Grid, tbl: StateTable) {
    forall h :: h in ActiveCells(g) ==> LookupInBounds(g, tbl, h)
  }

  function NextState(g: Grid, tbl: StateTable, h: Hex): int
    requires LookupInBounds(g, tbl, h)
  {
    tbl[StateAt(g, h)][NeighborSum(g, h)]
  }

  /** The next generation: the active cells whose rule entry is positive,
      in that state. */
  function Step(g: Grid, tbl: StateTable): Grid
    requires StepDefined(g, tbl)
  {
    map h | h in ActiveCells(g) && NextState(g, tbl, h) > 0 :: NextState(g, tbl, h)
  }

  /** One generation, built by visiting the active cells one at a time. */
  method DoStep(current: Grid, tbl: StateTable) returns (next: Grid)
    requires StepDefined(current, tbl)
    ensures next == Step(current, tbl)
  {
    var active := ActiveCells(current);
    var todo := active;
    next := map[];
    while todo != {}
      invariant todo <= active
      invariant forall h :: h in next <==> h in active - todo && NextState(current, tbl, h) > 0
      invariant forall h :: h in next ==> next[h] == NextState(current, tbl, h)
      decreases |todo|
    {
      var hex :| hex in todo;
      var sum := NeighborSum(current, hex);
      var nextState := tbl[StateAt(current, hex)][sum];
      if nextState > 0 {
        next := next[hex := nextState];
      }
      todo := todo - {hex};
    }
    StepUnique(current, tbl, next);
  }

  /** A grid with exactly the keys and values of `Step` is `Step`. */
  lemma StepUnique(g: Grid, tbl: StateTable, next: Grid)
    requires StepDefined(g, tbl)
    requires forall h :: h in next <==> h in ActiveCells(g) && NextState(g, tbl, h) > 0
    requires forall h :: h in next ==> next[h] == NextState(g, tbl, h)
    ensures next == Step(g, tbl)
  {
    assert next.Keys == Step(g, tbl).Keys;
  }

  // ---------------------------------------------------------------------
  // The folds

  /** The count of present cells is the size of the set of present cells,
      when no cell is listed twice. */
  lemma {:induction false} CountPresentIsCard(g: Grid, cells: seq<Hex>)
    requires Distinct(cells)
    ensures CountPresent(g, cells) == |set c | c in cells && c in g|
    decreases |cells|
  {
    if |cells| > 0 {
      var init := cells[..|cells| - 1];
      var last := cells[|cells| - 1];
      CountPresentIsCard(g, init);
      assert last !in init;
      if last in g {
        assert (set c | c in cells && c in g) == (set c | c in init && c in g) + {last};
      } else {
        assert (set c | c in cells && c in g) == (set c | c in init && c in g);
      }
    }
  }

  /** A present-cell count lies in 0..|cells|, and is 0 exactly when no
      listed cell is present. */
  lemma {:induction false} CountPresentBounds(g: Grid, cells: seq<Hex>)
    ensures 0 <= CountPresent(g, cells) <= |cells|
    ensures CountPresent(g, cells) == 0 <==> forall c :: c in cells ==> c !in g
    decreases |cells|
  {
    if |cells| > 0 {
      var init := cells[..|cells| - 1];
      CountPresentBounds(g, init);
      assert forall c :: c in cells <==> c in init || c == cells[|cells| - 1];
    }
  }

  /** Under `GridStates(g, n)`, every listed cell adds between 0 and n-1 to
      the sum, and a present cell adds at least 1. */
  lemma {:induction false} SumStatesBounds(g: Grid, cells: seq<Hex>, n: int)
    requires n >= 1 && GridStates(g, n)
    ensures CountPresent(g, cells) <= SumStates(g, cells) <= |cells| * (n - 1)
    ensures SumStates(g, cells) == 0 <==> CountPresent(g, cells) == 0
    decreases |cells|
  {
    if |cells| > 0 {
      var init := cells[..|cells| - 1];
      SumStatesBounds(g, init, n);
      CountPresentBounds(g, init);
      assert |cells| * (n - 1) == |init| * (n - 1) + (n - 1);
    }
  }

  /** A cell has between 0 and 6 live direct neighbours: exactly the number
      of distinct live cells among its neighbours. */
  lemma NeighborCountRange(g: Grid, h: Hex)
    ensures 0 <= NeighborCount(g, h) <= 6
    ensures NeighborCount(g, h) == |set c | c in Neighbors(h, false) && c in g|
  {
    NeighborsDistinct(h, false);
    CountPresentIsCard(g, Neighbors(h, false));
    CountPresentBounds(g, Neighbors(h, false));
  }

  /** With states in 1..n-1, a neighbour sum lies in 0..6(n-1), and it is 0
      exactly when no direct neighbour is alive. */
  lemma NeighborSumRange(g: Grid, h: Hex, n: int)
    requires n >= 1 && GridStates(g, n)
    ensures 0 <= NeighborCount(g, h) <= NeighborSum(g, h) <= 6 * (n - 1)
    ensures NeighborSum(g, h) == 0 <==> NeighborCount(g, h) == 0
  {
    CountPresentBounds(g, Neighbors(h, false));
    SumStatesBounds(g, Neighbors(h, false), n);
  }

  // ---------------------------------------------------------------------
  // Active cells

  /** A cell is active exactly when it is alive or has a live direct
      neighbour. */
  lemma ActiveIffLiveOrLiveNeighbor(g: Grid, h: Hex)
    ensures h in ActiveCells(g) <==> h in g || NeighborCount(g, h) > 0
  {
    var ns := Neighbors(h, false);
    CountPresentBounds(g, ns);
    if h in ActiveCells(g) && h !in g {
      var k :| k in g && h in Neighbors(k, false);
      NeighborsSymmetric(k, h, false);
    }
    if NeighborCount(g, h) > 0 {
      var k :| k in ns && k in g;
      NeighborsSymmetric(h, k, false);
    }
  }

  /** In a grid of states 1..n-1, `StateAt` is a state of the automaton and
      is 0 exactly for the cells absent from the grid. */
  lemma StateAtMeansPresence(g: Grid, h: Hex, n: int)
    requires n >= 1 && GridStates(g, n)
    ensures 0 <= StateAt(g, h) < n
    ensures StateAt(g, h) == 0 <==> h !in g
  {
    if h in g {
      assert 1 <= g[h] < n;
    }
  }

  lemma NeighborIsActive(g: Grid, k: Hex, h: Hex)
    requires k in g && h in Neighbors(k, false)
    ensures h in ActiveCells(g)
  {
    assert h in set k, c | k in g && c in Neighbors(k, false) :: c;
  }

  /** A cell outside the active set is in state 0 and sees neighbour sum 0:
      the rule's entry tbl[0][0] is all it could ever get. */
  lemma InactiveIsQuiescent(g: Grid, h: Hex)
    requires h !in ActiveCells(g)
    ensures StateAt(g, h) == 0
    ensures NeighborSum(g, h) == 0
  {
    ActiveIffLiveOrLiveNeighbor(g, h);
    CountPresentBounds(g, Neighbors(h, false));
    SumOfAbsent(g, Neighbors(h, false));
  }

  lemma {:induction false} SumOfAbsent(g: Grid, cells: seq<Hex>)
    requires forall c :: c in cells ==> c !in g
    ensures SumStates(g, cells) == 0
    decreases |cells|
  {
    if |cells| > 0 {
      SumOfAbsent(g, cells[..|cells| - 1]);
    }
  }

  /** Over distinct cells, a grid with a single live cell `c` sums to its
      state when `c` is listed and to 0 otherwise. */
  lemma {:induction false} SumSingle(c: Hex, v: int, cells: seq<Hex>)
    requires Distinct(cells)
    ensures SumStates(map[c := v], cells) == if c in cells then v else 0
    decreases |cells|
  {
    if |cells| > 0 {
      var init := cells[..|cells| - 1];
      SumSingle(c, v, init);
      assert forall x :: x in cells <==> x in init || x == cells[|cells| - 1];
      assert cells[|cells| - 1] !in init;
    }
  }

  // ---------------------------------------------------------------------
  // Properties of one generation

  /** Nothing comes from nothing. */
  lemma StepEmpty(g: Grid, tbl: StateTable)
    requires g == map[]
    ensures StepDefined(g, tbl)
    ensures Step(g, tbl) == map[]
  {
  }

  /** The safety invariant of the unchecked table read: for a table of shape
      `n` and live states in 1..n-1, every lookup is in bounds, and the next
      generation again has live states in 1..n-1. */
  lemma StepSafe(g: Grid, tbl: StateTable, n: int)
    requires TableShape(tbl, n) && GridStates(g, n)
    ensures StepDefined(g, tbl)
    ensures GridStates(Step(g, tbl), n)
  {
    if n <= 0 {
      assert g == map[];
    } else {
      forall h | h in ActiveCells(g) ensures LookupInBounds(g, tbl, h) {
        NeighborSumRange(g, h, n);
      }
    }
  }

  /** Cells of the next generation are lattice cells when the live cells
      are. */
  lemma StepPreservesLattice(g: Grid, tbl: StateTable)
    requires StepDefined(g, tbl) && OnLattice(g)
    ensures OnLattice(Step(g, tbl))
  {
    forall h | h in Step(g, tbl) ensures ZeroSum(h) {
      if h !in g {
        var k :| k in g && h in Neighbors(k, false);
        var i :| 0 <= i < 6 && Neighbors(k, false)[i] == h;
        NeighborDistances(k, false, i);
      }
    }
  }

  /** When the quiescent entry tbl[0][0] is not positive, evaluating only
      the active cells loses nothing: a cell is in the next generation
      exactly when its own rule entry is positive. */
  lemma StepIsLocalRule(g: Grid, tbl: StateTable, h: Hex)
    requires StepDefined(g, tbl)
    requires |tbl| > 0 && |tbl[0]| > 0 && tbl[0][0] <= 0
    ensures LookupInBounds(g, tbl, h)
    ensures h in Step(g, tbl) <==> NextState(g, tbl, h) > 0
  {
    if h !in ActiveCells(g) {
      InactiveIsQuiescent(g, h);
    }
  }

  /** A lone live cell in state v leaves nothing behind exactly when both
      the cell itself (row v, sum 0) and each of its six neighbours (row 0,
      sum v) read a non-positive entry. */
  lemma SingleCellStep(c: Hex, v: int, tbl: StateTable, n: int)
    requires TableShape(tbl, n) && 1 <= v < n
    ensures StepDefined(map[c := v], tbl)
    ensures Step(map[c := v], tbl) == map[] <==> tbl[v][0] <= 0 && tbl[0][v] <= 0
  {
    var g := map[c := v];
    StepSafe(g, tbl, n);
    var cn := Neighbors(c, false);
    NeighborsDistinct(c, false);
    SumSingle(c, v, cn);
    assert c !in cn by {
      DistanceSelf(c);
      if c in cn {
        var i :| 0 <= i < 6 && cn[i] == c;
        NeighborDistances(c, false, i);
      }
    }
    assert NeighborSum(g, c) == 0;
    assert c in ActiveCells(g);
    var d := cn[0];
    NeighborIsActive(g, c, d);
    assert d != c;
    assert NeighborSum(g, d) == v by {
      NeighborsSymmetric(c, d, false);
      NeighborsDistinct(d, false);
      SumSingle(c, v, Neighbors(d, false));
    }
    forall h | h in ActiveCells(g) && h != c
      ensures StateAt(g, h) == 0 && NeighborSum(g, h) == v
    {
      assert h in cn;
      NeighborsSymmetric(c, h, false);
      NeighborsDistinct(h, false);
      SumSingle(c, v, Neighbors(h, false));
    }
  }

  /** `k` generations from `g`. Each generation keeps the states in
      1..numStates-1, so each lookup is in bounds. */
  function Iterate(g: Grid, tbl: StateTable, numStates: int, k: nat): (r: Grid)
    requires TableShape(tbl, numStates) && GridStates(g, numStates)
    ensures GridStates(r, numStates)
    decreases k
  {
    if k == 0 then g
    else
      var prev := Iterate(g, tbl, numStates, k - 1);
      StepSafe(prev, tbl, numStates);
      Step(prev, tbl)
  }

  /** The empty grid stays empty. */
  lemma {:induction false} IterateEmpty(g: Grid, tbl: StateTable, numStates: int, k: nat)
    requires TableShape(tbl, numStates) && g == map[]
    ensures Iterate(g, tbl, numStates, k) == map[]
    decreases k
  {
    if k > 0 {
      var prev := Iterate(g, tbl, numStates, k - 1);
      IterateEmpty(g, tbl, numStates, k - 1);
      assert prev == map[];
      StepEmpty(prev, tbl);
      IterateUnfold(g, tbl, numStates, k);
    }
  }

  /** Generation `k` is one step after generation `k - 1`. */
  lemma IterateUnfold(g: Grid, tbl: StateTable, numStates: int, k: nat)
    requires TableShape(tbl, numStates) && GridStates(g, numStates) && k > 0
    ensures StepDefined(Iterate(g, tbl, numStates, k - 1), tbl)
    ensures Iterate(g, tbl, numStates, k) == Step(Iterate(g, tbl, numStates, k - 1), tbl)
  {
    StepSafe(Iterate(g, tbl, numStates, k - 1), tbl, numStates);
  }

  /** Lattice grids stay on the lattice. */
  lemma {:induction false} IteratePreservesLattice(g: Grid, tbl: StateTable, numStates: int, k: nat)
    requires TableShape(tbl, numStates) && GridStates(g, numStates) && OnLattice(g)
    ensures OnLattice(Iterate(g, tbl, numStates, k))
    decreases k
  {
    if k > 0 {
      IteratePreservesLattice(g, tbl, numStates, k - 1);
      StepKeepsLattice(Iterate(g, tbl, numStates, k - 1), tbl, numStates);
    }
  }

  lemma StepKeepsLattice(g: Grid, tbl: StateTable, numStates: int)
    requires TableShape(tbl, numStates) && GridStates(g, numStates) && OnLattice(g)
    ensures StepDefined(g, tbl)
    ensures OnLattice(Step(g, tbl))
  {
    StepSafe(g, tbl, numStates);
    StepPreservesLattice(g, tbl);
  }
}
