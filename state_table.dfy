/**
 * Rule tables ("state tables"): row = current state of a cell, column =
 * sum of its six direct neighbours' states, entry = the cell's next state.
 * A table for `n` states has `n` rows of `6n + 1` columns.
 */
module StateTable {
  import opened Draws

  type StateTable = seq<seq<int>>

  datatype Option<T> = None | Some(value: T)

  /** Number of columns of a table for `numStates` states: one per possible
      neighbour sum 0..6*(numStates-1), padded to 6*numStates. */
  function Columns(numStates: int): int {
    6 * numStates + 1
  }

  /** `n` rows of `Columns(n)` entries, each entry a state in 0..n-1. */
  predicate TableShape(tbl: StateTable, n: int) {
    |tbl| == n &&
    (forall i :: 0 <= i < |tbl| ==> |tbl[i]| == Columns(n)) &&
    (forall i, j :: 0 <= i < |tbl| && 0 <= j < |tbl[i]| ==> 0 <= tbl[i][j] < n)
  }

  /** Every row as long as the first. */
  predicate Rectangular(tbl: StateTable) {
    |tbl| > 0 ==> forall i :: 0 <= i < |tbl| ==> |tbl[i]| == |tbl[0]|
  }

  lemma CellIndexBound(r: int, c: int, rows: int, cols: int)
    requires 0 <= r < rows && 0 <= c < cols
    ensures 0 <= r * cols + c < rows * cols
  {
    assert r * cols + c < r * cols + cols == (r + 1) * cols;
    assert (r + 1) * cols <= rows * cols;
  }

  /** The draw for cell (r, c) of a `rows` x `cols` table, in row-major
      order. */
  function CellDrawAt<T>(draws: seq<T>, rows: int, cols: int, r: int, c: int): (d: T)
    requires 0 <= r < rows && 0 <= c < cols && |draws| >= rows * cols
    ensures d in draws
  {
    CellIndexBound(r, c, rows, cols);
    draws[r * cols + c]
  }

  // ---------------------------------------------------------------------
  // empty_state_table and dimensions

  /** A `rows` x `cols` table of zeros. */
  function EmptyStateTable(cols: int, rows: int): (t: StateTable)
    requires cols >= 0 && rows >= 0
    ensures |t| == rows
    ensures forall i :: 0 <= i < rows ==> |t[i]| == cols
    ensures forall i, j :: 0 <= i < rows && 0 <= j < cols ==> t[i][j] == 0
  {
    seq(rows, _ => seq(cols, _ => 0))
  }

  /** (columns, rows), read from the FIRST row; an empty table has no first
      row, which the source reports by throwing. */
  function Dimensions(tbl: StateTable): (d: Option<(int, int)>)
    ensures d.None? <==> |tbl| == 0
    ensures d.Some? ==> d.value == (|tbl[0]|, |tbl|)
  {
    if |tbl| == 0 then None else Some((|tbl[0]|, |tbl|))
  }

  /** A zero table built from a table's dimensions reports those same
      dimensions back, and is rectangular. */
  lemma EmptyTableDimensions(tbl: StateTable)
    requires |tbl| > 0
    ensures Dimensions(EmptyStateTable(|tbl[0]|, |tbl|)) == Dimensions(tbl)
    ensures Rectangular(EmptyStateTable(|tbl[0]|, |tbl|))
  {
    var t := EmptyStateTable(|tbl[0]|, |tbl|);
    assert |t[0]| == |tbl[0]|;
  }

  /** A well-shaped table for `n >= 1` states measures `Columns(n)` by `n`. */
  lemma ShapedDimensions(tbl: StateTable, n: int)
    requires n >= 1 && TableShape(tbl, n)
    ensures Dimensions(tbl) == Some((Columns(n), n))
    ensures Rectangular(tbl)
  {
    assert |tbl[0]| == Columns(n);
  }

  // ---------------------------------------------------------------------
  // mix_state_tables

  /** What the unchecked reads of the crossover need: every row of `tbl1`
      and the first `|tbl1|` rows of `tbl2` are at least as long as
      `tbl1[0]`, and there is one coin per cell. */
  predicate Mixable(tbl1: StateTable, tbl2: StateTable, coins: seq<bool>) {
    |tbl1| > 0 ==>
      var cols := |tbl1[0]|;
      |tbl2| >= |tbl1| &&
      (forall i :: 0 <= i < |tbl1| ==> |tbl1[i]| >= cols && |tbl2[i]| >= cols) &&
      |coins| >= |tbl1| * cols
  }

  /** The child table: `tbl1`'s shape, each cell taken from `tbl1` when its
      coin is true and from `tbl2` otherwise. */
  function Crossover(tbl1: StateTable, tbl2: StateTable, coins: seq<bool>): StateTable
    requires |tbl1| > 0 && Mixable(tbl1, tbl2, coins)
  {
    var rows := |tbl1|;
    var cols := |tbl1[0]|;
    seq(rows, r requires 0 <= r < rows =>
      seq(cols, c requires 0 <= c < cols =>
        if CellDrawAt(coins, rows, cols, r, c) then tbl1[r][c] else tbl2[r][c]))
  }

  /** Nested loops filling a zero table cell by cell. */
  method MixStateTables(tbl1: StateTable, tbl2: StateTable, coins: seq<bool>)
    returns (child: Option<StateTable>)
    requires Mixable(tbl1, tbl2, coins)
    ensures child.None? <==> |tbl1| == 0
    ensures child.Some? ==> child.value == Crossover(tbl1, tbl2, coins)
  {
    var dims := Dimensions(tbl1);
    if dims.None? {
      return None;
    }
    var (cols, rows) := dims.value;
    ghost var spec := Crossover(tbl1, tbl2, coins);
    var t := EmptyStateTable(cols, rows);
    var row := 0;
    while row < rows
      invariant 0 <= row <= rows
      invariant |t| == rows
      invariant forall i :: 0 <= i < rows ==> |t[i]| == cols
      invariant forall i :: 0 <= i < row ==> t[i] == spec[i]
    {
      var col := 0;
      while col < cols
        invariant 0 <= col <= cols
        invariant |t| == rows
        invariant forall i :: 0 <= i < rows ==> |t[i]| == cols
        invariant forall i :: 0 <= i < row ==> t[i] == spec[i]
        invariant forall j :: 0 <= j < col ==> t[row][j] == spec[row][j]
      {
        CellIndexBound(row, col, rows, cols);
        var v := if coins[row * cols + col] then tbl1[row][col] else tbl2[row][col];
        t := t[row := t[row][col := v]];
        col := col + 1;
      }
      assert t[row] == spec[row];
      row := row + 1;
    }
    return Some(t);
  }

  /** The child has `tbl1`'s dimensions, and each entry is the entry of
      `tbl1` or of `tbl2` at the same position, as the coin says. */
  lemma CrossoverEntries(tbl1: StateTable, tbl2: StateTable, coins: seq<bool>)
    requires |tbl1| > 0 && Mixable(tbl1, tbl2, coins)
    ensures |Crossover(tbl1, tbl2, coins)| == |tbl1|
    ensures forall r :: 0 <= r < |tbl1| ==> |Crossover(tbl1, tbl2, coins)[r]| == |tbl1[0]|
    ensures forall r, c :: 0 <= r < |tbl1| && 0 <= c < |tbl1[0]| ==>
      var v := Crossover(tbl1, tbl2, coins)[r][c];
      (v == tbl1[r][c] || v == tbl2[r][c]) &&
      (CellDrawAt(coins, |tbl1|, |tbl1[0]|, r, c) ==> v == tbl1[r][c]) &&
      (!CellDrawAt(coins, |tbl1|, |tbl1[0]|, r, c) ==> v == tbl2[r][c])
  {
  }

  /** Mixing a rectangular table with itself gives it back, whatever the
      coins. */
  lemma CrossoverSelf(tbl: StateTable, coins: seq<bool>)
    requires |tbl| > 0 && Rectangular(tbl) && Mixable(tbl, tbl, coins)
    ensures Crossover(tbl, tbl, coins) == tbl
  {
    var child := Crossover(tbl, tbl, coins);
    forall r | 0 <= r < |tbl| ensures child[r] == tbl[r] {
    }
  }

  /** Mixing two well-shaped tables for `n` states gives a well-shaped table
      for `n` states. */
  lemma CrossoverKeepsShape(tbl1: StateTable, tbl2: StateTable, coins: seq<bool>, n: int)
    requires TableShape(tbl1, n) && TableShape(tbl2, n) && n > 0
    requires |coins| >= n * Columns(n)
    ensures Mixable(tbl1, tbl2, coins)
    ensures TableShape(Crossover(tbl1, tbl2, coins), n)
  {
    CrossoverEntries(tbl1, tbl2, coins);
  }

  // ---------------------------------------------------------------------
  // random_state_table

  /** Row `r` of a random table: its cells' draws taken in order. */
  function RandomRow(numStates: int, draws: seq<CellDraw>, r: int): (row: seq<int>)
    requires numStates >= 0 && 0 <= r < numStates
    requires |draws| >= numStates * Columns(numStates)
    requires ValidDraws(draws, numStates)
    ensures |row| == Columns(numStates)
    ensures forall j :: 0 <= j < |row| ==> 0 <= row[j] < numStates
  {
    var cols := Columns(numStates);
    seq(cols, c requires 0 <= c < cols =>
      DrawnState(CellDrawAt(draws, numStates, cols, r, c), numStates))
  }

  /** A table for `numStates` states, cell (r, c) decided by the draw at
      row-major position `r * Columns(numStates) + c`. */
  function RandomStateTable(numStates: int, draws: seq<CellDraw>): (tbl: StateTable)
    requires numStates >= 0
    requires |draws| >= numStates * Columns(numStates)
    requires ValidDraws(draws, numStates)
    ensures TableShape(tbl, numStates)
  {
    seq(numStates, r requires 0 <= r < numStates => RandomRow(numStates, draws, r))
  }

  /** An entry is 0 exactly when its draw is dead, and `1 + pick` for a live
      draw. */
  lemma RandomStateTableCells(numStates: int, draws: seq<CellDraw>, r: int, c: int)
    requires numStates >= 0
    requires |draws| >= numStates * Columns(numStates)
    requires ValidDraws(draws, numStates)
    requires 0 <= r < numStates && 0 <= c < Columns(numStates)
    ensures r * Columns(numStates) + c < |draws|
    ensures RandomStateTable(numStates, draws)[r][c] == 0 <==> draws[r * Columns(numStates) + c].Dead?
    ensures draws[r * Columns(numStates) + c].Live? ==>
      RandomStateTable(numStates, draws)[r][c] == 1 + draws[r * Columns(numStates) + c].pick
  {
    CellIndexBound(r, c, numStates, Columns(numStates));
  }

  /** With a single state every entry is 0: no live draw is possible. */
  lemma SingleStateTableIsDead(draws: seq<CellDraw>)
    requires |draws| >= Columns(1)
    requires ValidDraws(draws, 1)
    ensures RandomStateTable(1, draws) == [seq(Columns(1), _ => 0)]
  {
    var tbl := RandomStateTable(1, draws);
    assert tbl[0] == seq(Columns(1), _ => 0);
  }
}
