/**
 * The random initial grid: a wedge (a twelfth of the disk) is filled from
 * pre-drawn cell decisions, one decision per mirror pair of wedge cells so
 * that the wedge is symmetric under `FlipHorz`, and the six rotations of the
 * wedge are then merged with the first-wins `Union`. The result has the full
 * symmetry of the hexagon: it is unchanged by a sixth of a turn and by the
 * reflection, values included.
 */
module Seed {
  import opened Vec
  import opened HexGrid
  import opened Regions
  import opened Draws
  import opened Automaton

  /** The closed sector x >= 0, y <= 0, z >= 0 that every wedge lies in. */
  predicate InSector(h: Hex) {
    ZeroSum(h) && h.x >= 0 && h.y <= 0 && h.z >= 0
  }

  /** Every cell's mirror image is present with the same state. */
  predicate MirrorSymmetric(g: Grid) {
    forall h {:trigger FlipHorz(h)} :: h in g ==> FlipHorz(h) in g && g[FlipHorz(h)] == g[h]
  }

  /** A sixth of a turn maps the grid onto itself, states included. */
  predicate RotationSymmetric(g: Grid) {
    forall h {:trigger Rotate(h, 1)} :: h in g ==> Rotate(h, 1) in g && g[Rotate(h, 1)] == g[h]
  }

  // ---------------------------------------------------------------------
  // Filling the wedge

  /** `a` is the mirror image of `b`, written on components so that it
      names no new cell. */
  predicate Mirrored(a: Hex, b: Hex) {
    a.x == b.z && a.y == b.y && a.z == b.x
  }

  /** Every cell's mirror image is among the cells. */
  predicate FlipClosed(cells: seq<Hex>) {
    forall h {:trigger FlipHorz(h)} :: h in cells ==> FlipHorz(h) in cells
  }

  /** Cell `j` opens a mirror pair: neither it nor its mirror image occurs
      among the cells before it. */
  predicate OpensPair(cells: seq<Hex>, j: int)
    requires 0 <= j < |cells|
  {
    cells[j] !in cells[..j] && FlipHorz(cells[j]) !in cells[..j]
  }

  /** The number of mirror pairs opened by the first `k` cells, which is the
      index of the draw the next new pair takes. */
  function PairsMet(cells: seq<Hex>, k: int): nat
    requires 0 <= k <= |cells|
    decreases k
  {
    if k == 0 then 0
    else PairsMet(cells, k - 1) + if OpensPair(cells, k - 1) then 1 else 0
  }

  /** The visited cells after `k` cells are the cells met so far and their
      mirror images (the mirror is written on components, so that the
      predicate names no new `FlipHorz` term). */
  ghost predicate MetCells(cells: seq<Hex>, k: int, visited: set<Hex>) {
    0 <= k <= |cells| &&
    forall h :: h in visited <==> h in cells[..k] || Vec3(h.z, h.y, h.x) in cells[..k]
  }

  /** The cell that opens the i-th pair among the first `k` cells was
      decided by draw i. */
  ghost predicate DrawsInOrder(cells: seq<Hex>, k: int, drawOf: map<Hex, nat>) {
    0 <= k <= |cells| &&
    forall j {:trigger cells[j] in drawOf} {:trigger drawOf[cells[j]]} ::
      0 <= j < k && OpensPair(cells, j) ==> cells[j] in drawOf && drawOf[cells[j]] == PairsMet(cells, j)
  }

  /** The order bookkeeping of the wedge loop after `k` cells: besides the
      two predicates above, `used` counts the pairs opened so far. */
  ghost predicate MetInOrder(cells: seq<Hex>, k: int, used: int, visited: set<Hex>,
                             drawOf: map<Hex, nat>)
  {
    MetCells(cells, k, visited) && used == PairsMet(cells, k) && DrawsInOrder(cells, k, drawOf)
  }

  lemma MetCellsSkip(cells: seq<Hex>, k: int, visited: set<Hex>)
    requires MetCells(cells, k, visited) && k < |cells| && cells[k] in visited
    ensures !OpensPair(cells, k)
    ensures MetCells(cells, k + 1, visited)
  {
    var hex := cells[k];
    assert cells[..k + 1] == cells[..k] + [hex];
    FlipInvolution(hex, hex);
    forall h ensures h in visited <==> h in cells[..k + 1] || Vec3(h.z, h.y, h.x) in cells[..k + 1] {
      FlipInvolution(h, h);
    }
  }

  lemma MetCellsVisit(cells: seq<Hex>, k: int, visited: set<Hex>)
    requires MetCells(cells, k, visited) && k < |cells| && cells[k] !in visited
    ensures OpensPair(cells, k) && FlipHorz(cells[k]) !in visited
    ensures forall j :: 0 <= j < k ==> cells[j] in visited
    ensures MetCells(cells, k + 1, visited + {cells[k], FlipHorz(cells[k])})
  {
    var hex := cells[k];
    var visited' := visited + {hex, FlipHorz(hex)};
    assert cells[..k + 1] == cells[..k] + [hex];
    FlipInvolution(hex, hex);
    assert FlipHorz(hex) !in visited;
    forall h ensures h in visited' <==> h in cells[..k + 1] || Vec3(h.z, h.y, h.x) in cells[..k + 1] {
      FlipInvolution(h, h);
    }
    forall j | 0 <= j < k ensures cells[j] in visited {
      assert cells[j] in cells[..k];
    }
  }

  lemma DrawsInOrderSkip(cells: seq<Hex>, k: int, drawOf: map<Hex, nat>)
    requires DrawsInOrder(cells, k, drawOf) && k < |cells| && !OpensPair(cells, k)
    ensures DrawsInOrder(cells, k + 1, drawOf)
  {
  }

  lemma DrawsInOrderVisit(cells: seq<Hex>, k: int, drawOf: map<Hex, nat>, flipped: Hex, d: nat)
    requires DrawsInOrder(cells, k, drawOf) && k < |cells| && d == PairsMet(cells, k)
    requires forall j :: 0 <= j < k ==> cells[j] != cells[k] && cells[j] != flipped
    ensures DrawsInOrder(cells, k + 1, drawOf[cells[k] := d][flipped := d])
  {
    forall j | 0 <= j < k + 1 && OpensPair(cells, j)
      ensures cells[j] in drawOf[cells[k] := d][flipped := d]
      ensures drawOf[cells[k] := d][flipped := d][cells[j]] == PairsMet(cells, j)
    {
      DrawAt(cells, k, drawOf, flipped, d, j);
    }
  }

  /** After the k-th cell records draw d, every pair opened so far still maps to its own draw. */
  lemma DrawAt(cells: seq<Hex>, k: int, drawOf: map<Hex, nat>, flipped: Hex, d: nat, j: int)
    requires DrawsInOrder(cells, k, drawOf) && k < |cells| && d == PairsMet(cells, k)
    requires 0 <= j <= k && OpensPair(cells, j)
    requires j < k ==> cells[j] != cells[k] && cells[j] != flipped
    ensures cells[j] in drawOf[cells[k] := d][flipped := d]
    ensures drawOf[cells[k] := d][flipped := d][cells[j]] == PairsMet(cells, j)
  {
    if j < k {
      assert cells[j] in drawOf;
    }
  }

  /** A cell that was already visited opens no pair and consumes no draw. */
  lemma MetSkip(cells: seq<Hex>, k: int, used: int, visited: set<Hex>, drawOf: map<Hex, nat>)
    requires MetInOrder(cells, k, used, visited, drawOf) && k < |cells| && cells[k] in visited
    ensures MetInOrder(cells, k + 1, used, visited, drawOf)
  {
    MetCellsSkip(cells, k, visited);
    DrawsInOrderSkip(cells, k, drawOf);
  }

  /** A cell met for the first time opens the next pair and takes draw
      `used`, for itself and its mirror image. */
  lemma MetVisit(cells: seq<Hex>, k: int, used: int, visited: set<Hex>, drawOf: map<Hex, nat>)
    requires MetInOrder(cells, k, used, visited, drawOf) && k < |cells| && cells[k] !in visited
    ensures MetInOrder(cells, k + 1, used + 1, visited + {cells[k], FlipHorz(cells[k])},
                       drawOf[cells[k] := used][FlipHorz(cells[k]) := used])
  {
    var hex := cells[k];
    MetCellsVisit(cells, k, visited);
    forall j | 0 <= j < k ensures cells[j] != hex && cells[j] != FlipHorz(hex) {
      assert cells[j] in visited;
    }
    DrawsInOrderVisit(cells, k, drawOf, FlipHorz(hex), used);
  }

  /** The first `k` cells have been visited and at most one draw has been
      consumed per cell. */
  ghost predicate WedgeCovered(cells: seq<Hex>, draws: seq<CellDraw>, k: int, used: int,
                               visited: set<Hex>)
  {
    0 <= used <= k <= |cells| <= |draws| &&
    forall j :: 0 <= j < k ==> cells[j] in visited
  }

  /** `drawOf` is defined on the visited cells, all of them wedge cells
      whose draws lie below `used`. */
  ghost predicate DrawBook(cells: seq<Hex>, used: int, visited: set<Hex>, drawOf: map<Hex, nat>) {
    visited == drawOf.Keys &&
    forall h :: h in visited ==> h in cells && drawOf[h] < used
  }

  /** A visited cell's mirror image is visited and shares its draw. */
  ghost predicate MirrorShares(visited: set<Hex>, drawOf: map<Hex, nat>) {
    visited <= drawOf.Keys &&
    forall h {:trigger FlipHorz(h)} :: h in visited ==>
      FlipHorz(h) in visited && drawOf[FlipHorz(h)] == drawOf[h]
  }

  /** Distinct mirror pairs use distinct draws. */
  ghost predicate PairsDistinct(visited: set<Hex>, drawOf: map<Hex, nat>) {
    visited <= drawOf.Keys &&
    forall a, b :: a in visited && b in visited && drawOf[a] == drawOf[b] ==>
      a == b || Mirrored(a, b)
  }

  /** A visited cell is alive exactly when its draw is, with state
      `1 + pick`. */
  ghost predicate DrawsDecide(draws: seq<CellDraw>, visited: set<Hex>, drawOf: map<Hex, nat>, tri: Grid) {
    visited <= drawOf.Keys &&
    (forall h :: h in visited ==> drawOf[h] < |draws|) &&
    (forall h :: h in tri <==> h in visited && draws[drawOf[h]].Live?) &&
    (forall h :: h in tri ==> tri[h] == 1 + draws[drawOf[h]].pick)
  }

  /** The bookkeeping of the wedge loop: `drawOf` records, for every visited
      cell, which draw decided it; a cell and its mirror image share a draw,
      distinct mirror pairs use distinct draws, only draws below `used` have
      been consumed, and a visited cell is alive exactly when its draw is. */
  ghost predicate PairDraws(cells: seq<Hex>, draws: seq<CellDraw>, used: int,
                            visited: set<Hex>, drawOf: map<Hex, nat>, tri: Grid)
  {
    0 <= used <= |draws| &&
    DrawBook(cells, used, visited, drawOf) &&
    MirrorShares(visited, drawOf) &&
    PairsDistinct(visited, drawOf) &&
    DrawsDecide(draws, visited, drawOf, tri)
  }

  lemma VisitBook(cells: seq<Hex>, used: int, visited: set<Hex>, drawOf: map<Hex, nat>, hex: Hex)
    requires DrawBook(cells, used, visited, drawOf) && used >= 0
    requires hex in cells && FlipHorz(hex) in cells
    ensures DrawBook(cells, used + 1, visited + {hex, FlipHorz(hex)},
                     drawOf[hex := used][FlipHorz(hex) := used])
  {
  }

  lemma VisitMirror(visited: set<Hex>, drawOf: map<Hex, nat>, hex: Hex, d: nat)
    requires MirrorShares(visited, drawOf) && hex !in visited
    ensures FlipHorz(hex) !in visited
    ensures MirrorShares(visited + {hex, FlipHorz(hex)}, drawOf[hex := d][FlipHorz(hex) := d])
  {
    var flipped := FlipHorz(hex);
    FlipInvolution(hex, hex);
    var visited' := visited + {hex, flipped};
    var drawOf' := drawOf[hex := d][flipped := d];
    forall h | h in visited'
      ensures FlipHorz(h) in visited' && drawOf'[FlipHorz(h)] == drawOf'[h]
    {
      FlipInvolution(h, h);
    }
  }

  lemma VisitDistinct(visited: set<Hex>, drawOf: map<Hex, nat>, hex: Hex, used: nat)
    requires PairsDistinct(visited, drawOf)
    requires forall h :: h in visited ==> drawOf[h] < used
    requires hex !in visited && FlipHorz(hex) !in visited
    ensures PairsDistinct(visited + {hex, FlipHorz(hex)}, drawOf[hex := used][FlipHorz(hex) := used])
  {
  }

  lemma VisitDecide(draws: seq<CellDraw>, visited: set<Hex>, drawOf: map<Hex, nat>,
                    tri: Grid, tri': Grid, hex: Hex, used: nat)
    requires DrawsDecide(draws, visited, drawOf, tri) && used < |draws|
    requires hex !in visited && FlipHorz(hex) !in visited
    requires tri' == if draws[used].Live?
              then tri[hex := 1 + draws[used].pick][FlipHorz(hex) := 1 + draws[used].pick]
              else tri
    ensures DrawsDecide(draws, visited + {hex, FlipHorz(hex)}, drawOf[hex := used][FlipHorz(hex) := used], tri')
  {
  }

  /** A new cell consumes draw `used`, for itself and its mirror image. */
  lemma WedgeVisit(cells: seq<Hex>, draws: seq<CellDraw>, k: int, k': int,
                   used: int, used': int,
                   visited: set<Hex>, drawOf: map<Hex, nat>, tri: Grid, tri': Grid)
    requires WedgeCovered(cells, draws, k, used, visited)
    requires PairDraws(cells, draws, used, visited, drawOf, tri)
    requires FlipClosed(cells)
    requires k < |cells| && cells[k] !in visited && k' == k + 1 && used' == used + 1
    requires var hex := cells[k];
      tri' == if draws[used].Live?
              then tri[hex := 1 + draws[used].pick][FlipHorz(hex) := 1 + draws[used].pick]
              else tri
    ensures used < |draws|
    ensures var hex := cells[k];
      WedgeCovered(cells, draws, k', used', visited + {hex, FlipHorz(hex)})
    ensures var hex := cells[k];
      PairDraws(cells, draws, used', visited + {hex, FlipHorz(hex)},
                drawOf[hex := used][FlipHorz(hex) := used], tri')
  {
    var hex := cells[k];
    VisitBook(cells, used, visited, drawOf, hex);
    VisitMirror(visited, drawOf, hex, used);
    VisitDistinct(visited, drawOf, hex, used);
    VisitDecide(draws, visited, drawOf, tri, tri', hex, used);
  }

  /** One round of the wedge loop: cell `k` is skipped when it was already
      visited, and otherwise takes draw `used` for itself and its mirror
      image, which come alive with state `1 + pick` when the draw is live. */
  method WedgeRound(cells: seq<Hex>, draws: seq<CellDraw>, k: int,
                    tri: Grid, used: nat, visited: set<Hex>, ghost drawOf: map<Hex, nat>)
    returns (tri': Grid, used': nat, visited': set<Hex>, ghost drawOf': map<Hex, nat>)
    requires FlipClosed(cells) && k < |cells|
    requires WedgeCovered(cells, draws, k, used, visited)
    requires PairDraws(cells, draws, used, visited, drawOf, tri)
    requires MetInOrder(cells, k, used, visited, drawOf)
    ensures WedgeCovered(cells, draws, k + 1, used', visited')
    ensures PairDraws(cells, draws, used', visited', drawOf', tri')
    ensures MetInOrder(cells, k + 1, used', visited', drawOf')
  {
    var hex := cells[k];
    if hex in visited {
      MetSkip(cells, k, used, visited, drawOf);
      return tri, used, visited, drawOf;
    }
    var flipped := FlipHorz(hex);
    tri' := tri;
    if draws[used].Live? {
      tri' := tri'[hex := 1 + draws[used].pick];
      tri' := tri'[flipped := tri'[hex]];
    }
    WedgeVisit(cells, draws, k, k + 1, used, used + 1, visited, drawOf, tri, tri');
    MetVisit(cells, k, used, visited, drawOf);
    visited' := visited + {hex, flipped};
    drawOf' := drawOf[hex := used][flipped := used];
    used' := used + 1;
  }

  /** The loop of the wedge fill over the cells `cells`, in order: each
      cell not yet visited takes the next draw, and a live draw `pick`
      gives it and its mirror image the state `1 + pick`. `drawOf` says
      which draw decided each cell. */
  method FillWedge(cells: seq<Hex>, draws: seq<CellDraw>)
    returns (tri: Grid, used: nat, ghost drawOf: map<Hex, nat>)
    requires FlipClosed(cells) && |draws| >= |cells|
    ensures used <= |cells|
    ensures forall h :: h in cells ==> h in drawOf
    ensures PairDraws(cells, draws, used, drawOf.Keys, drawOf, tri)
    ensures used == PairsMet(cells, |cells|)
    ensures forall j :: 0 <= j < |cells| && OpensPair(cells, j) ==> drawOf[cells[j]] == PairsMet(cells, j)
  {
    var visited: set<Hex> := {};
    tri, used, drawOf := map[], 0, map[];
    WedgeStart(cells, draws);
    for k := 0 to |cells|
      invariant WedgeCovered(cells, draws, k, used, visited)
      invariant PairDraws(cells, draws, used, visited, drawOf, tri)
      invariant MetInOrder(cells, k, used, visited, drawOf)
    {
      tri, used, visited, drawOf := WedgeRound(cells, draws, k, tri, used, visited, drawOf);
    }
    WedgeEnd(cells, draws, used, visited, drawOf, tri);
  }

  /** Before the loop nothing is visited and no draw is consumed. */
  lemma WedgeStart(cells: seq<Hex>, draws: seq<CellDraw>)
    requires |draws| >= |cells|
    ensures WedgeCovered(cells, draws, 0, 0, {})
    ensures PairDraws(cells, draws, 0, {}, map[], map[])
    ensures MetInOrder(cells, 0, 0, {}, map[])
  {
  }

  /** After the loop every cell has its draw, and the pairs took the draws
      in the order they were met. */
  lemma WedgeEnd(cells: seq<Hex>, draws: seq<CellDraw>, used: int, visited: set<Hex>,
                 drawOf: map<Hex, nat>, tri: Grid)
    requires WedgeCovered(cells, draws, |cells|, used, visited)
    requires PairDraws(cells, draws, used, visited, drawOf, tri)
    requires MetInOrder(cells, |cells|, used, visited, drawOf)
    ensures used <= |cells|
    ensures forall h :: h in cells ==> h in drawOf
    ensures PairDraws(cells, draws, used, drawOf.Keys, drawOf, tri)
    ensures used == PairsMet(cells, |cells|)
    ensures forall j :: 0 <= j < |cells| && OpensPair(cells, j) ==> drawOf[cells[j]] == PairsMet(cells, j)
  {
    forall h | h in cells ensures h in drawOf {
      var j :| 0 <= j < |cells| && cells[j] == h;
    }
    assert cells[..|cells|] == cells;
  }

  /** Fills the wedge `TriRegion(radius)` in its order. */
  method SeedWedge(numStates: int, radius: int, draws: seq<CellDraw>)
    returns (tri: Grid, used: nat, ghost drawOf: map<Hex, nat>)
    requires radius >= -1
    requires |draws| >= |TriRegion(radius)|
    requires ValidDraws(draws, numStates)
    ensures used <= |TriRegion(radius)|
    ensures forall h :: h in drawOf <==> h in TriRegion(radius)
    ensures forall h {:trigger FlipHorz(h)} :: h in drawOf ==>
      FlipHorz(h) in drawOf && drawOf[FlipHorz(h)] == drawOf[h]
    ensures forall h :: h in drawOf ==> drawOf[h] < used
    ensures forall a, b :: a in drawOf && b in drawOf && drawOf[a] == drawOf[b] ==>
      a == b || Mirrored(a, b)
    ensures used == PairsMet(TriRegion(radius), |TriRegion(radius)|)
    ensures forall j :: 0 <= j < |TriRegion(radius)| && OpensPair(TriRegion(radius), j) ==>
      drawOf[TriRegion(radius)[j]] == PairsMet(TriRegion(radius), j)
    ensures forall h :: h in tri <==> h in drawOf && draws[drawOf[h]].Live?
    ensures forall h :: h in tri ==> tri[h] == 1 + draws[drawOf[h]].pick
    ensures MirrorSymmetric(tri) && GridStates(tri, numStates)
    ensures forall h :: h in tri ==> InWedge(h, radius) && InSector(h)
  {
    var cells := TriRegion(radius);
    assert FlipClosed(cells) by {
      forall h | h in cells ensures FlipHorz(h) in cells {
        TriRegionFlipClosed(radius, h);
      }
    }
    tri, used, drawOf := FillWedge(cells, draws);
    WedgeFacts(cells, radius, numStates, draws, used, drawOf, tri);
  }

  /** The radius-1 wedge: its first two cells open the two mirror pairs, so
      draw 0 decides the pair {(0,-1,1), (1,-1,0)} and draw 1 the centre. */
  lemma RadiusOneWedgeOrder()
    ensures TriRegion(1) == [Vec3(0, -1, 1), Vec3(0, 0, 0), Vec3(1, -1, 0)]
    ensures OpensPair(TriRegion(1), 0) && OpensPair(TriRegion(1), 1)
    ensures !OpensPair(TriRegion(1), 2)
    ensures PairsMet(TriRegion(1), 0) == 0 && PairsMet(TriRegion(1), 1) == 1
    ensures PairsMet(TriRegion(1), 3) == 2
  {
    var cells := TriRegion(1);
    assert cells == [Vec3(0, -1, 1), Vec3(0, 0, 0), Vec3(1, -1, 0)];
    assert cells[..2] == [Vec3(0, -1, 1), Vec3(0, 0, 0)];
    assert OpensPair(cells, 1);
    assert !OpensPair(cells, 2);
  }

  /** What the finished wedge loop means for the grid: mirror symmetry,
      states in range, and every live cell in the wedge. */
  lemma WedgeFacts(cells: seq<Hex>, radius: int, numStates: int, draws: seq<CellDraw>,
                   used: int, drawOf: map<Hex, nat>, tri: Grid)
    requires radius >= -1 && cells == TriRegion(radius)
    requires ValidDraws(draws, numStates)
    requires forall h :: h in cells ==> h in drawOf
    requires PairDraws(cells, draws, used, drawOf.Keys, drawOf, tri)
    ensures forall h :: h in drawOf <==> h in cells
    ensures forall h {:trigger FlipHorz(h)} :: h in drawOf ==>
      FlipHorz(h) in drawOf && drawOf[FlipHorz(h)] == drawOf[h]
    ensures forall h :: h in drawOf ==> drawOf[h] < used
    ensures forall a, b :: a in drawOf && b in drawOf && drawOf[a] == drawOf[b] ==>
      a == b || Mirrored(a, b)
    ensures forall h :: h in tri <==> h in drawOf && draws[drawOf[h]].Live?
    ensures forall h :: h in tri ==> tri[h] == 1 + draws[drawOf[h]].pick
    ensures MirrorSymmetric(tri) && GridStates(tri, numStates)
    ensures forall h :: h in tri ==> InWedge(h, radius) && InSector(h)
  {
    forall h | h in tri ensures 1 <= tri[h] < numStates {
      assert draws[drawOf[h]] in draws;
    }
    forall h | h in tri ensures InWedge(h, radius) && InSector(h) {
      TriRegionMembers(radius, h);
    }
  }

  /** With every draw dead the wedge, and so the whole seed, stays empty. */
  lemma DeadDrawsEmptyWedge(draws: seq<CellDraw>, used: int, drawOf: map<Hex, nat>, tri: Grid)
    requires forall d :: d in draws ==> d.Dead?
    requires forall h :: h in drawOf ==> drawOf[h] < |draws|
    requires forall h :: h in tri <==> h in drawOf && draws[drawOf[h]].Live?
    ensures tri == map[]
  {
    assert forall h :: h in drawOf ==> draws[drawOf[h]] in draws;
  }

  // ---------------------------------------------------------------------
  // Merging the six rotations

  /** The grids of `gs` merged in order with `Union`, so that on a shared
      key the earliest grid's state is kept. */
  function UnionAll(gs: seq<Grid>): Grid
    decreases |gs|
  {
    if |gs| == 0 then map[] else Union(UnionAll(gs[..|gs| - 1]), gs[|gs| - 1])
  }

  /** Merging one more grid of the sequence. */
  lemma UnionAllNext(gs: seq<Grid>, i: int, i': int)
    requires 0 <= i < |gs| && i' == i + 1
    ensures UnionAll(gs[..i']) == Union(UnionAll(gs[..i]), gs[i])
  {
    assert gs[..i'][..i] == gs[..i];
  }

  /** Every key of the merge comes from some grid of the sequence, with that
      grid's state. */
  lemma {:induction false} UnionAllSource(gs: seq<Grid>, h: Hex) returns (i: int)
    requires h in UnionAll(gs)
    ensures 0 <= i < |gs| && h in gs[i] && UnionAll(gs)[h] == gs[i][h]
    decreases |gs|
  {
    var n := |gs| - 1;
    var init := gs[..n];
    if h in UnionAll(init) {
      i := UnionAllSource(init, h);
      assert init[i] == gs[i];
    } else {
      i := n;
    }
  }

  /** Every key of every grid of the sequence is a key of the merge. */
  lemma {:induction false} UnionAllContains(gs: seq<Grid>, i: int, h: Hex)
    requires 0 <= i < |gs| && h in gs[i]
    ensures h in UnionAll(gs)
    decreases |gs|
  {
    var n := |gs| - 1;
    if i < n {
      var init := gs[..n];
      assert init[i] == gs[i];
      UnionAllContains(init, i, h);
    }
  }

  /** The six rotations of the wedge, by 0..5 sixths of a turn. */
  function Rotations(tri: Grid): (gs: seq<Grid>)
    ensures |gs| == 6
    ensures forall i :: 0 <= i < 6 ==> gs[i] == RotateGrid(tri, i)
  {
    seq(6, i requires 0 <= i < 6 => RotateGrid(tri, i))
  }

  /** One round of the merging loop: absorbing rotation `i` extends the
      merge of the first `i` rotations to the first `i + 1`. */
  lemma SymmetrizeStep(tri: Grid, out: Grid, i: int)
    requires 0 <= i < 6 && out == UnionAll(Rotations(tri)[..i])
    ensures Union(out, RotateGrid(tri, i)) == UnionAll(Rotations(tri)[..i + 1])
  {
    UnionAllNext(Rotations(tri), i, i + 1);
  }

  /** The merging loop: `out` starts empty and absorbs rotation `i` of the
      wedge for i = 0..5. */
  method SymmetrizeWedge(tri: Grid) returns (out: Grid)
    ensures out == UnionAll(Rotations(tri))
  {
    out := map[];
    for i := 0 to 6
      invariant out == UnionAll(Rotations(tri)[..i])
    {
      SymmetrizeStep(tri, out, i);
      out := Union(out, RotateGrid(tri, i));
    }
    assert Rotations(tri)[..6] == Rotations(tri);
  }

  /** The cell of `tri` that rotation `n` moved onto `h`. */
  lemma RotatedFrom(tri: Grid, n: nat, h: Hex) returns (c: Hex)
    requires h in RotateGrid(tri, n)
    ensures c in tri && h == Rotate(c, n) && RotateGrid(tri, n)[h] == tri[c]
  {
    RotateGridEntries(tri, n);
    c :| c in tri && h == Rotate(c, n);
  }

  /** Every key of the merged seed is a rotation of a wedge cell, and its
      state is that cell's state. */
  lemma MergedSource(tri: Grid, h: Hex) returns (c: Hex, i: int)
    requires h in UnionAll(Rotations(tri))
    ensures c in tri && 0 <= i < 6 && h == Rotate(c, i)
    ensures UnionAll(Rotations(tri))[h] == tri[c]
  {
    var gs := Rotations(tri);
    i := UnionAllSource(gs, h);
    c := RotatedFrom(tri, i, h);
  }

  /** Every rotation of a wedge cell, by any number of sixths, is a key of
      the merged seed. */
  lemma RotationInMerged(tri: Grid, c: Hex, n: int)
    requires c in tri && n >= 0
    ensures Rotate(c, n) in UnionAll(Rotations(tri))
  {
    RotateMod6(c, n);
    var gs := Rotations(tri);
    var m := n % 6;
    RotateGridEntries(tri, m);
    assert Rotate(c, m) in gs[m];
    UnionAllContains(gs, m, Rotate(c, m));
  }

  function Min3(a: nat, b: nat, c: nat): nat {
    if a <= b && a <= c then a else if b <= c then b else c
  }

  /** The smallest absolute coordinate. */
  function MinAbs(h: Hex): nat {
    Min3(Abs(h.x), Abs(h.y), Abs(h.z))
  }

  lemma Min3Cycles(a: nat, b: nat, c: nat)
    ensures Min3(b, c, a) == Min3(a, b, c) && Min3(c, a, b) == Min3(a, b, c)
  {
  }

  /** A sixth of a turn permutes the coordinates cyclically and negates
      them, so it keeps the smallest absolute coordinate. */
  lemma TurnKeepsMinAbs(h: Hex)
    ensures MinAbs(Turn(h)) == MinAbs(h)
  {
    Min3Cycles(Abs(h.x), Abs(h.y), Abs(h.z));
  }

  /** Rotation keeps the smallest absolute coordinate (and, by
      `RotatePreserves`, the distance to the origin, which is the largest). */
  lemma {:induction false} RotateKeepsMinAbs(h: Hex, n: int)
    requires n >= 0
    ensures MinAbs(Rotate(h, n)) == MinAbs(h)
    decreases n
  {
    if n > 0 {
      RotateKeepsMinAbs(h, n - 1);
      TurnKeepsMinAbs(Rotate(h, n - 1));
    }
  }

  /** Two sector cells with the same distance to the origin and the same
      smallest absolute coordinate are equal or mirror images: a sector cell
      is (p, -(p + q), q) with p, q >= 0, its distance is p + q and its
      smallest absolute coordinate min(p, q). */
  lemma SectorOrbit(c: Hex, c2: Hex)
    requires InSector(c) && InSector(c2)
    requires Distance(c, Origin) == Distance(c2, Origin) && MinAbs(c) == MinAbs(c2)
    ensures c2 == c || c2 == FlipHorz(c)
  {
    DistanceFromOrigin(c);
    DistanceFromOrigin(c2);
  }

  /** Two wedge cells with a common rotation carry the same state: they are
      equal or mirror images. */
  lemma SameOrbitSameValue(tri: Grid, c: Hex, c2: Hex, i: int, j: int)
    requires MirrorSymmetric(tri) && forall h :: h in tri ==> InSector(h)
    requires c in tri && c2 in tri && i >= 0 && j >= 0
    requires Rotate(c2, j) == Rotate(c, i)
    ensures tri[c2] == tri[c]
  {
    RotatePreserves(c, c, i);
    RotatePreserves(c2, c2, j);
    RotateKeepsMinAbs(c, i);
    RotateKeepsMinAbs(c2, j);
    SectorOrbit(c, c2);
  }

  /** `out` holds every rotation of every cell of the wedge `tri`. */
  ghost predicate HoldsRotations(tri: Grid, out: Grid) {
    forall c, n {:trigger Rotate(c, n)} :: c in tri && n >= 0 ==> Rotate(c, n) in out
  }

  /** Every key of `out` is a rotation of a wedge cell by 0..5 sixths and
      carries that cell's state. */
  ghost predicate HasSources(tri: Grid, out: Grid) {
    forall h :: h in out ==>
      exists c, i :: c in tri && 0 <= i < 6 && h == Rotate(c, i) && out[h] == tri[c]
  }

  /** `src` names, for each key of `out`, such a wedge cell and rotation. */
  ghost predicate SourcedBy(tri: Grid, out: Grid, src: map<Hex, (Hex, int)>) {
    forall h :: h in out ==>
      h in src && src[h].0 in tri && 0 <= src[h].1 < 6 &&
      h == Rotate(src[h].0, src[h].1) && out[h] == tri[src[h].0]
  }

  /** `out` is generated from the wedge `tri` by rotations, `src` naming
      the source of each key. */
  ghost predicate GeneratedBy(tri: Grid, out: Grid, src: map<Hex, (Hex, int)>) {
    HoldsRotations(tri, out) && SourcedBy(tri, out, src)
  }

  /** Names a source cell and rotation for each key of a grid whose keys
      all have one. */
  lemma ChooseSources(tri: Grid, out: Grid) returns (src: map<Hex, (Hex, int)>)
    requires HasSources(tri, out)
    ensures SourcedBy(tri, out, src)
  {
    src := map h | h in out :: (var c, i :| c in tri && 0 <= i < 6 && h == Rotate(c, i) && out[h] == tri[c]; (c, i));
  }

  /** Every key of the merged seed has a source cell in the wedge. */
  lemma MergedKeysHaveSources(tri: Grid)
    ensures HasSources(tri, UnionAll(Rotations(tri)))
  {
    forall h | h in UnionAll(Rotations(tri))
      ensures exists c, i :: c in tri && 0 <= i < 6 && h == Rotate(c, i) && UnionAll(Rotations(tri))[h] == tri[c]
    {
      var c, i := MergedSource(tri, h);
    }
  }

  /** The merged seed holds every rotation of every wedge cell. */
  lemma MergedHasRotations(tri: Grid)
    ensures HoldsRotations(tri, UnionAll(Rotations(tri)))
  {
    forall c, n | c in tri && n >= 0 ensures Rotate(c, n) in UnionAll(Rotations(tri)) {
      RotationInMerged(tri, c, n);
    }
  }

  /** The merged seed is generated from the wedge by rotations. */
  lemma MergedIsGenerated(tri: Grid) returns (src: map<Hex, (Hex, int)>)
    ensures GeneratedBy(tri, UnionAll(Rotations(tri)), src)
  {
    MergedKeysHaveSources(tri);
    src := ChooseSources(tri, UnionAll(Rotations(tri)));
    MergedHasRotations(tri);
  }

  /** Two wedge cells whose rotations are a sixth of a turn apart carry the
      same state. */
  lemma TurnedSameValue(tri: Grid, c: Hex, i: int, c2: Hex, j: int)
    requires MirrorSymmetric(tri) && forall h :: h in tri ==> InSector(h)
    requires c in tri && c2 in tri && 0 <= i < 6 && j >= 0
    requires Rotate(c2, j) == Rotate(Rotate(c, i), 1)
    ensures tri[c2] == tri[c]
  {
    RotateCompose(c, i, 1);
    SameOrbitSameValue(tri, c, c2, i + 1, j);
  }

  /** Two wedge cells whose rotations are mirror images carry the same
      state. */
  lemma MirroredSameValue(tri: Grid, c: Hex, i: int, c2: Hex, j: int)
    requires MirrorSymmetric(tri) && forall h :: h in tri ==> InSector(h)
    requires c in tri && c2 in tri && 0 <= i < 6 && j >= 0
    requires Rotate(c2, j) == FlipHorz(Rotate(c, i))
    ensures tri[c2] == tri[c]
  {
    FlipRotate(c, i);
    SameOrbitSameValue(tri, FlipHorz(c), c2, 6 - i, j);
  }

  /** A sixth of a turn moves a key of a generated grid onto a key with
      the same state. */
  lemma GeneratedRotationStep(tri: Grid, out: Grid, src: map<Hex, (Hex, int)>, h: Hex)
    requires MirrorSymmetric(tri) && forall h :: h in tri ==> InSector(h)
    requires GeneratedBy(tri, out, src) && h in out
    ensures Rotate(h, 1) in out && out[Rotate(h, 1)] == out[h]
  {
    var c, i := src[h].0, src[h].1;
    RotateCompose(c, i, 1);
    var h' := Rotate(h, 1);
    assert h' == Rotate(c, i + 1);
    TurnedSameValue(tri, c, i, src[h'].0, src[h'].1);
  }

  /** The reflection moves a key of a generated grid onto a key with the
      same state. */
  lemma GeneratedMirrorStep(tri: Grid, out: Grid, src: map<Hex, (Hex, int)>, h: Hex)
    requires MirrorSymmetric(tri) && forall h :: h in tri ==> InSector(h)
    requires GeneratedBy(tri, out, src) && h in out
    ensures FlipHorz(h) in out && out[FlipHorz(h)] == out[h]
  {
    var c, i := src[h].0, src[h].1;
    FlipRotate(c, i);
    var h' := FlipHorz(h);
    assert h' == Rotate(FlipHorz(c), 6 - i);
    MirroredSameValue(tri, c, i, src[h'].0, src[h'].1);
  }

  /** A grid generated by rotations from a mirror-symmetric wedge is
      unchanged by a sixth of a turn and by the reflection, states
      included. */
  lemma GeneratedIsSymmetric(tri: Grid, out: Grid, src: map<Hex, (Hex, int)>)
    requires MirrorSymmetric(tri) && forall h :: h in tri ==> InSector(h)
    requires GeneratedBy(tri, out, src)
    ensures RotationSymmetric(out) && MirrorSymmetric(out)
  {
    assert RotationSymmetric(out) by {
      forall h | h in out ensures Rotate(h, 1) in out && out[Rotate(h, 1)] == out[h] {
        GeneratedRotationStep(tri, out, src, h);
      }
    }
    assert MirrorSymmetric(out) by {
      forall h | h in out ensures FlipHorz(h) in out && out[FlipHorz(h)] == out[h] {
        GeneratedMirrorStep(tri, out, src, h);
      }
    }
  }

  /** A grid generated by rotations keeps the wedge's states and its
      distance bound, lies on the lattice, and is empty when the wedge is. */
  lemma GeneratedBounds(tri: Grid, out: Grid, src: map<Hex, (Hex, int)>, numStates: int, radius: int)
    requires radius >= -1 && GeneratedBy(tri, out, src) && GridStates(tri, numStates)
    requires forall h :: h in tri ==> h in TriRegion(radius)
    ensures GridStates(out, numStates) && OnLattice(out)
    ensures forall h :: h in out ==> Distance(h, Origin) <= radius
    ensures tri == map[] ==> out == map[]
  {
    forall h | h in out ensures ZeroSum(h) && Distance(h, Origin) <= radius {
      var c, i := src[h].0, src[h].1;
      RotatePreserves(c, c, i);
      TriRegionMembers(radius, c);
      TriInHexRegion(radius, c);
      HexRegionIsDisk(radius, c);
    }
    if tri == map[] {
      assert forall h :: h !in out;
    }
  }

  // ---------------------------------------------------------------------
  // The whole seed

  /** The random initial grid for `numStates` states within `radius` of the
      origin, decided by `draws` (one per mirror pair of wedge cells, in
      wedge order). */
  method RandomInitialGrid(numStates: int, radius: int, draws: seq<CellDraw>)
    returns (out: Grid)
    requires radius >= -1
    requires |draws| >= |TriRegion(radius)|
    requires ValidDraws(draws, numStates)
    ensures RotationSymmetric(out) && MirrorSymmetric(out)
    ensures GridStates(out, numStates) && OnLattice(out)
    ensures forall h :: h in out ==> Distance(h, Origin) <= radius
    ensures (forall d :: d in draws ==> d.Dead?) ==> out == map[]
    ensures radius == -1 ==> out == map[]
  {
    var tri, used, drawOf := SeedWedge(numStates, radius, draws);
    out := SymmetrizeWedge(tri);
    ghost var src := MergedIsGenerated(tri);
    GeneratedIsSymmetric(tri, out, src);
    GeneratedBounds(tri, out, src, numStates, radius);
    if forall d :: d in draws ==> d.Dead? {
      DeadDrawsEmptyWedge(draws, used, drawOf, tri);
    }
  }
}
