/**
 * The integer side of scoring a grown snowflake: its radius, the cell
 * counts behind the airiness and cragginess ratios, the two reject gates of
 * the score, and the driver that runs the automaton for a fixed number of
 * generations before scoring.
 */
module Fitness {
  import opened Vec
  import opened HexGrid
  import opened Regions
  import opened StateTable
  import opened Automaton
  import opened Connectivity

  // ---------------------------------------------------------------------
  // max_radius

  lemma {:induction false} MaxExists(s: set<nat>)
    requires s != {}
    ensures exists m :: m in s && forall x :: x in s ==> x <= m
    decreases s
  {
    var x :| x in s;
    if s != {x} {
      MaxExists(s - {x});
      var m :| m in s - {x} && forall y :: y in s - {x} ==> y <= m;
      var top := if x > m then x else m;
      forall y | y in s ensures y <= top {
        if y != x {
          assert y in s - {x};
        }
      }
    } else {
      assert forall y :: y in s ==> y <= x;
    }
  }

  /** The largest member of a non-empty set of naturals. */
  function MaxOf(s: set<nat>): (m: nat)
    requires s != {}
    ensures m in s
    ensures forall x :: x in s ==> x <= m
  {
    MaxExists(s);
    var m :| m in s && forall x :: x in s ==> x <= m;
    m
  }

  /** 0 for the empty grid, otherwise the largest distance of a key from the
      origin. */
  function MaxRadius(g: Grid): (r: nat)
    ensures g == map[] ==> r == 0
    ensures forall h :: h in g ==> Distance(h, Origin) <= r
    ensures g != map[] ==> exists h :: h in g && Distance(h, Origin) == r
  {
    if g == map[] then 0
    else
      var k :| k in g;
      var ds := set h | h in g :: Distance(h, Origin);
      assert Distance(k, Origin) in ds;
      var m := MaxOf(ds);
      assert forall h :: h in g ==> Distance(h, Origin) in ds;
      m
  }

  /** On the lattice, the disk of radius `MaxRadius(g)` holds every key. */
  lemma KeysInMaxRadiusRegion(g: Grid)
    requires OnLattice(g)
    ensures forall h :: h in g ==> h in HexRegion(MaxRadius(g))
  {
    forall h | h in g ensures h in HexRegion(MaxRadius(g)) {
      HexRegionIsDisk(MaxRadius(g), h);
    }
  }

  /** No smaller disk holds every key. */
  lemma MaxRadiusIsLeast(g: Grid, r: int)
    requires OnLattice(g) && 0 <= r < MaxRadius(g)
    ensures exists h :: h in g && h !in HexRegion(r)
  {
    var h :| h in g && Distance(h, Origin) == MaxRadius(g);
    HexRegionIsDisk(r, h);
  }

  // ---------------------------------------------------------------------
  // The counters of snowflake_airiness

  /** Walks the disk of the given radius, counting its cells and those of
      them that are not live. */
  method AirinessCounts(g: Grid, radius: int) returns (total: int, air: int)
    requires radius >= 0
    ensures total == 3 * radius * radius + 3 * radius + 1
    ensures air == total - CountPresent(g, HexRegion(radius))
  {
    var region := HexRegion(radius);
    total, air := 0, 0;
    var i := 0;
    while i < |region|
      invariant 0 <= i <= |region|
      invariant total == i
      invariant air == i - CountPresent(g, region[..i])
    {
      assert region[..i + 1][..i] == region[..i];
      total := total + 1;
      air := air + if region[i] !in g then 1 else 0;
      i := i + 1;
    }
    assert region[..i] == region;
    HexRegionSize(radius);
  }

  /** At the grid's own radius every live cell lies in the disk, so the
      air count is the disk's size minus the number of live cells. */
  lemma AirAtMaxRadius(g: Grid)
    requires OnLattice(g)
    ensures var r := MaxRadius(g);
      |HexRegion(r)| - CountPresent(g, HexRegion(r)) == 3 * r * r + 3 * r + 1 - |g|
  {
    var r := MaxRadius(g);
    var region := HexRegion(r);
    KeysInMaxRadiusRegion(g);
    HexRegionSorted(r);
    HexRegionSize(r);
    CountPresentIsCard(g, region);
    LiveAmongCells(g, region);
  }

  lemma LiveAmongCells(g: Grid, cells: seq<Hex>)
    requires forall h :: h in g ==> h in cells
    ensures |set c | c in cells && c in g| == |g|
  {
    var live := set c | c in cells && c in g;
    assert live == g.Keys;
  }

  // ---------------------------------------------------------------------
  // The counters of snowflake_cragginess

  /** The live direct neighbours of `h`. */
  function LiveNeighbors(g: Grid, h: Hex): (s: set<Hex>)
    ensures forall c :: c in s <==> c in Neighbors(h, false) && c in g
  {
    set c | c in Neighbors(h, false) && c in g
  }

  /** The live direct neighbours number `NeighborCount`, at most six. */
  lemma LiveNeighborsCount(g: Grid, h: Hex)
    ensures |LiveNeighbors(g, h)| == NeighborCount(g, h) <= 6
  {
    NeighborCountRange(g, h);
    assert LiveNeighbors(g, h) == set c | c in Neighbors(h, false) && c in g;
  }

  /** A dead active cell is craggy when at least three of its direct
      neighbours are live and those neighbours form one directly connected
      group. */
  ghost predicate Craggy(g: Grid, h: Hex) {
    NeighborCount(g, h) >= 3 && Connected(LiveNeighbors(g, h), false)
  }

  /** The dead active cells: the periphery of the live cells. */
  function Periphery(g: Grid): (p: set<Hex>)
    ensures forall h :: h in p <==> h in ActiveCells(g) && h !in g
  {
    ActiveCells(g) - g.Keys
  }

  /** The periphery is the set of dead cells with at least one live direct
      neighbour. */
  lemma PeripheryIsDeadBorder(g: Grid, h: Hex)
    ensures h in Periphery(g) <==> h !in g && NeighborCount(g, h) >= 1
  {
    ActiveIffLiveOrLiveNeighbor(g, h);
  }

  /** Visits the active cells in an unspecified order, counting the dead
      ones and, among them, the craggy ones. */
  method CragginessCounts(g: Grid) returns (periphery: int, high: int)
    ensures periphery == |Periphery(g)|
    ensures high == |set h | h in Periphery(g) && Craggy(g, h)|
    ensures 0 <= high <= periphery
  {
    var todo := ActiveCells(g);
    ghost var active := todo;
    ghost var peri: set<Hex> := {};
    ghost var crag: set<Hex> := {};
    periphery, high := 0, 0;
    while todo != {}
      invariant Tally(g, active, todo, peri, crag)
      invariant periphery == |peri| && high == |crag|
      decreases |todo|
    {
      var hex :| hex in todo;
      if hex in g {
        TallyLive(g, active, todo, peri, crag, hex);
        todo := todo - {hex};
        continue;
      }
      var craggy := false;
      if NeighborCount(g, hex) >= 3 {
        var neighborSet := LiveNeighbors(g, hex);
        craggy := IsConnected(neighborSet, false);
      }
      TallyDead(g, active, todo, peri, crag, hex, craggy);
      todo := todo - {hex};
      peri := peri + {hex};
      periphery := periphery + 1;
      if craggy {
        crag := crag + {hex};
        high := high + 1;
      }
    }
    TallyDone(g, active, peri, crag);
  }

  /** The bookkeeping of the cragginess walk: `peri` holds the dead cells
      among those already visited, `crag` the craggy ones among them. */
  ghost predicate Tally(g: Grid, active: set<Hex>, todo: set<Hex>, peri: set<Hex>, crag: set<Hex>) {
    todo <= active &&
    peri == (active - todo) - g.Keys &&
    crag <= peri &&
    forall h :: h in peri ==> (h in crag <==> Craggy(g, h))
  }

  lemma TallyLive(g: Grid, active: set<Hex>, todo: set<Hex>, peri: set<Hex>, crag: set<Hex>, hex: Hex)
    requires Tally(g, active, todo, peri, crag) && hex in todo && hex in g
    ensures Tally(g, active, todo - {hex}, peri, crag)
  {
    assert (active - (todo - {hex})) - g.Keys == (active - todo) - g.Keys;
  }

  lemma TallyDead(g: Grid, active: set<Hex>, todo: set<Hex>, peri: set<Hex>, crag: set<Hex>,
                  hex: Hex, craggy: bool)
    requires Tally(g, active, todo, peri, crag) && hex in todo && hex !in g
    requires craggy <==> Craggy(g, hex)
    ensures Tally(g, active, todo - {hex}, peri + {hex}, if craggy then crag + {hex} else crag)
    ensures |peri + {hex}| == |peri| + 1
    ensures craggy ==> |crag + {hex}| == |crag| + 1
  {
    assert hex !in peri && hex !in crag;
    var peri' := peri + {hex};
    var crag' := if craggy then crag + {hex} else crag;
    assert (active - (todo - {hex})) - g.Keys == peri' by {
      DeadVisited(active, todo, g.Keys, hex);
    }
    ClassifiedAdd(g, peri, crag, hex, craggy);
  }

  /** Adding a dead cell, with its verdict, keeps every counted cell's
      verdict right. */
  lemma ClassifiedAdd(g: Grid, peri: set<Hex>, crag: set<Hex>, hex: Hex, craggy: bool)
    requires forall h :: h in peri ==> (h in crag <==> Craggy(g, h))
    requires hex !in crag && (craggy <==> Craggy(g, hex))
    ensures forall h :: h in peri + {hex} ==>
      (h in (if craggy then crag + {hex} else crag) <==> Craggy(g, h))
  {
    var crag' := if craggy then crag + {hex} else crag;
    forall h | h in peri + {hex} ensures h in crag' <==> Craggy(g, h) {
      if h != hex {
        assert h in peri;
        assert h in crag' <==> h in crag;
      }
    }
  }

  lemma DeadVisited(active: set<Hex>, todo: set<Hex>, live: set<Hex>, hex: Hex)
    requires todo <= active && hex in todo && hex !in live
    ensures (active - (todo - {hex})) - live == ((active - todo) - live) + {hex}
  {
  }

  lemma TallyDone(g: Grid, active: set<Hex>, peri: set<Hex>, crag: set<Hex>)
    requires Tally(g, active, {}, peri, crag) && active == ActiveCells(g)
    ensures |peri| == |Periphery(g)|
    ensures |crag| == |set h | h in Periphery(g) && Craggy(g, h)|
    ensures |crag| <= |peri|
  {
    assert peri == Periphery(g);
    SubsetSize(crag, peri);
    CraggySubset(g, peri, crag);
  }

  lemma CraggySubset(g: Grid, peri: set<Hex>, crag: set<Hex>)
    requires crag <= peri
    requires forall h :: h in peri ==> (h in crag <==> Craggy(g, h))
    ensures crag == set h | h in peri && Craggy(g, h)
  {
  }

  /** A zero-sum cell always has a direct neighbour one step further from
      the origin: move along the coordinate of largest magnitude. */
  lemma OutwardNeighbor(h: Hex) returns (i: int)
    requires ZeroSum(h)
    ensures 0 <= i < 6
    ensures Distance(Neighbors(h, false)[i], Origin) == Distance(h, Origin) + 1
  {
    var d := Max3(Abs(h.x), Abs(h.y), Abs(h.z));
    if Abs(h.x) == d {
      i := if h.x >= 0 then 0 else 3;
    } else if Abs(h.y) == d {
      i := if h.y >= 0 then 4 else 1;
    } else {
      i := if h.z >= 0 then 2 else 5;
    }
    var o := DirectOffsets[i];
    OutwardMax(h, o, d);
    assert Neighbors(h, false)[i] == Add(h, o);
    DistanceFromOrigin(h);
    DistanceFromOrigin(Add(h, o));
  }

  /** Adding the chosen offset grows the largest absolute coordinate by one:
      it moves that coordinate away from zero and the other two by at most
      one towards it. */
  lemma OutwardMax(h: Hex, o: Vec3, d: nat)
    requires ZeroSum(h) && d == Max3(Abs(h.x), Abs(h.y), Abs(h.z))
    requires Abs(h.x) == d ==> o == (if h.x >= 0 then Vec3(1, 0, -1) else Vec3(-1, 0, 1))
    requires Abs(h.x) != d && Abs(h.y) == d ==> o == (if h.y >= 0 then Vec3(-1, 1, 0) else Vec3(1, -1, 0))
    requires Abs(h.x) != d && Abs(h.y) != d ==> o == (if h.z >= 0 then Vec3(0, -1, 1) else Vec3(0, 1, -1))
    ensures ZeroSum(Add(h, o))
    ensures Max3(Abs(Add(h, o).x), Abs(Add(h, o).y), Abs(Add(h, o).z)) == d + 1
  {
  }

  /** A non-empty lattice grid always has a dead active cell, so the
      cragginess ratio never divides by zero for it; the empty grid has none. */
  lemma PeripheryNonEmpty(g: Grid)
    requires OnLattice(g)
    ensures |Periphery(g)| > 0 <==> g != map[]
  {
    if g != map[] {
      var k :| k in g && Distance(k, Origin) == MaxRadius(g);
      var i := OutwardNeighbor(k);
      var n := Neighbors(k, false)[i];
      NeighborIsActive(g, k, n);
      assert Distance(n, Origin) > MaxRadius(g);
      assert n in Periphery(g);
    } else {
      assert Periphery(g) == {};
    }
  }

  // ---------------------------------------------------------------------
  // The reject gates of score_snowflake

  datatype Connectedness = Direct | ViaDiagonals

  /** How far a grid gets through the integer gates of the score: rejected
      as disconnected, rejected by its radius, or passed with its
      connectedness grade and radius. */
  datatype Verdict = NotConnected | RadiusOutOfBounds | Passed(connectedness: Connectedness, radius: nat)

  /** Direct connectivity first, then connectivity with diagonals, then the
      radius bounds. */
  method ScoreGates(g: Grid, minRadius: int, maxRadius: int) returns (v: Verdict)
    ensures v == NotConnected <==> !Connected(g.Keys, true)
    ensures v == RadiusOutOfBounds <==>
      Connected(g.Keys, true) && !(minRadius <= MaxRadius(g) <= maxRadius)
    ensures v.Passed? ==>
      v.radius == MaxRadius(g) && minRadius <= v.radius <= maxRadius &&
      (v.connectedness == Direct <==> Connected(g.Keys, false))
  {
    var grade: Connectedness;
    var direct := IsConnected(g.Keys, false);
    if direct {
      DirectImpliesDiagonal(g.Keys);
      grade := Direct;
    } else {
      var diagonal := IsConnected(g.Keys, true);
      if !diagonal {
        return NotConnected;
      }
      grade := ViaDiagonals;
    }
    var radius := MaxRadius(g);
    if radius < minRadius || radius > maxRadius {
      return RadiusOutOfBounds;
    }
    return Passed(grade, radius);
  }

  /** Two live cells at distance 3 or more are rejected by the first gate. */
  lemma FarPairRejected(a: Hex, b: Hex, va: int, vb: int)
    requires Distance(a, b) >= 3
    ensures !Connected(map[a := va, b := vb].Keys, true)
  {
    assert map[a := va, b := vb].Keys == {a, b};
    FarPairNotConnected(a, b);
  }

  // ---------------------------------------------------------------------
  // generate_snowflake

  /** Runs `numIterations` generations (none when it is not positive) and
      scores the result. */
  method GenerateSnowflake(init: Grid, tbl: StateTable, numStates: int, numIterations: int,
                           minRadius: int, maxRadius: int)
    returns (state: Grid, verdict: Verdict)
    requires TableShape(tbl, numStates) && GridStates(init, numStates)
    ensures state == Iterate(init, tbl, numStates, if numIterations > 0 then numIterations else 0)
    ensures GridStates(state, numStates)
    ensures verdict == NotConnected <==> !Connected(state.Keys, true)
    ensures verdict == RadiusOutOfBounds <==>
      Connected(state.Keys, true) && !(minRadius <= MaxRadius(state) <= maxRadius)
    ensures verdict.Passed? ==>
      verdict.radius == MaxRadius(state) && minRadius <= verdict.radius <= maxRadius &&
      (verdict.connectedness == Direct <==> Connected(state.Keys, false))
  {
    var rounds := if numIterations > 0 then numIterations else 0;
    state := init;
    for i := 0 to rounds
      invariant state == Iterate(init, tbl, numStates, i)
    {
      IterateUnfold(init, tbl, numStates, i + 1);
      state := DoStep(state, tbl);
    }
    verdict := ScoreGates(state, minRadius, maxRadius);
  }

  /** Growing from the empty grid yields the empty grid, which passes the
      connectivity gate and has radius 0. */
  lemma EmptySeedStaysEmpty(tbl: StateTable, numStates: int, k: nat)
    requires TableShape(tbl, numStates)
    ensures Iterate(map[], tbl, numStates, k) == map[]
    ensures Connected(Iterate(map[], tbl, numStates, k).Keys, true)
    ensures MaxRadius(Iterate(map[], tbl, numStates, k)) == 0
  {
    IterateEmpty(map[], tbl, numStates, k);
    EmptyIsConnected(true);
  }
}
