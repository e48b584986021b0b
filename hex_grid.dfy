/**
 * Cube-coordinate hexagonal geometry: neighbour enumeration, rotation by
 * sixths of a turn, horizontal reflection, first-wins grid union and hex
 * distance. A grid is a sparse map from cell to state; a missing key is
 * state 0.
 */
module HexGrid {
  import opened Vec

  type Hex = Vec3
  type Grid = map<Hex, int>

  const Origin: Hex := Zero

  /** The six direct offsets, in the fixed order neighbours are produced. */
  const DirectOffsets: seq<Hex> := [
    Vec3(1, 0, -1), Vec3(1, -1, 0), Vec3(0, -1, 1),
    Vec3(-1, 0, 1), Vec3(-1, 1, 0), Vec3(0, 1, -1)
  ]

  /** The direct offsets followed by the six "diagonal" offsets. */
  const OffsetsWithDiagonals: seq<Hex> := [
    Vec3(1, 0, -1), Vec3(1, -1, 0), Vec3(0, -1, 1),
    Vec3(-1, 0, 1), Vec3(-1, 1, 0), Vec3(0, 1, -1),
    Vec3(2, -1, -1), Vec3(1, -2, 1), Vec3(-1, -1, 2),
    Vec3(-2, 1, 1), Vec3(-1, 2, -1), Vec3(1, 1, -2)
  ]

  function Offsets(withDiagonals: bool): seq<Hex> {
    if withDiagonals then OffsetsWithDiagonals else DirectOffsets
  }

  predicate Distinct<T(==)>(s: seq<T>) {
    forall i, j :: 0 <= i < j < |s| ==> s[i] != s[j]
  }

  /** Lattice cells: every key of the grid is a zero-sum triple. */
  predicate OnLattice(g: Grid) {
    forall h :: h in g ==> ZeroSum(h)
  }

  /** The neighbours of `hex`: 6 direct ones, or 12 with the diagonals. */
  function Neighbors(hex: Hex, withDiagonals: bool): (r: seq<Hex>)
    ensures |r| == if withDiagonals then 12 else 6
  {
    var offsets := Offsets(withDiagonals);
    seq(|offsets|, i requires 0 <= i < |offsets| => Add(hex, offsets[i]))
  }

  /** Sum of the absolute coordinates. */
  function Norm(d: Vec3): nat {
    Abs(d.x) + Abs(d.y) + Abs(d.z)
  }

  /** Hex distance: half the sum of the absolute coordinate differences. */
  function Distance(a: Hex, b: Hex): nat {
    Norm(Sub(a, b)) / 2
  }

  function Max3(a: nat, b: nat, c: nat): nat {
    if a >= b && a >= c then a else if b >= c then b else c
  }

  /** A sixth of a turn: (x, y, z) becomes (-y, -z, -x). */
  function Turn(hex: Hex): Hex {
    Vec3(-hex.y, -hex.z, -hex.x)
  }

  /** Rotation by `n` sixths of a turn, one sixth at a time. For every `n`
      it equals the closed form `RotateFormula` (`RotateAgreesWithFormula`). */
  function Rotate(hex: Hex, n: int): Hex
    requires n >= 0
    decreases n
  {
    if n == 0 then hex else Turn(Rotate(hex, n - 1))
  }

  /** Rotation by `n` sixths in closed form: a cyclic permutation of the
      coordinates by `n` places, negated on odd `n`. Negative `n` would
      index outside the three-element array, hence the precondition. */
  function RotateFormula(hex: Hex, n: int): Hex
    requires n >= 0
  {
    var sign := if n % 2 == 0 then 1 else -1;
    var ary := [hex.x, hex.y, hex.z];
    Vec3(sign * ary[(0 + n) % 3], sign * ary[(1 + n) % 3], sign * ary[(2 + n) % 3])
  }

  /** Reflection across the vertical axis: x and z swap places. */
  function FlipHorz(hex: Hex): Hex {
    Vec3(hex.z, hex.y, hex.x)
  }

  /** Every key moved through `Rotate(_, n)`, values kept (see
      `RotateGridEntries`). */
  function RotateGrid(g: Grid, n: int): Grid
    requires n >= 0
  {
    RotateInjective(n);
    map h | h in g :: Rotate(h, n) := g[h]
  }

  /** The rotated grid holds exactly the rotated cells, with their states. */
  lemma RotateGridEntries(g: Grid, n: int)
    requires n >= 0
    ensures forall h :: h in g ==> Rotate(h, n) in RotateGrid(g, n) && RotateGrid(g, n)[Rotate(h, n)] == g[h]
    ensures forall k :: k in RotateGrid(g, n) ==> exists h :: h in g && k == Rotate(h, n)
  {
    RotateInjective(n);
  }

  /** Every key moved through `FlipHorz`, values kept. */
  function FlipGrid(g: Grid): (r: Grid)
    ensures forall h :: h in g ==> FlipHorz(h) in r && r[FlipHorz(h)] == g[h]
    ensures forall k :: k in r ==> FlipHorz(k) in g && g[FlipHorz(k)] == r[k]
  {
    map h | h in g :: FlipHorz(h) := g[h]
  }

  /** Both grids copied into a fresh map by inserts that never overwrite:
      on a shared key the FIRST grid's value is kept. */
  function Union(g1: Grid, g2: Grid): (r: Grid)
    ensures r.Keys == g1.Keys + g2.Keys
    ensures forall k :: k in g1 ==> r[k] == g1[k]
    ensures forall k :: k in g2 && k !in g1 ==> r[k] == g2[k]
  {
    g2 + g1
  }

  // ---------------------------------------------------------------------
  // Helpers

  /** A set that an injective map carries onto another has the same size. */
  lemma {:induction false} InjectiveImageCard(s: set<Hex>, t: set<Hex>, f: Hex -> Hex)
    requires forall a, b :: f(a) == f(b) ==> a == b
    requires forall h :: h in s ==> f(h) in t
    requires forall k :: k in t ==> exists h :: h in s && f(h) == k
    ensures |t| == |s|
    decreases s
  {
    if s == {} {
      assert forall k :: k !in t;
      assert t == {};
    } else {
      var x :| x in s;
      InjectiveImageCard(s - {x}, t - {f(x)}, f);
    }
  }

  /** On the lattice, the coordinate sum of absolute values is twice the
      largest absolute coordinate. */
  lemma NormIsTwiceMax(d: Vec3)
    requires ZeroSum(d)
    ensures Norm(d) == 2 * Max3(Abs(d.x), Abs(d.y), Abs(d.z))
  {
  }

  // ---------------------------------------------------------------------
  // Neighbours

  /** Each neighbour list holds 12 (or 6) distinct cells. */
  lemma NeighborsDistinct(hex: Hex, withDiagonals: bool)
    ensures Distinct(Neighbors(hex, withDiagonals))
  {
    var ns := Neighbors(hex, withDiagonals);
    var offs := Offsets(withDiagonals);
    forall i, j | 0 <= i < j < |ns| ensures ns[i] != ns[j] {
      assert Sub(ns[i], hex) == offs[i] && Sub(ns[j], hex) == offs[j];
    }
  }

  /** The first six neighbours with diagonals are the direct ones, in order. */
  lemma DirectNeighborsFirst(hex: Hex)
    ensures Neighbors(hex, true)[..6] == Neighbors(hex, false)
  {
  }

  /** Direct neighbours are at distance 1, diagonal ones at distance 2; on the
      lattice, all of them are lattice cells. */
  lemma NeighborDistances(hex: Hex, withDiagonals: bool, i: int)
    requires 0 <= i < |Neighbors(hex, withDiagonals)|
    ensures Distance(hex, Neighbors(hex, withDiagonals)[i]) == if i < 6 then 1 else 2
    ensures ZeroSum(hex) ==> ZeroSum(Neighbors(hex, withDiagonals)[i])
  {
    var offs := Offsets(withDiagonals);
    assert offs[i] in OffsetsWithDiagonals;
    assert Sub(hex, Neighbors(hex, withDiagonals)[i]) == Scale(-1, offs[i]);
  }

  /** On the lattice, the direct neighbours are exactly the cells at
      distance 1. */
  lemma DirectNeighborsAreUnitDistance(hex: Hex, c: Hex)
    requires ZeroSum(hex) && ZeroSum(c)
    ensures c in Neighbors(hex, false) <==> Distance(hex, c) == 1
  {
    var ns := Neighbors(hex, false);
    if c in ns {
      var i :| 0 <= i < 6 && ns[i] == c;
      NeighborDistances(hex, false, i);
    }
    if Distance(hex, c) == 1 {
      var d := Sub(c, hex);
      assert Norm(d) == 2;
      assert d in DirectOffsets;
      var i :| 0 <= i < 6 && DirectOffsets[i] == d;
      assert ns[i] == c;
    }
  }

  /** The offset lists are closed under negation, so adjacency is symmetric. */
  lemma NeighborsSymmetric(a: Hex, b: Hex, withDiagonals: bool)
    requires b in Neighbors(a, withDiagonals)
    ensures a in Neighbors(b, withDiagonals)
  {
    var ns := Neighbors(a, withDiagonals);
    var i :| 0 <= i < |ns| && ns[i] == b;
    var opposite := OppositeOffset(withDiagonals, i);
    assert Neighbors(b, withDiagonals)[opposite] == a;
  }

  /** Each offset's negation sits three places further round its ring of
      six. */
  lemma OppositeOffset(withDiagonals: bool, i: int) returns (j: int)
    requires 0 <= i < |Offsets(withDiagonals)|
    ensures 0 <= j < |Offsets(withDiagonals)|
    ensures Offsets(withDiagonals)[j] == Scale(-1, Offsets(withDiagonals)[i])
  {
    j := if i < 3 || 6 <= i < 9 then i + 3 else i - 3;
  }

  /** A direct neighbour is also a neighbour once diagonals are included. */
  lemma DirectNeighborIsNeighbor(a: Hex, b: Hex)
    requires b in Neighbors(a, false)
    ensures b in Neighbors(a, true)
  {
    DirectNeighborsFirst(a);
    var i :| 0 <= i < 6 && Neighbors(a, false)[i] == b;
    assert Neighbors(a, true)[i] == b;
  }

  // ---------------------------------------------------------------------
  // Distance

  lemma DistanceSelf(a: Hex)
    ensures Distance(a, a) == 0
  {
  }

  lemma DistanceSymmetric(a: Hex, b: Hex)
    ensures Distance(a, b) == Distance(b, a)
  {
  }

  /** On the lattice the sum of absolute differences is even, so the halving
      in `Distance` is exact. */
  lemma DistanceExact(a: Hex, b: Hex)
    requires ZeroSum(a) && ZeroSum(b)
    ensures 2 * Distance(a, b) == Norm(Sub(a, b))
  {
    NormIsTwiceMax(Sub(a, b));
  }

  lemma NormTriangle(u: Vec3, v: Vec3)
    ensures Norm(Add(u, v)) <= Norm(u) + Norm(v)
  {
  }

  lemma DistanceTriangle(a: Hex, b: Hex, c: Hex)
    requires ZeroSum(a) && ZeroSum(b) && ZeroSum(c)
    ensures Distance(a, c) <= Distance(a, b) + Distance(b, c)
  {
    DistanceExact(a, b);
    DistanceExact(b, c);
    DistanceExact(a, c);
    NormTriangle(Sub(a, b), Sub(b, c));
    assert Add(Sub(a, b), Sub(b, c)) == Sub(a, c);
  }

  /** On the lattice, distance from the origin is the largest absolute
      coordinate. */
  lemma DistanceFromOrigin(h: Hex)
    requires ZeroSum(h)
    ensures Distance(h, Origin) == Max3(Abs(h.x), Abs(h.y), Abs(h.z))
  {
    DistanceExact(h, Origin);
    NormIsTwiceMax(h);
  }

  // ---------------------------------------------------------------------
  // Rotation

  /** The six rotations written out coordinate by coordinate: an independent
      reference for the index arithmetic of `Rotate`. */
  function RotationTable(h: Hex, m: int): Hex
    requires 0 <= m < 6
  {
    match m
    case 0 => h
    case 1 => Vec3(-h.y, -h.z, -h.x)
    case 2 => Vec3(h.z, h.x, h.y)
    case 3 => Vec3(-h.x, -h.y, -h.z)
    case 4 => Vec3(h.y, h.z, h.x)
    case _ => Vec3(-h.z, -h.x, -h.y)
  }

  /** One more sixth in the closed form is one more `Turn`: the sign flips
      and the coordinates shift by one place. */
  lemma FormulaStep(h: Hex, n: int)
    requires n >= 1
    ensures RotateFormula(h, n) == Turn(RotateFormula(h, n - 1))
  {
    assert n % 2 == 1 - (n - 1) % 2;
    assert (2 + n) % 3 == (0 + (n - 1)) % 3;
  }

  /** The first six step-by-step rotations are the table entries. */
  lemma RotateSmall(h: Hex)
    ensures forall n :: 0 <= n < 6 ==> Rotate(h, n) == RotationTable(h, n)
  {
    assert Rotate(h, 1) == RotationTable(h, 1);
    assert Rotate(h, 2) == RotationTable(h, 2);
    assert Rotate(h, 3) == RotationTable(h, 3);
    assert Rotate(h, 4) == RotationTable(h, 4);
    assert Rotate(h, 5) == RotationTable(h, 5);
  }

  /** Six sixths come back to the start. */
  lemma RotateFullTurn(h: Hex)
    ensures Rotate(h, 6) == h
  {
    RotateSmall(h);
    assert Rotate(h, 6) == Turn(Rotate(h, 5));
  }

  /** Rotations compose additively: the sixths act as a group. */
  lemma {:induction false} RotateCompose(h: Hex, m: int, n: int)
    requires m >= 0 && n >= 0
    ensures Rotate(Rotate(h, m), n) == Rotate(h, m + n)
    decreases n
  {
    if n > 0 {
      RotateCompose(h, m, n - 1);
    }
  }

  /** Dropping a full turn keeps the residue modulo 6. */
  lemma DropTurn(n: int)
    requires n >= 6
    ensures (n - 6) % 6 == n % 6
  {
    assert n == 6 * ((n - 6) / 6 + 1) + (n - 6) % 6;
  }

  /** Rotation depends only on the number of sixths modulo 6; a full turn is
      the identity. */
  lemma {:induction false} RotateMod6(h: Hex, n: int)
    requires n >= 0
    ensures Rotate(h, n) == Rotate(h, n % 6)
    ensures Rotate(h, 6) == h
    decreases n
  {
    RotateFullTurn(h);
    if n >= 6 {
      RotateMod6(h, n - 6);
      RotateCompose(h, n - 6, 6);
      RotateFullTurn(Rotate(h, n - 6));
      DropTurn(n);
      assert Rotate(h, n) == Rotate(h, n - 6);
    } else {
      assert n % 6 == n;
    }
  }

  /** `Rotate(h, n)` is the table entry for `n % 6`. */
  lemma RotateMatchesTable(h: Hex, n: int)
    requires n >= 0
    ensures Rotate(h, n) == RotationTable(h, n % 6)
  {
    RotateMod6(h, n);
    RotateSmall(h);
    assert 0 <= n % 6 < 6;
  }

  /** The step-by-step rotation and the closed form agree for every number of
      sixths. */
  lemma {:induction false} RotateAgreesWithFormula(h: Hex, n: int)
    requires n >= 0
    ensures Rotate(h, n) == RotateFormula(h, n)
    decreases n
  {
    if n == 0 {
      FormulaZero(h);
    } else {
      RotateAgreesWithFormula(h, n - 1);
      AgreementStep(h, n);
    }
  }

  lemma FormulaZero(h: Hex)
    ensures RotateFormula(h, 0) == h
  {
  }

  lemma AgreementStep(h: Hex, n: int)
    requires n >= 1 && Rotate(h, n - 1) == RotateFormula(h, n - 1)
    ensures Rotate(h, n) == RotateFormula(h, n)
  {
    FormulaStep(h, n);
    assert Rotate(h, n) == Turn(Rotate(h, n - 1));
  }

  /** A sixth of a turn keeps lattice cells on the lattice and keeps
      distances. */
  lemma TurnPreserves(a: Hex, b: Hex)
    ensures ZeroSum(a) ==> ZeroSum(Turn(a))
    ensures Distance(Turn(a), Turn(b)) == Distance(a, b)
  {
    assert Norm(Sub(Turn(a), Turn(b))) == Norm(Sub(a, b));
  }

  /** Rotation keeps lattice cells on the lattice. */
  lemma {:induction false} RotateOnLattice(a: Hex, n: int)
    requires n >= 0
    ensures ZeroSum(a) ==> ZeroSum(Rotate(a, n))
    decreases n
  {
    if n > 0 {
      RotateOnLattice(a, n - 1);
    }
  }

  /** The origin is the centre of every rotation. */
  lemma {:induction false} RotateFixesOrigin(n: int)
    requires n >= 0
    ensures Rotate(Origin, n) == Origin
    decreases n
  {
    if n > 0 {
      RotateFixesOrigin(n - 1);
    }
  }

  /** Rotation keeps distances. */
  lemma {:induction false} RotateKeepsDistance(a: Hex, b: Hex, n: int)
    requires n >= 0
    ensures Distance(Rotate(a, n), Rotate(b, n)) == Distance(a, b)
    decreases n
  {
    if n > 0 {
      RotateKeepsDistance(a, b, n - 1);
      TurnPreserves(Rotate(a, n - 1), Rotate(b, n - 1));
    }
  }

  /** Rotation keeps lattice cells on the lattice and keeps distances, in
      particular the distance from the origin. */
  lemma RotatePreserves(a: Hex, b: Hex, n: int)
    requires n >= 0
    ensures ZeroSum(a) ==> ZeroSum(Rotate(a, n))
    ensures Distance(Rotate(a, n), Rotate(b, n)) == Distance(a, b)
    ensures Distance(Rotate(a, n), Origin) == Distance(a, Origin)
  {
    RotateOnLattice(a, n);
    RotateKeepsDistance(a, b, n);
    RotateKeepsDistance(a, Origin, n);
    RotateFixesOrigin(n);
  }

  /** Rotating by `n` and then by the rest of a full turn is the identity. */
  lemma RotateUndo(h: Hex, n: int)
    requires n >= 0
    ensures Rotate(Rotate(h, n), 6 - n % 6) == h
  {
    var k := n + (6 - n % 6);
    RotateCompose(h, n, 6 - n % 6);
    FullTurns(n);
    RotateMod6(h, k);
    assert Rotate(h, k) == Rotate(h, 0);
  }

  /** Topping `n` up by the rest of a full turn gives whole turns. */
  lemma FullTurns(n: int)
    requires n >= 0
    ensures (n + (6 - n % 6)) % 6 == 0
  {
    assert n + (6 - n % 6) == 6 * (n / 6 + 1);
  }

  /** No two cells rotate onto the same cell. */
  lemma RotateInjective(n: int)
    requires n >= 0
    ensures forall a, b :: Rotate(a, n) == Rotate(b, n) ==> a == b
  {
    forall a, b | Rotate(a, n) == Rotate(b, n) ensures a == b {
      RotateUndo(a, n);
      RotateUndo(b, n);
    }
  }

  /** Reflection is its own inverse and keeps lattice cells and their
      distances. */
  lemma FlipInvolution(a: Hex, b: Hex)
    ensures FlipHorz(FlipHorz(a)) == a
    ensures ZeroSum(a) ==> ZeroSum(FlipHorz(a))
    ensures Distance(FlipHorz(a), FlipHorz(b)) == Distance(a, b)
  {
  }

  lemma FlipTable(h: Hex, m: int)
    requires 0 < m < 6
    ensures FlipHorz(RotationTable(h, m)) == RotationTable(FlipHorz(h), 6 - m)
  {
  }

  /** Reflection reverses the direction of rotation. */
  lemma FlipRotate(h: Hex, n: int)
    requires 0 <= n <= 6
    ensures FlipHorz(Rotate(h, n)) == Rotate(FlipHorz(h), 6 - n)
  {
    var f := FlipHorz(h);
    RotateFullTurn(h);
    RotateFullTurn(f);
    if 0 < n < 6 {
      RotateSmall(h);
      RotateSmall(f);
      FlipTable(h, n);
    }
  }

  // ---------------------------------------------------------------------
  // Grids

  lemma UnionIdentity(g: Grid)
    ensures Union(g, map[]) == g && Union(map[], g) == g
  {
  }

  /** Rotating a grid keeps its number of cells. */
  lemma RotateGridSize(g: Grid, n: int)
    requires n >= 0
    ensures |RotateGrid(g, n)| == |g|
  {
    RotateInjective(n);
    RotateGridEntries(g, n);
    InjectiveImageCard(g.Keys, RotateGrid(g, n).Keys, h => Rotate(h, n));
  }

  /** Reflecting a grid keeps its number of cells. */
  lemma FlipGridSize(g: Grid)
    ensures |FlipGrid(g)| == |g|
  {
    forall a, b | FlipHorz(a) == FlipHorz(b) ensures a == b {
      FlipInvolution(a, b);
      FlipInvolution(b, a);
    }
    InjectiveImageCard(g.Keys, FlipGrid(g).Keys, FlipHorz);
  }

  lemma FlipGridInvolution(g: Grid)
    ensures FlipGrid(FlipGrid(g)) == g
  {
  }
}
