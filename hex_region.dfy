/**
 * The two cell enumerations used for seeding and scoring: the hexagonal
 * disk `HexRegion(r)` (every zero-sum triple in the cube [-r, r]^3, in
 * lexicographic order of the three nested loops) and the wedge
 * `TriRegion(r)` (a twelfth of that disk, one of the six sectors cut in half
 * by its mirror axis).
 */
module Regions {
  import opened Vec
  import opened HexGrid

  /** All three coordinates lie in [-r, r]. */
  predicate InBox(h: Hex, r: int) {
    -r <= h.x <= r && -r <= h.y <= r && -r <= h.z <= r
  }

  /** The wedge: x in 0..r, y in -r..0, x + y <= 0 (so z >= 0). */
  predicate InWedge(h: Hex, r: int) {
    ZeroSum(h) && 0 <= h.x <= r && -r <= h.y <= 0 && h.x + h.y <= 0
  }

  /** Strict lexicographic order on (x, y, z). */
  predicate LexLess(a: Hex, b: Hex) {
    a.x < b.x || (a.x == b.x && (a.y < b.y || (a.y == b.y && a.z < b.z)))
  }

  predicate LexSorted(s: seq<Hex>) {
    forall i, j :: 0 <= i < j < |s| ==> LexLess(s[i], s[j])
  }

  /** Number of integers in lo..hi. */
  function Span(lo: int, hi: int): nat {
    if hi < lo then 0 else hi - lo + 1
  }

  function Min(a: int, b: int): int { if a <= b then a else b }
  function Max(a: int, b: int): int { if a >= b then a else b }

  // ---------------------------------------------------------------------
  // The disk: three nested loops over [-r, r], filtered on q + t + s == 0.
  // Each loop counter is written as its offset from -r (0 .. 2r).

  /** Innermost loop: s = k - r for k from `k` up to 2r, for fixed q and t. */
  function HexCells(r: int, q: int, t: int, k: int): seq<Hex>
    decreases 2 * r + 1 - k
  {
    if k > 2 * r then []
    else (if q + t + (k - r) == 0 then [Vec3(q, t, k - r)] else []) + HexCells(r, q, t, k + 1)
  }

  /** Middle loop: t = j - r for j from `j` up to 2r, for fixed q. */
  function HexRow(r: int, q: int, j: int): seq<Hex>
    decreases 2 * r + 1 - j
  {
    if j > 2 * r then [] else HexCells(r, q, j - r, 0) + HexRow(r, q, j + 1)
  }

  /** Outer loop: q = i - r for i from `i` up to 2r. */
  function HexRows(r: int, i: int): seq<Hex>
    decreases 2 * r + 1 - i
  {
    if i > 2 * r then [] else HexRow(r, i - r, 0) + HexRows(r, i + 1)
  }

  /** The hexagonal disk of radius `r`; a negative radius would make the
      source's integer ranges ill-formed, hence the precondition. */
  function HexRegion(r: int): seq<Hex>
    requires r >= 0
  {
    HexRows(r, 0)
  }

  // ---------------------------------------------------------------------
  // The wedge: q in 0..r (outer), t in -r..0 (inner), filtered on q + t <= 0

  function TriCells(r: int, q: int, t: int): seq<Hex>
    decreases 1 - t
  {
    if t > 0 then []
    else (if q + t <= 0 then [Vec3(q, t, -q - t)] else []) + TriCells(r, q, t + 1)
  }

  function TriRows(r: int, q: int): seq<Hex>
    decreases r + 1 - q
  {
    if q > r then [] else TriCells(r, q, -r) + TriRows(r, q + 1)
  }

  function TriRegion(r: int): seq<Hex>
    requires r >= -1
  {
    TriRows(r, 0)
  }

  /** At radius -1 both ranges of the wedge are empty, and so is the wedge;
      at radius 0 it is the origin alone. */
  lemma TriRegionSmallest()
    ensures TriRegion(-1) == []
    ensures TriRegion(0) == [Vec3(0, 0, 0)]
  {
  }

  // ---------------------------------------------------------------------
  // Helpers

  lemma SortedConcat(a: seq<Hex>, b: seq<Hex>)
    requires LexSorted(a) && LexSorted(b)
    requires forall u, v :: u in a && v in b ==> LexLess(u, v)
    ensures LexSorted(a + b)
  {
    var c := a + b;
    forall i, j | 0 <= i < j < |c| ensures LexLess(c[i], c[j]) {
      if j < |a| {
      } else if i >= |a| {
        assert c[i] == b[i - |a|] && c[j] == b[j - |a|];
      } else {
        assert c[i] in a && c[j] in b;
      }
    }
  }

  lemma SortedDistinct(s: seq<Hex>)
    requires LexSorted(s)
    ensures Distinct(s)
  {
  }

  // ---------------------------------------------------------------------
  // Disk: membership

  lemma {:induction false} HexCellsMembers(r: int, q: int, t: int, k: int, h: Hex)
    ensures h in HexCells(r, q, t, k) <==> h.x == q && h.y == t && k - r <= h.z <= r && ZeroSum(h)
    decreases 2 * r + 1 - k
  {
    if k <= 2 * r {
      HexCellsMembers(r, q, t, k + 1, h);
    }
  }

  lemma {:induction false} HexRowMembers(r: int, q: int, j: int, h: Hex)
    ensures h in HexRow(r, q, j) <==> h.x == q && j - r <= h.y <= r && -r <= h.z <= r && ZeroSum(h)
    decreases 2 * r + 1 - j
  {
    if j <= 2 * r {
      HexCellsMembers(r, q, j - r, 0, h);
      HexRowMembers(r, q, j + 1, h);
    }
  }

  lemma {:induction false} HexRowsMembers(r: int, i: int, h: Hex)
    ensures h in HexRows(r, i) <==> i - r <= h.x <= r && -r <= h.y <= r && -r <= h.z <= r && ZeroSum(h)
    decreases 2 * r + 1 - i
  {
    if i <= 2 * r {
      var row, rest := HexRow(r, i - r, 0), HexRows(r, i + 1);
      assert HexRows(r, i) == row + rest;
      HexRowMembers(r, i - r, 0, h);
      HexRowsMembers(r, i + 1, h);
      assert h in row + rest <==> h in row || h in rest;
    }
  }

  /** The disk holds exactly the zero-sum triples of the cube [-r, r]^3. */
  lemma HexRegionMembers(r: int, h: Hex)
    requires r >= 0
    ensures h in HexRegion(r) <==> InBox(h, r) && ZeroSum(h)
  {
    HexRowsMembers(r, 0, h);
  }

  /** Equivalently, the lattice cells within distance `r` of the origin. */
  lemma HexRegionIsDisk(r: int, h: Hex)
    requires r >= 0
    ensures h in HexRegion(r) <==> ZeroSum(h) && Distance(h, Origin) <= r
  {
    HexRegionMembers(r, h);
    if ZeroSum(h) {
      DistanceFromOrigin(h);
    }
  }

  // ---------------------------------------------------------------------
  // Disk: order

  lemma {:induction false} HexCellsSorted(r: int, q: int, t: int, k: int)
    ensures LexSorted(HexCells(r, q, t, k))
    decreases 2 * r + 1 - k
  {
    if k <= 2 * r {
      HexCellsSorted(r, q, t, k + 1);
      if q + t + (k - r) == 0 {
        HexCellsSize(r, q, t, k + 1);
        assert HexCells(r, q, t, k) == [Vec3(q, t, k - r)];
      } else {
        assert HexCells(r, q, t, k) == HexCells(r, q, t, k + 1);
      }
    }
  }

  lemma {:induction false} HexRowSorted(r: int, q: int, j: int)
    ensures LexSorted(HexRow(r, q, j))
    decreases 2 * r + 1 - j
  {
    if j <= 2 * r {
      HexCellsSorted(r, q, j - r, 0);
      HexRowSorted(r, q, j + 1);
      forall u, v | u in HexCells(r, q, j - r, 0) && v in HexRow(r, q, j + 1) ensures LexLess(u, v) {
        HexCellsMembers(r, q, j - r, 0, u);
        HexRowMembers(r, q, j + 1, v);
      }
      SortedConcat(HexCells(r, q, j - r, 0), HexRow(r, q, j + 1));
    }
  }

  lemma HexRowsSeparated(r: int, i: int)
    ensures forall u, v :: u in HexRow(r, i - r, 0) && v in HexRows(r, i + 1) ==> LexLess(u, v)
  {
    forall u, v | u in HexRow(r, i - r, 0) && v in HexRows(r, i + 1) ensures LexLess(u, v) {
      HexRowMembers(r, i - r, 0, u);
      HexRowsMembers(r, i + 1, v);
    }
  }

  lemma {:induction false} HexRowsSorted(r: int, i: int)
    ensures LexSorted(HexRows(r, i))
    decreases 2 * r + 1 - i
  {
    if i <= 2 * r {
      HexRowSorted(r, i - r, 0);
      HexRowsSorted(r, i + 1);
      HexRowsSeparated(r, i);
      SortedConcat(HexRow(r, i - r, 0), HexRows(r, i + 1));
    }
  }

  /** The disk comes out in strictly increasing lexicographic order, so no
      cell is produced twice. */
  lemma HexRegionSorted(r: int)
    requires r >= 0
    ensures LexSorted(HexRegion(r))
    ensures Distinct(HexRegion(r))
  {
    HexRowsSorted(r, 0);
    SortedDistinct(HexRegion(r));
  }

  // ---------------------------------------------------------------------
  // Disk: size

  lemma {:induction false} HexCellsSize(r: int, q: int, t: int, k: int)
    ensures |HexCells(r, q, t, k)| == if k - r <= -q - t <= r then 1 else 0
    decreases 2 * r + 1 - k
  {
    if k <= 2 * r {
      HexCellsSize(r, q, t, k + 1);
    }
  }

  lemma {:induction false} HexRowSize(r: int, q: int, j: int)
    requires r >= 0
    ensures |HexRow(r, q, j)| == Span(Max(j - r, -r - q), Min(r, r - q))
    decreases 2 * r + 1 - j
  {
    if j <= 2 * r {
      HexCellsSize(r, q, j - r, 0);
      HexRowSize(r, q, j + 1);
    }
  }

  /** Row q of the disk holds 2r + 1 - |q| cells. */
  lemma HexRowLength(r: int, q: int)
    requires -r <= q <= r
    ensures |HexRow(r, q, 0)| == 2 * r + 1 - Abs(q)
  {
    HexRowSize(r, q, 0);
  }

  /** The summed lengths 2r + 1 - |q| of rows q = i - r .. r. */
  function DiskRows(r: int, i: int): int
    decreases 2 * r + 1 - i
  {
    if i > 2 * r then 0 else 2 * r + 1 - Abs(i - r) + DiskRows(r, i + 1)
  }

  lemma {:induction false} HexRowsCount(r: int, i: int)
    requires 0 <= i
    ensures |HexRows(r, i)| == DiskRows(r, i)
    decreases 2 * r + 1 - i
  {
    if i <= 2 * r {
      HexRowLength(r, i - r);
      HexRowsCount(r, i + 1);
    }
  }

  /** Rows q = i - r .. r for q >= 0. */
  lemma {:induction false} DiskRowsUpper(r: int, i: int)
    requires r <= i <= 2 * r + 1
    ensures 2 * DiskRows(r, i) == (2 * r - i + 1) * (4 * r + 2 - i)
    decreases 2 * r + 1 - i
  {
    if i <= 2 * r {
      DiskRowsUpper(r, i + 1);
      var a := 2 * r - i;
      assert (a + 1) * (2 * r + 2 + a) == a * (2 * r + 1 + a) + 2 * (r + 1 + a);
    }
  }

  /** Rows q = i - r .. r for q <= 0. */
  lemma {:induction false} DiskRowsLower(r: int, i: int)
    requires 0 <= i <= r
    ensures var q := i - r;
      2 * DiskRows(r, i) == (r + 1) * (3 * r + 2) - q * (4 * r + 1 + q)
    decreases r - i
  {
    var q := i - r;
    if i == r {
      DiskRowsUpper(r, r);
    } else {
      DiskRowsLower(r, i + 1);
      assert q * (4 * r + 1 + q) == (q + 1) * (4 * r + 1 + (q + 1)) - 2 * (2 * r + 1 + q);
    }
  }

  /** The disk of radius r has 3r^2 + 3r + 1 cells. */
  lemma HexRegionSize(r: int)
    requires r >= 0
    ensures |HexRegion(r)| == 3 * r * r + 3 * r + 1
  {
    HexRowsCount(r, 0);
    DiskRowsLower(r, 0);
  }

  // ---------------------------------------------------------------------
  // Wedge

  lemma {:induction false} TriCellsMembers(r: int, q: int, t: int, h: Hex)
    ensures h in TriCells(r, q, t) <==> h.x == q && t <= h.y <= 0 && q + h.y <= 0 && ZeroSum(h)
    decreases 1 - t
  {
    if t <= 0 {
      TriCellsMembers(r, q, t + 1, h);
    }
  }

  lemma {:induction false} TriRowsMembers(r: int, q: int, h: Hex)
    ensures h in TriRows(r, q) <==> q <= h.x <= r && -r <= h.y <= 0 && h.x + h.y <= 0 && ZeroSum(h)
    decreases r + 1 - q
  {
    if q <= r {
      TriCellsMembers(r, q, -r, h);
      TriRowsMembers(r, q + 1, h);
    }
  }

  /** The wedge holds exactly the cells satisfying `InWedge`. */
  lemma TriRegionMembers(r: int, h: Hex)
    requires r >= -1
    ensures h in TriRegion(r) <==> InWedge(h, r)
  {
    TriRowsMembers(r, 0, h);
  }

  lemma {:induction false} TriCellsSorted(r: int, q: int, t: int)
    ensures LexSorted(TriCells(r, q, t))
    decreases 1 - t
  {
    if t <= 0 {
      TriCellsSorted(r, q, t + 1);
      if q + t <= 0 {
        forall u, v | u in [Vec3(q, t, -q - t)] && v in TriCells(r, q, t + 1) ensures LexLess(u, v) {
          TriCellsMembers(r, q, t + 1, v);
        }
        SortedConcat([Vec3(q, t, -q - t)], TriCells(r, q, t + 1));
      } else {
        assert TriCells(r, q, t) == TriCells(r, q, t + 1);
      }
    }
  }

  lemma {:induction false} TriRowsSorted(r: int, q: int)
    ensures LexSorted(TriRows(r, q))
    decreases r + 1 - q
  {
    if q <= r {
      TriCellsSorted(r, q, -r);
      TriRowsSorted(r, q + 1);
      forall u, v | u in TriCells(r, q, -r) && v in TriRows(r, q + 1) ensures LexLess(u, v) {
        TriCellsMembers(r, q, -r, u);
        TriRowsMembers(r, q + 1, v);
      }
      SortedConcat(TriCells(r, q, -r), TriRows(r, q + 1));
    }
  }

  /** The wedge comes out in strictly increasing lexicographic order. */
  lemma TriRegionSorted(r: int)
    requires r >= -1
    ensures LexSorted(TriRegion(r))
    ensures Distinct(TriRegion(r))
  {
    TriRowsSorted(r, 0);
    SortedDistinct(TriRegion(r));
  }

  lemma {:induction false} TriCellsSize(r: int, q: int, t: int)
    requires q >= 0
    ensures |TriCells(r, q, t)| == Span(t, -q)
    decreases 1 - t
  {
    if t <= 0 {
      TriCellsSize(r, q, t + 1);
    }
  }

  lemma {:induction false} TriRowsSize(r: int, q: int)
    requires 0 <= q <= r + 1
    ensures 2 * |TriRows(r, q)| == (r - q + 1) * (r - q + 2)
    decreases r + 1 - q
  {
    if q <= r {
      TriCellsSize(r, q, -r);
      TriRowsSize(r, q + 1);
      var a := r - q;
      assert (a + 1) * (a + 2) == a * (a + 1) + 2 * (a + 1);
    }
  }

  /** The wedge of radius r has (r + 1)(r + 2) / 2 cells. */
  lemma TriRegionSize(r: int)
    requires r >= -1
    ensures 2 * |TriRegion(r)| == (r + 1) * (r + 2)
  {
    TriRowsSize(r, 0);
  }

  /** Every wedge cell lies in the disk of the same radius. */
  lemma TriInHexRegion(r: int, h: Hex)
    requires r >= 0
    requires h in TriRegion(r)
    ensures h in HexRegion(r)
  {
    TriRegionMembers(r, h);
    HexRegionMembers(r, h);
  }

  /** Swapping x and z keeps a cell inside the wedge. */
  lemma TriRegionFlipClosed(r: int, h: Hex)
    requires r >= -1
    ensures h in TriRegion(r) <==> FlipHorz(h) in TriRegion(r)
  {
    TriRegionMembers(r, h);
    TriRegionMembers(r, FlipHorz(h));
  }
}
