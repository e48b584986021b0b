/**
 * Connectedness of a set of cells under the direct (or direct-plus-
 * diagonal) neighbour relation, decided by a depth-first flood fill with an
 * explicit stack, and specified by paths that stay inside the set.
 */
module Connectivity {
  import opened Vec
  import opened HexGrid

  /** A non-empty walk through `cells`, each step to a neighbour. */
  ghost predicate IsPath(cells: set<Hex>, withDiagonals: bool, p: seq<Hex>) {
    |p| > 0 &&
    (forall i :: 0 <= i < |p| ==> p[i] in cells) &&
    (forall i :: 0 <= i < |p| - 1 ==> p[i + 1] in Neighbors(p[i], withDiagonals))
  }

  ghost predicate Reachable(cells: set<Hex>, withDiagonals: bool, a: Hex, b: Hex) {
    exists p :: IsPath(cells, withDiagonals, p) && p[0] == a && p[|p| - 1] == b
  }

  /** Every cell of the set reaches every other without leaving the set. */
  ghost predicate Connected(cells: set<Hex>, withDiagonals: bool) {
    forall a, b :: a in cells && b in cells ==> Reachable(cells, withDiagonals, a, b)
  }

  /** Every neighbour of a member of `vs` that lies in `cells` is in `vs`. */
  ghost predicate ClosedIn(vs: set<Hex>, cells: set<Hex>, withDiagonals: bool) {
    forall v, n :: v in vs && n in cells && n in Neighbors(v, withDiagonals) ==> n in vs
  }

  // ---------------------------------------------------------------------
  // Paths

  lemma ReachableRefl(cells: set<Hex>, d: bool, a: Hex)
    requires a in cells
    ensures Reachable(cells, d, a, a)
  {
    assert IsPath(cells, d, [a]);
  }

  lemma ReachableStep(cells: set<Hex>, d: bool, a: Hex, b: Hex, c: Hex)
    requires Reachable(cells, d, a, b)
    requires c in cells && c in Neighbors(b, d)
    ensures Reachable(cells, d, a, c)
  {
    var p :| IsPath(cells, d, p) && p[0] == a && p[|p| - 1] == b;
    var q := p + [c];
    forall i | 0 <= i < |q| ensures q[i] in cells {
      if i < |p| {
        assert q[i] == p[i];
      }
    }
    forall i | 0 <= i < |q| - 1 ensures q[i + 1] in Neighbors(q[i], d) {
      if i < |p| - 1 {
        assert q[i] == p[i] && q[i + 1] == p[i + 1];
      } else {
        assert q[i] == b && q[i + 1] == c;
      }
    }
    assert IsPath(cells, d, q);
  }

  function Reverse(p: seq<Hex>): (r: seq<Hex>)
    ensures |r| == |p|
    ensures forall i :: 0 <= i < |p| ==> r[i] == p[|p| - 1 - i]
  {
    seq(|p|, i requires 0 <= i < |p| => p[|p| - 1 - i])
  }

  /** The neighbour relation is symmetric, hence so is reachability. */
  lemma ReachableSymmetric(cells: set<Hex>, d: bool, a: Hex, b: Hex)
    requires Reachable(cells, d, a, b)
    ensures Reachable(cells, d, b, a)
  {
    var p :| IsPath(cells, d, p) && p[0] == a && p[|p| - 1] == b;
    var q := Reverse(p);
    forall i | 0 <= i < |q| - 1 ensures q[i + 1] in Neighbors(q[i], d) {
      NeighborsSymmetric(p[|p| - 2 - i], p[|p| - 1 - i], d);
    }
    assert IsPath(cells, d, q);
  }

  lemma ReachableTrans(cells: set<Hex>, d: bool, a: Hex, b: Hex, c: Hex)
    requires Reachable(cells, d, a, b) && Reachable(cells, d, b, c)
    ensures Reachable(cells, d, a, c)
  {
    var p :| IsPath(cells, d, p) && p[0] == a && p[|p| - 1] == b;
    var q :| IsPath(cells, d, q) && q[0] == b && q[|q| - 1] == c;
    var r := p + q[1..];
    forall i | 0 <= i < |r| - 1 ensures r[i + 1] in Neighbors(r[i], d) {
      if i < |p| - 1 {
      } else {
        assert r[i] == q[i - |p| + 1] && r[i + 1] == q[i - |p| + 2];
      }
    }
    assert IsPath(cells, d, r);
  }

  /** A path that starts in a closed subset never leaves it. */
  lemma {:induction false} PathStaysInClosed(cells: set<Hex>, d: bool, vs: set<Hex>, p: seq<Hex>)
    requires ClosedIn(vs, cells, d)
    requires IsPath(cells, d, p) && p[0] in vs
    ensures p[|p| - 1] in vs
    decreases |p|
  {
    if |p| > 1 {
      var init := p[..|p| - 1];
      assert IsPath(cells, d, init);
      PathStaysInClosed(cells, d, vs, init);
    }
  }

  lemma {:induction false} SubsetSize(a: set<Hex>, b: set<Hex>)
    requires a <= b
    ensures |a| <= |b|
    ensures |a| == |b| ==> a == b
    decreases b
  {
    if b != {} {
      var x :| x in b;
      if x in a {
        SubsetSize(a - {x}, b - {x});
        assert a == (a - {x}) + {x};
      } else {
        SubsetSize(a, b - {x});
      }
    }
  }

  /** Closed, except for neighbours still waiting on the stack. */
  ghost predicate ClosedBut(vs: set<Hex>, cells: set<Hex>, withDiagonals: bool, pending: seq<Hex>) {
    forall v, n :: v in vs && n in cells && n in Neighbors(v, withDiagonals) ==> n in vs || n in pending
  }

  lemma ClosedWhenDone(vs: set<Hex>, cells: set<Hex>, withDiagonals: bool, pending: seq<Hex>)
    requires ClosedBut(vs, cells, withDiagonals, pending) && pending == []
    ensures ClosedIn(vs, cells, withDiagonals)
  {
  }

  lemma ClosedAfterPop(vs: set<Hex>, cells: set<Hex>, d: bool, rest: seq<Hex>, top: Hex)
    requires ClosedBut(vs, cells, d, rest + [top]) && top in vs
    ensures ClosedBut(vs, cells, d, rest)
  {
    forall v, n | v in vs && n in cells && n in Neighbors(v, d) ensures n in vs || n in rest {
      if n !in vs {
        var i :| 0 <= i < |rest + [top]| && (rest + [top])[i] == n;
        assert i < |rest| && rest[i] == n;
      }
    }
  }

  lemma ClosedAfterVisit(vs: set<Hex>, cells: set<Hex>, d: bool, rest: seq<Hex>, top: Hex, pushed: seq<Hex>)
    requires ClosedBut(vs, cells, d, rest + [top])
    requires forall x :: x in rest ==> x in pushed
    requires forall n :: n in cells && n in Neighbors(top, d) ==> n in pushed
    ensures ClosedBut(vs + {top}, cells, d, pushed)
  {
    forall v, n | v in vs + {top} && n in cells && n in Neighbors(v, d)
      ensures n in vs + {top} || n in pushed
    {
      if v != top {
        assert n in vs || n in rest + [top];
      }
    }
  }

  /** The elements of `ns` that belong to `cells`, in their order in `ns`. */
  function MembersIn(cells: set<Hex>, ns: seq<Hex>): (r: seq<Hex>)
    ensures |r| <= |ns|
    ensures forall x :: x in r <==> x in ns && x in cells
  {
    if ns == [] then []
    else MembersIn(cells, ns[..|ns| - 1]) + (if ns[|ns| - 1] in cells then [ns[|ns| - 1]] else [])
  }

  /** Pushes, in their listed order, the neighbours that are members of
      `cells`, on top of the unchanged old stack. */
  method PushNeighbors(cells: set<Hex>, neighbors: seq<Hex>, stack: seq<Hex>)
    returns (pushed: seq<Hex>)
    ensures pushed == stack + MembersIn(cells, neighbors)
    ensures forall x :: x in stack ==> x in pushed
    ensures forall n :: n in cells && n in neighbors ==> n in pushed
    ensures forall x :: x in pushed ==> x in stack || (x in cells && x in neighbors)
  {
    pushed := stack;
    for i := 0 to |neighbors|
      invariant pushed == stack + MembersIn(cells, neighbors[..i])
    {
      assert neighbors[..i + 1][..i] == neighbors[..i];
      var neighbor := neighbors[i];
      if neighbor in cells {
        pushed := pushed + [neighbor];
      }
    }
    assert neighbors[..|neighbors|] == neighbors;
    StackMembers(cells, stack, neighbors);
  }

  lemma StackMembers(cells: set<Hex>, stack: seq<Hex>, ns: seq<Hex>)
    ensures forall x :: x in stack + MembersIn(cells, ns) <==> x in stack || (x in ns && x in cells)
  {
  }

  lemma ReachableNeighbors(cells: set<Hex>, d: bool, start: Hex, current: Hex, reached: set<Hex>)
    requires current in reached && reached <= cells && AllReachable(cells, d, start, reached)
    ensures AllReachable(cells, d, start, reached + set n | n in cells && n in Neighbors(current, d))
  {
    forall n | n in cells && n in Neighbors(current, d) ensures Reachable(cells, d, start, n) {
      ReachableStep(cells, d, start, current, n);
    }
  }

  ghost predicate AllReachable(cells: set<Hex>, d: bool, start: Hex, xs: set<Hex>) {
    forall x :: x in xs ==> Reachable(cells, d, start, x)
  }

  /** Once the fill stops, the visited cells are closed; they make up the
      whole set exactly when the set is connected. */
  lemma FillOutcome(cells: set<Hex>, d: bool, start: Hex, visited: set<Hex>)
    requires visited <= cells && start in visited
    requires ClosedIn(visited, cells, d)
    requires forall v :: v in visited ==> Reachable(cells, d, start, v)
    ensures |visited| == |cells| <==> Connected(cells, d)
  {
    SubsetSize(visited, cells);
    if |visited| == |cells| {
      forall a, b | a in cells && b in cells ensures Reachable(cells, d, a, b) {
        ReachableSymmetric(cells, d, start, a);
        ReachableTrans(cells, d, a, start, b);
      }
    } else {
      assert visited != cells;
      var missing :| missing in cells && missing !in visited;
      if Reachable(cells, d, start, missing) {
        var p :| IsPath(cells, d, p) && p[0] == start && p[|p| - 1] == missing;
        PathStaysInClosed(cells, d, visited, p);
      }
    }
  }

  // ---------------------------------------------------------------------
  // The flood fill

  /** The members of `cells` adjacent to `current`. */
  ghost function AdjacentIn(cells: set<Hex>, d: bool, current: Hex): set<Hex> {
    set n | n in cells && n in Neighbors(current, d)
  }

  /** The loop invariant of the fill: `reached` holds cells known to be
      reachable from `start`, every visited or stacked cell is among them,
      `start` has been visited or is waiting, and the visited cells are
      closed up to the waiting ones. */
  ghost predicate FillInv(cells: set<Hex>, d: bool, start: Hex,
                          visited: set<Hex>, stack: seq<Hex>, reached: set<Hex>) {
    reached <= cells && AllReachable(cells, d, start, reached) &&
    visited <= reached &&
    (forall s :: s in stack ==> s in reached) &&
    (start in visited || start in stack) &&
    ClosedBut(visited, cells, d, stack)
  }

  lemma FillStart(cells: set<Hex>, d: bool, start: Hex)
    requires start in cells
    ensures FillInv(cells, d, start, {}, [start], {start})
  {
    ReachableRefl(cells, d, start);
  }

  /** Popping a cell that was already visited keeps the invariant. */
  lemma FillPop(cells: set<Hex>, d: bool, start: Hex,
                visited: set<Hex>, rest: seq<Hex>, top: Hex, reached: set<Hex>)
    requires FillInv(cells, d, start, visited, rest + [top], reached) && top in visited
    ensures FillInv(cells, d, start, visited, rest, reached)
  {
    ClosedAfterPop(visited, cells, d, rest, top);
    forall s | s in rest ensures s in reached {
      assert s in rest + [top];
    }
    if start !in visited {
      var i :| 0 <= i < |rest + [top]| && (rest + [top])[i] == start;
      assert i < |rest| && rest[i] == start;
    }
  }

  /** Visiting a new cell and pushing its neighbours in `cells` keeps the
      invariant, with those neighbours added to the reached cells. */
  lemma FillVisit(cells: set<Hex>, d: bool, start: Hex,
                  visited: set<Hex>, rest: seq<Hex>, top: Hex, reached: set<Hex>,
                  pushed: seq<Hex>)
    requires FillInv(cells, d, start, visited, rest + [top], reached)
    requires forall x :: x in rest ==> x in pushed
    requires forall n :: n in cells && n in Neighbors(top, d) ==> n in pushed
    requires forall x :: x in pushed ==> x in rest || (x in cells && x in Neighbors(top, d))
    ensures top in cells
    ensures FillInv(cells, d, start, visited + {top}, pushed, reached + AdjacentIn(cells, d, top))
  {
    assert top in rest + [top];
    ReachableNeighbors(cells, d, start, top, reached);
    ClosedAfterVisit(visited, cells, d, rest, top, pushed);
    var reached' := reached + AdjacentIn(cells, d, top);
    forall s | s in pushed ensures s in reached' {
      if s in rest {
        assert s in rest + [top];
      }
    }
    if start !in visited && start != top {
      var i :| 0 <= i < |rest + [top]| && (rest + [top])[i] == start;
      assert i < |rest| && rest[i] == start;
    }
  }

  /** A non-empty stack is its prefix plus its top. */
  lemma PopLast(s: seq<Hex>)
    requires s != []
    ensures s == s[..|s| - 1] + [s[|s| - 1]]
  {
  }

  /** Visiting a new member leaves fewer members unvisited. */
  lemma FewerUnvisited(cells: set<Hex>, visited: set<Hex>, top: Hex)
    requires top in cells && top !in visited
    ensures |cells - (visited + {top})| < |cells - visited|
  {
    assert cells - visited == (cells - (visited + {top})) + {top};
  }

  /** With nothing left on the stack the fill is over, and it has visited
      every member exactly when the set is connected. */
  lemma FillDone(cells: set<Hex>, d: bool, start: Hex, visited: set<Hex>, reached: set<Hex>)
    requires FillInv(cells, d, start, visited, [], reached)
    ensures |visited| == |cells| <==> Connected(cells, d)
  {
    ClosedWhenDone(visited, cells, d, []);
    FillOutcome(cells, d, start, visited);
  }

  /** Depth-first flood fill from an arbitrary member; the set is connected
      when the fill visits every member. */
  method IsConnected(cells: set<Hex>, withDiagonals: bool) returns (connected: bool)
    ensures connected <==> Connected(cells, withDiagonals)
  {
    if cells == {} {
      return true;
    }
    var start :| start in cells;
    var visited: set<Hex> := {};
    var stack: seq<Hex> := [start];
    ghost var reached: set<Hex> := {start};
    FillStart(cells, withDiagonals, start);
    while stack != []
      invariant FillInv(cells, withDiagonals, start, visited, stack, reached)
      decreases |cells - visited|, |stack|
    {
      var current := stack[|stack| - 1];
      PopLast(stack);
      stack := stack[..|stack| - 1];
      if current in visited {
        FillPop(cells, withDiagonals, start, visited, stack, current, reached);
        continue;
      }
      ghost var base := stack;
      stack := PushNeighbors(cells, Neighbors(current, withDiagonals), stack);
      FillVisit(cells, withDiagonals, start, visited, base, current, reached, stack);
      FewerUnvisited(cells, visited, current);
      visited := visited + {current};
      reached := reached + AdjacentIn(cells, withDiagonals, current);
    }
    FillDone(cells, withDiagonals, start, visited, reached);
    connected := |visited| == |cells|;
  }

  // ---------------------------------------------------------------------
  // Consequences

  lemma EmptyIsConnected(d: bool)
    ensures Connected({}, d)
  {
  }

  lemma SingletonIsConnected(h: Hex, d: bool)
    ensures Connected({h}, d)
  {
    ReachableRefl({h}, d, h);
  }

  /** Connected through direct neighbours implies connected once diagonal
      steps are allowed too. */
  lemma DirectImpliesDiagonal(cells: set<Hex>)
    requires Connected(cells, false)
    ensures Connected(cells, true)
  {
    forall a, b | a in cells && b in cells ensures Reachable(cells, true, a, b) {
      DirectReachable(cells, a, b);
    }
  }

  lemma DirectReachable(cells: set<Hex>, a: Hex, b: Hex)
    requires Reachable(cells, false, a, b)
    ensures Reachable(cells, true, a, b)
  {
    var p :| IsPath(cells, false, p) && p[0] == a && p[|p| - 1] == b;
    DirectPathIsPath(cells, p);
  }

  lemma DirectPathIsPath(cells: set<Hex>, p: seq<Hex>)
    requires IsPath(cells, false, p)
    ensures IsPath(cells, true, p)
  {
    forall i | 0 <= i < |p| - 1 ensures p[i + 1] in Neighbors(p[i], true) {
      DirectNeighborIsNeighbor(p[i], p[i + 1]);
    }
  }

  /** Two cells at hex distance 3 or more are never connected, even with
      diagonal steps, as a two-cell set. */
  lemma FarPairNotConnected(a: Hex, b: Hex)
    requires Distance(a, b) >= 3
    ensures !Connected({a, b}, true)
  {
    if Reachable({a, b}, true, a, b) {
      var p :| IsPath({a, b}, true, p) && p[0] == a && p[|p| - 1] == b;
      var vs := {a};
      forall v, n | v in vs && n in {a, b} && n in Neighbors(v, true) ensures n in vs {
        if n == b {
          var i :| 0 <= i < 12 && Neighbors(a, true)[i] == b;
          NeighborDistances(a, true, i);
        }
      }
      PathStaysInClosed({a, b}, true, vs, p);
    }
  }
}
