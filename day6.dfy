/**
 * src/bin/d6.rs: the patrolling guard. The guard walks straight on and
 * turns right in front of an obstacle until it leaves the grid. Part 1
 * collects the cells it stands on; part 2 counts the cells where one new
 * obstacle would trap the guard in a loop.
 */
module Day6 {
  import opened Wrappers
  import opened Utils

  /** One pass of the guard over a cell: when and facing which way. */
  datatype VisitState = VisitState(step: nat, dir: Dir)

  /** A cell of the part 2 grid with the passes recorded on it. */
  datatype CellState = Start(visits: seq<VisitState>) | Obstructed | Open(visits: seq<VisitState>)

  /** From<u8>: '#' is an obstacle, '^' the start, anything else open floor. */
  function FromByte(c: char): (s: CellState)
    ensures s.Obstructed? <==> c == '#'
    ensures s.Start? <==> c == '^'
    ensures !s.Obstructed? ==> s.visits == []
  {
    if c == '#' then Obstructed else if c == '^' then Start([]) else Open([])
  }

  /** visit: record one more pass; the source panics on an obstacle. */
  function Visit(cell: CellState, step: nat, dir: Dir): (c: CellState)
    requires !cell.Obstructed?
    ensures c.Start? == cell.Start? && !c.Obstructed?
    ensures c.visits == cell.visits + [VisitState(step, dir)]
  {
    match cell
    case Start(v) => Start(v + [VisitState(step, dir)])
    case Open(v) => Open(v + [VisitState(step, dir)])
  }

  /** The position of the first pass facing dir. */
  function FirstWith(visits: seq<VisitState>, dir: Dir): (r: Option<nat>)
    ensures r.None? <==> forall i :: 0 <= i < |visits| ==> visits[i].dir != dir
    ensures r.Some? ==> r.value < |visits| && visits[r.value].dir == dir
    ensures r.Some? ==> forall j :: 0 <= j < r.value ==> visits[j].dir != dir
  {
    if |visits| == 0 then None
    else if visits[0].dir == dir then Some(0)
    else
      match FirstWith(visits[1..], dir)
      case None => None
      case Some(k) => Some(k + 1)
  }

  /** visited: the step of the first pass facing dir; never for an obstacle. */
  function Visited(cell: CellState, dir: Dir): (r: Option<nat>)
    ensures r.None? <==> cell.Obstructed? || forall i :: 0 <= i < |cell.visits| ==> cell.visits[i].dir != dir
    ensures r.Some? ==> exists i :: 0 <= i < |cell.visits| && cell.visits[i] == VisitState(r.value, dir) &&
                                 forall j :: 0 <= j < i ==> cell.visits[j].dir != dir
  {
    if cell.Obstructed? then None
    else
      match FirstWith(cell.visits, dir)
      case None => None
      case Some(i) => Some(cell.visits[i].step)
  }

  lemma {:induction false} FirstWithAppend(v: seq<VisitState>, x: VisitState, d: Dir)
    ensures FirstWith(v + [x], d) ==
      if FirstWith(v, d).Some? then FirstWith(v, d) else if x.dir == d then Some(|v|) else None
  {
    if |v| > 0 && v[0].dir != d {
      assert (v + [x])[1..] == v[1..] + [x];
      FirstWithAppend(v[1..], x, d);
    }
  }

  /**
   * After a pass facing dir, visited(d) is what it was when d had already
   * been recorded, and otherwise the new step exactly when d is dir.
   */
  lemma {:induction false} VisitThenVisited(cell: CellState, step: nat, dir: Dir, d: Dir)
    requires !cell.Obstructed?
    ensures Visited(Visit(cell, step, dir), d) ==
      if Visited(cell, d).Some? || d != dir then Visited(cell, d) else Some(step)
  {
    FirstWithAppend(cell.visits, VisitState(step, dir), d);
    var v := cell.visits + [VisitState(step, dir)];
    assert Visit(cell, step, dir).visits == v;
    match FirstWith(cell.visits, d)
    case Some(k) => assert v[k] == cell.visits[k];
    case None =>
  }

  /** Where the guard stands and which way it faces. */
  datatype Guard = Guard(pos: Coord, dir: Dir)

  /** A grid the guard can walk: rectangular and not empty. */
  predicate Walkable<T>(g: Grid<T>) {
    g.Valid() && g.width > 0 && g.height > 0
  }

  /**
   * One iteration of the walk: none when the guard would leave the grid,
   * a right turn in place before an obstacle, otherwise a step forward.
   */
  function Step<T>(g: Grid<T>, blocked: T -> bool, s: Guard): (r: Option<Guard>)
    requires Walkable(g) && g.InBounds(s.pos)
    ensures r.None? <==> InDir(s.pos, s.dir).None? || !g.InBounds(InDir(s.pos, s.dir).value)
    ensures r.Some? ==> g.InBounds(r.value.pos)
    ensures r.Some? && r.value.pos == s.pos ==> r.value.dir == TurnRight(s.dir) && blocked(g.At(InDir(s.pos, s.dir).value))
    ensures r.Some? && r.value.pos != s.pos ==>
      r.value == Guard(InDir(s.pos, s.dir).value, s.dir) && !blocked(g.At(r.value.pos))
  {
    match g.NextPos(s.pos, s.dir)
    case None => None
    case Some(n) => if blocked(g.At(n)) then Some(Guard(s.pos, TurnRight(s.dir))) else Some(Guard(n, s.dir))
  }

  /** The guard after k iterations, if it is still inside. */
  function Iter<T>(g: Grid<T>, blocked: T -> bool, s: Guard, k: nat): (r: Option<Guard>)
    requires Walkable(g) && g.InBounds(s.pos)
    ensures r.Some? ==> g.InBounds(r.value.pos)
    decreases k
  {
    if k == 0 then Some(s)
    else
      match Step(g, blocked, s)
      case None => None
      case Some(t) => Iter(g, blocked, t, k - 1)
  }

  /** After i iterations the guard is in a state it comes back to k > 0 iterations later. */
  predicate CycleAt<T>(g: Grid<T>, blocked: T -> bool, s: Guard, i: nat, k: nat)
    requires Walkable(g) && g.InBounds(s.pos)
  {
    k > 0 && Iter(g, blocked, s, i).Some? && Iter(g, blocked, Iter(g, blocked, s, i).value, k) == Iter(g, blocked, s, i)
  }

  /** The guard walks for ever. */
  ghost predicate Cycles<T>(g: Grid<T>, blocked: T -> bool, s: Guard)
    requires Walkable(g) && g.InBounds(s.pos)
  {
    exists i: nat, k: nat :: CycleAt(g, blocked, s, i, k)
  }

  /** After k iterations the guard faces the edge of the grid. */
  predicate LeavesAt<T>(g: Grid<T>, blocked: T -> bool, s: Guard, k: nat)
    requires Walkable(g) && g.InBounds(s.pos)
  {
    Iter(g, blocked, s, k).Some? && Step(g, blocked, Iter(g, blocked, s, k).value).None?
  }

  /** The guard walks off the grid. */
  ghost predicate Leaves<T>(g: Grid<T>, blocked: T -> bool, s: Guard)
    requires Walkable(g) && g.InBounds(s.pos)
  {
    exists k: nat :: LeavesAt(g, blocked, s, k)
  }

  /** After k iterations the guard stands on p. */
  predicate Reaches<T>(g: Grid<T>, blocked: T -> bool, s: Guard, k: nat, p: Coord)
    requires Walkable(g) && g.InBounds(s.pos)
  {
    Iter(g, blocked, s, k).Some? && Iter(g, blocked, s, k).value.pos == p
  }

  lemma {:induction false} IterAdd<T>(g: Grid<T>, blocked: T -> bool, s: Guard, a: nat, c: nat)
    requires Walkable(g) && g.InBounds(s.pos)
    ensures Iter(g, blocked, s, a + c) ==
      if Iter(g, blocked, s, a).Some? then Iter(g, blocked, Iter(g, blocked, s, a).value, c) else None
    decreases a
  {
    if a > 0 {
      match Step(g, blocked, s)
      case None =>
      case Some(t) =>
        IterAdd(g, blocked, t, a - 1, c);
        assert a + c - 1 == (a - 1) + c;
    }
  }

  /** A state the guard comes back to is never left: the walk goes on for ever. */
  lemma {:induction false} CycleForever<T>(g: Grid<T>, blocked: T -> bool, x: Guard, k: nat, t: nat)
    requires Walkable(g) && g.InBounds(x.pos)
    requires k > 0 && Iter(g, blocked, x, k) == Some(x)
    ensures Iter(g, blocked, x, t).Some?
    decreases t
  {
    if t <= k {
      IterAdd(g, blocked, x, t, k - t);
    } else {
      IterAdd(g, blocked, x, k, t - k);
      CycleForever(g, blocked, x, k, t - k);
    }
  }

  /** A guard caught in a loop never leaves the grid. */
  lemma {:induction false} CyclesNotLeaves<T>(g: Grid<T>, blocked: T -> bool, s: Guard)
    requires Walkable(g) && g.InBounds(s.pos)
    ensures Cycles(g, blocked, s) ==> !Leaves(g, blocked, s)
  {
    if Cycles(g, blocked, s) && Leaves(g, blocked, s) {
      var i: nat, k: nat :| CycleAt(g, blocked, s, i, k);
      var m: nat :| LeavesAt(g, blocked, s, m);
      var x := Iter(g, blocked, s, i).value;
      IterAdd(g, blocked, s, m, 1);
      assert Iter(g, blocked, s, m + 1).None?;
      if m + 1 >= i {
        IterAdd(g, blocked, s, i, m + 1 - i);
        CycleForever(g, blocked, x, k, m + 1 - i);
      } else {
        IterAdd(g, blocked, s, m + 1, i - (m + 1));
      }
    }
  }

  /** Two grids with the same obstacles. */
  predicate SameWalls<T>(g1: Grid<T>, g2: Grid<T>, blocked: T -> bool) {
    g1.width == g2.width && g1.height == g2.height && |g1.data| == |g2.data| &&
    forall i {:trigger WallAt(g1, blocked, i)} :: 0 <= i < |g1.data| ==> WallAt(g1, blocked, i) == WallAt(g2, blocked, i)
  }

  /** Whether the cell at index i of g is an obstacle. */
  predicate WallAt<T>(g: Grid<T>, blocked: T -> bool, i: nat)
    requires i < |g.data|
  {
    blocked(g.data[i])
  }

  /** Two grids with the same obstacles agree on whether a cell is one. */
  lemma {:induction false} SameWallsAt<T>(g1: Grid<T>, g2: Grid<T>, blocked: T -> bool, p: Coord)
    requires SameWalls(g1, g2, blocked) && g1.PosToIdx(p) < |g1.data|
    ensures g2.PosToIdx(p) < |g2.data| && blocked(g1.At(p)) == blocked(g2.At(p))
  {
    var i := g1.PosToIdx(p);
    assert g2.PosToIdx(p) == i;
    assert WallAt(g1, blocked, i) == WallAt(g2, blocked, i);
  }

  /** Overwriting a cell with a value that is an obstacle exactly when the old one was. */
  lemma {:induction false} SetSameWalls<T>(g: Grid<T>, blocked: T -> bool, p: Coord, v: T)
    requires g.PosToIdx(p) < |g.data| && blocked(v) == blocked(g.At(p))
    ensures SameWalls(g.Set(p, v), g, blocked)
  {
  }

  /** The walk only depends on where the obstacles are. */
  lemma {:induction false} IterSameWalls<T>(g1: Grid<T>, g2: Grid<T>, blocked: T -> bool, s: Guard, k: nat)
    requires Walkable(g1) && g1.InBounds(s.pos) && SameWalls(g1, g2, blocked)
    ensures Walkable(g2) && Iter(g1, blocked, s, k) == Iter(g2, blocked, s, k)
    ensures Step(g1, blocked, s) == Step(g2, blocked, s)
    decreases k
  {
    match g1.NextPos(s.pos, s.dir)
    case None =>
    case Some(n) => SameWallsAt(g1, g2, blocked, n);
    if k > 0 {
      match Step(g1, blocked, s)
      case None =>
      case Some(t) => IterSameWalls(g1, g2, blocked, t, k - 1);
    }
  }

  lemma {:induction false} CyclesSameWalls<T>(g1: Grid<T>, g2: Grid<T>, blocked: T -> bool, s: Guard)
    requires Walkable(g1) && g1.InBounds(s.pos) && SameWalls(g1, g2, blocked)
    ensures Walkable(g2) && (Cycles(g1, blocked, s) ==> Cycles(g2, blocked, s))
  {
    IterSameWalls(g1, g2, blocked, s, 0);
    if Cycles(g1, blocked, s) {
      var i: nat, k: nat :| CycleAt(g1, blocked, s, i, k);
      IterSameWalls(g1, g2, blocked, s, i);
      IterSameWalls(g1, g2, blocked, Iter(g1, blocked, s, i).value, k);
      assert CycleAt(g2, blocked, s, i, k);
    }
  }

  lemma {:induction false} LeavesSameWalls<T>(g1: Grid<T>, g2: Grid<T>, blocked: T -> bool, s: Guard, k: nat)
    requires Walkable(g1) && g1.InBounds(s.pos) && SameWalls(g1, g2, blocked)
    ensures Walkable(g2) && (LeavesAt(g1, blocked, s, k) ==> LeavesAt(g2, blocked, s, k))
  {
    IterSameWalls(g1, g2, blocked, s, k);
    if LeavesAt(g1, blocked, s, k) {
      IterSameWalls(g1, g2, blocked, Iter(g1, blocked, s, k).value, 0);
    }
  }

  /** Part 1 reads the grid as bytes; only '#' stops the guard. */
  predicate IsWall(c: char) {
    c == '#'
  }

  /**
   * The `_part1` loop run for at most fuel iterations: the grid with the
   * guard's arrows drawn on it, the cells it stepped onto, and whether it
   * left the grid.
   */
  function Patrol(g: Grid<char>, s: Guard, fuel: nat): (r: (Grid<char>, set<Coord>, bool))
    requires Walkable(g) && g.InBounds(s.pos)
    ensures Walkable(r.0)
    decreases fuel
  {
    if fuel == 0 then (g, {}, false)
    else
      match g.NextPos(s.pos, s.dir)
      case None => (g, {}, true)
      case Some(n) =>
        if g.At(n) == '#' then Patrol(g, Guard(s.pos, TurnRight(s.dir)), fuel - 1)
        else
          var r := Patrol(g.Set(n, AsAsciiByte(s.dir)), Guard(n, s.dir), fuel - 1);
          (r.0, {n} + r.1, r.2)
  }

  /** Part 1 draws arrows only on open cells: the obstacles stay where they were. */
  lemma {:induction false} PatrolKeepsWalls(g: Grid<char>, s: Guard, fuel: nat)
    requires Walkable(g) && g.InBounds(s.pos)
    ensures SameWalls(Patrol(g, s, fuel).0, g, IsWall)
    decreases fuel
  {
    if fuel > 0 {
      match g.NextPos(s.pos, s.dir)
      case None =>
      case Some(n) =>
        if g.At(n) == '#' {
          PatrolKeepsWalls(g, Guard(s.pos, TurnRight(s.dir)), fuel - 1);
        } else {
          SetSameWalls(g, IsWall, n, AsAsciiByte(s.dir));
          PatrolKeepsWalls(g.Set(n, AsAsciiByte(s.dir)), Guard(n, s.dir), fuel - 1);
        }
    }
  }

  /**
   * Every cell of the part 1 walk is one the guard reaches, an open cell
   * inside the grid, and the walk reports leaving only when it does.
   */
  lemma {:induction false} PatrolSound(g: Grid<char>, s: Guard, fuel: nat)
    requires Walkable(g) && g.InBounds(s.pos)
    ensures forall p :: p in Patrol(g, s, fuel).1 ==> exists k: nat :: Reaches(g, IsWall, s, k, p)
    ensures forall p :: p in Patrol(g, s, fuel).1 ==> g.InBounds(p) && !IsWall(g.At(p))
    ensures Patrol(g, s, fuel).2 ==> Leaves(g, IsWall, s)
  {
    PatrolReaches(g, s, fuel);
    PatrolOpen(g, s, fuel);
    PatrolLeaves(g, s, fuel);
  }

  /**
   * The converse of PatrolReaches: a cell the guard stands on after at most
   * fuel moves is its starting cell or one the walk records.
   */
  lemma {:induction false} PatrolComplete(g: Grid<char>, s: Guard, fuel: nat, k: nat, p: Coord)
    requires Walkable(g) && g.InBounds(s.pos)
    requires k <= fuel && Reaches(g, IsWall, s, k, p)
    ensures p == s.pos || p in Patrol(g, s, fuel).1
    decreases k
  {
    if k > 0 {
      match g.NextPos(s.pos, s.dir)
      case None =>
      case Some(n) =>
        var t := Step(g, IsWall, s).value;
        if g.At(n) == '#' {
          assert t == Guard(s.pos, TurnRight(s.dir));
          PatrolComplete(g, t, fuel - 1, k - 1, p);
        } else {
          assert t == Guard(n, s.dir);
          var g' := g.Set(n, AsAsciiByte(s.dir));
          SetSameWalls(g, IsWall, n, AsAsciiByte(s.dir));
          IterSameWalls(g', g, IsWall, t, k - 1);
          PatrolComplete(g', t, fuel - 1, k - 1, p);
        }
    }
  }

  lemma {:induction false} PatrolReaches(g: Grid<char>, s: Guard, fuel: nat)
    requires Walkable(g) && g.InBounds(s.pos)
    ensures forall p :: p in Patrol(g, s, fuel).1 ==> exists k: nat :: Reaches(g, IsWall, s, k, p)
    decreases fuel
  {
    if fuel > 0 {
      match g.NextPos(s.pos, s.dir)
      case None =>
      case Some(n) =>
        var t := Step(g, IsWall, s).value;
        if g.At(n) == '#' {
          assert t == Guard(s.pos, TurnRight(s.dir));
          PatrolReaches(g, t, fuel - 1);
          assert Patrol(g, s, fuel).1 == Patrol(g, t, fuel - 1).1;
          forall p | p in Patrol(g, s, fuel).1 ensures exists k: nat :: Reaches(g, IsWall, s, k, p) {
            var k: nat :| Reaches(g, IsWall, t, k, p);
            assert Reaches(g, IsWall, s, k + 1, p);
          }
        } else {
          assert t == Guard(n, s.dir);
          var g' := g.Set(n, AsAsciiByte(s.dir));
          SetSameWalls(g, IsWall, n, AsAsciiByte(s.dir));
          PatrolReaches(g', t, fuel - 1);
          assert Patrol(g, s, fuel).1 == {n} + Patrol(g', t, fuel - 1).1;
          forall p | p in Patrol(g, s, fuel).1 ensures exists k: nat :: Reaches(g, IsWall, s, k, p) {
            if p == n {
              assert Reaches(g, IsWall, s, 1, p);
            } else {
              var k: nat :| Reaches(g', IsWall, t, k, p);
              IterSameWalls(g', g, IsWall, t, k);
              assert Reaches(g, IsWall, s, k + 1, p);
            }
          }
        }
    }
  }

  lemma {:induction false} PatrolOpen(g: Grid<char>, s: Guard, fuel: nat)
    requires Walkable(g) && g.InBounds(s.pos)
    ensures forall p :: p in Patrol(g, s, fuel).1 ==> g.InBounds(p) && !IsWall(g.At(p))
    decreases fuel
  {
    if fuel > 0 {
      match g.NextPos(s.pos, s.dir)
      case None =>
      case Some(n) =>
        var t := Step(g, IsWall, s).value;
        if g.At(n) == '#' {
          assert t == Guard(s.pos, TurnRight(s.dir));
          PatrolOpen(g, t, fuel - 1);
        } else {
          assert t == Guard(n, s.dir);
          var g' := g.Set(n, AsAsciiByte(s.dir));
          PatrolOpen(g', t, fuel - 1);
          forall p | p in Patrol(g, s, fuel).1 ensures g.InBounds(p) && !IsWall(g.At(p)) {
            if p != n {
              assert g'.At(p) == g.At(p);
            }
          }
        }
    }
  }

  lemma {:induction false} PatrolLeaves(g: Grid<char>, s: Guard, fuel: nat)
    requires Walkable(g) && g.InBounds(s.pos)
    ensures Patrol(g, s, fuel).2 ==> Leaves(g, IsWall, s)
    decreases fuel
  {
    if fuel > 0 {
      match g.NextPos(s.pos, s.dir)
      case None =>
        assert LeavesAt(g, IsWall, s, 0);
      case Some(n) =>
        var t := Step(g, IsWall, s).value;
        if g.At(n) == '#' {
          assert t == Guard(s.pos, TurnRight(s.dir));
          PatrolLeaves(g, t, fuel - 1);
          if Patrol(g, s, fuel).2 {
            var k: nat :| LeavesAt(g, IsWall, t, k);
            assert LeavesAt(g, IsWall, s, k + 1);
          }
        } else {
          assert t == Guard(n, s.dir);
          var g' := g.Set(n, AsAsciiByte(s.dir));
          SetSameWalls(g, IsWall, n, AsAsciiByte(s.dir));
          PatrolLeaves(g', t, fuel - 1);
          if Patrol(g, s, fuel).2 {
            var k: nat :| LeavesAt(g', IsWall, t, k);
            LeavesSameWalls(g', g, IsWall, t, k);
            assert LeavesAt(g, IsWall, s, k + 1);
          }
        }
    }
  }

  /** A guard that walks off the grid is seen to leave by a long enough part 1 walk. */
  lemma {:induction false} LeavesPatrol(g: Grid<char>, s: Guard, k: nat)
    requires Walkable(g) && g.InBounds(s.pos) && LeavesAt(g, IsWall, s, k)
    ensures Patrol(g, s, k + 1).2
    decreases k
  {
    if k > 0 {
      var t := Step(g, IsWall, s).value;
      assert Iter(g, IsWall, s, k) == Iter(g, IsWall, t, k - 1);
      var n := g.NextPos(s.pos, s.dir).value;
      if g.At(n) == '#' {
        LeavesPatrol(g, t, k - 1);
      } else {
        var g' := g.Set(n, AsAsciiByte(s.dir));
        SetSameWalls(g, IsWall, n, AsAsciiByte(s.dir));
        assert SameWalls(g, g', IsWall);
        LeavesSameWalls(g, g', IsWall, t, k - 1);
        LeavesPatrol(g', t, k - 1);
      }
    }
  }

  /** The part 1 walk ends (for some fuel) exactly when the guard walks off the grid. */
  lemma {:induction false} PatrolEndsIffLeaves(g: Grid<char>, s: Guard)
    requires Walkable(g) && g.InBounds(s.pos)
    ensures (exists fuel: nat :: Patrol(g, s, fuel).2) <==> Leaves(g, IsWall, s)
  {
    if Leaves(g, IsWall, s) {
      var k: nat :| LeavesAt(g, IsWall, s, k);
      LeavesPatrol(g, s, k);
    }
    if exists fuel: nat :: Patrol(g, s, fuel).2 {
      var fuel: nat :| Patrol(g, s, fuel).2;
      PatrolSound(g, s, fuel);
    }
  }

  /**
   * _part1: start on the first '^' facing up, then walk until the guard
   * leaves the grid, drawing its arrow on every cell it steps onto. None is
   * the unwrap's panic on a grid without '^', the grid then untouched. The
   * source loop is unbounded; here it runs for at most fuel iterations.
   */
  method Part1(grid: BasicGrid<char>, fuel: nat) returns (r: Option<(set<Coord>, bool)>)
    requires Walkable(grid.Value())
    modifies grid.data
    ensures r.None? <==> '^' !in old(grid.data[..])
    ensures r.None? ==> grid.data[..] == old(grid.data[..])
    ensures r.Some? ==>
            var g0 := old(grid.Value());
            var start := Find(g0, '^').value;
            var q := Patrol(g0, Guard(start, Up), fuel);
            grid.Value() == q.0 && r.value.0 == {start} + q.1 && r.value.1 == q.2 && start in r.value.0
  {
    var found := Find(grid.Value(), '^');
    if found.None? {
      return None;
    }
    var start := found.value;
    assert grid.Value().InBounds(start) by {
      var i := FirstIndex(grid.Value().data, '^').value;
      assert grid.Value().IdxToPos(i) == start;
    }
    var visited, left := PatrolLoop(grid, start, fuel);
    r := Some((visited, left));
  }

  /** The while-let loop of _part1, from the start cell facing up. */
  method PatrolLoop(grid: BasicGrid<char>, start: Coord, fuel: nat) returns (visited: set<Coord>, left: bool)
    requires Walkable(grid.Value()) && grid.Value().InBounds(start)
    modifies grid.data
    ensures var q := Patrol(old(grid.Value()), Guard(start, Up), fuel);
            grid.Value() == q.0 && visited == {start} + q.1 && left == q.2 && start in visited
  {
    ghost var r := Patrol(grid.Value(), Guard(start, Up), fuel);
    var s := Guard(start, Up);
    visited := {start};
    left := false;
    var f := fuel;
    var stop := false;
    while !stop
      invariant Walkable(grid.Value()) && grid.Value().InBounds(s.pos)
      invariant stop ==> grid.Value() == r.0 && visited == {start} + r.1 && left == r.2
      invariant !stop ==> PatrolRest(grid.Value(), s, f, visited) == (r.0, {start} + r.1, r.2)
      decreases if stop then 0 else f + 1
    {
      stop, left, s, visited, f := PatrolIteration(grid, s, visited, f);
    }
  }

  /** What the part 1 walk still adds to visited: the final grid, all cells, whether it left. */
  function PatrolRest(g: Grid<char>, s: Guard, fuel: nat, visited: set<Coord>): (Grid<char>, set<Coord>, bool)
    requires Walkable(g) && g.InBounds(s.pos)
  {
    var q := Patrol(g, s, fuel);
    (q.0, visited + q.1, q.2)
  }

  /**
   * One iteration of the _part1 loop: stop when the fuel is spent or the
   * guard faces the edge, turn in front of '#', and otherwise step on,
   * draw the arrow and note the cell.
   */
  method PatrolIteration(grid: BasicGrid<char>, s: Guard, visited: set<Coord>, f: nat)
    returns (stop: bool, left: bool, s': Guard, visited': set<Coord>, f': nat)
    requires Walkable(grid.Value()) && grid.Value().InBounds(s.pos)
    modifies grid.data
    ensures Walkable(grid.Value()) && grid.Value().InBounds(s'.pos)
    ensures stop ==> (grid.Value(), visited', left) == PatrolRest(old(grid.Value()), s, f, visited)
    ensures !stop ==> f' < f && PatrolRest(grid.Value(), s', f', visited') == PatrolRest(old(grid.Value()), s, f, visited)
  {
    stop, left, s', visited', f' := true, false, s, visited, f;
    assert visited + {} == visited;
    if f == 0 {
      return;
    }
    var next := grid.Value().NextPos(s.pos, s.dir);
    if next.None? {
      left := true;
      return;
    }
    var n := next.value;
    stop := false;
    if grid.Value().At(n) == '#' {
      s', f' := Guard(s.pos, TurnRight(s.dir)), f - 1;
      return;
    }
    ghost var rest := Patrol(grid.Value().Set(n, AsAsciiByte(s.dir)), Guard(n, s.dir), f - 1).1;
    assert visited + ({n} + rest) == (visited + {n}) + rest;
    grid.Set(n, AsAsciiByte(s.dir));
    s', visited', f' := Guard(n, s.dir), visited + {n}, f - 1;
  }

  /** Part 2 only asks whether a cell is an obstacle. */
  predicate IsObstructed(c: CellState) {
    c.Obstructed?
  }

  predicate IsStart(c: CellState) {
    c.Start?
  }

  /**
   * The loop of would_loop_if_turn for at most fuel iterations: true when
   * the guard is about to step into a (cell, direction) it has been in,
   * false when it leaves the grid, none when the fuel runs out.
   */
  function LoopsFrom(g: Grid<CellState>, s: Guard, seen: set<Guard>, fuel: nat): Option<bool>
    requires Walkable(g) && g.InBounds(s.pos)
    decreases fuel
  {
    if fuel == 0 then None
    else
      match g.NextPos(s.pos, s.dir)
      case None => Some(false)
      case Some(n) =>
        if g.At(n).Obstructed? then LoopsFrom(g, Guard(s.pos, TurnRight(s.dir)), seen, fuel - 1)
        else if Guard(n, s.dir) in seen then Some(true)
        else LoopsFrom(g, Guard(n, s.dir), seen + {Guard(n, s.dir)}, fuel - 1)
  }

  /** Consecutive states of one walk, each inside the grid. */
  predicate Chain<T>(g: Grid<T>, blocked: T -> bool, trail: seq<Guard>)
    requires Walkable(g)
  {
    (forall i :: 0 <= i < |trail| ==> g.InBounds(trail[i].pos)) &&
    forall i :: 0 <= i < |trail| - 1 ==> Step(g, blocked, trail[i]) == Some(trail[i + 1])
  }

  lemma {:induction false} ChainIter<T>(g: Grid<T>, blocked: T -> bool, trail: seq<Guard>, i: nat, j: nat)
    requires Walkable(g) && Chain(g, blocked, trail) && i <= j < |trail|
    ensures Iter(g, blocked, trail[i], j - i) == Some(trail[j])
    decreases j - i
  {
    if i < j {
      ChainIter(g, blocked, trail, i + 1, j);
    }
  }

  lemma {:induction false} ChainExtend<T>(g: Grid<T>, blocked: T -> bool, trail: seq<Guard>, t: Guard)
    requires Walkable(g) && |trail| > 0 && Chain(g, blocked, trail)
    requires Step(g, blocked, trail[|trail| - 1]) == Some(t)
    ensures Chain(g, blocked, trail + [t]) && (trail + [t])[0] == trail[0]
  {
    var trail' := trail + [t];
    assert forall i :: 0 <= i < |trail| ==> trail'[i] == trail[i];
  }

  /** A walk that steps back into a state it has been in loops. */
  lemma {:induction false} ChainRepeat<T>(g: Grid<T>, blocked: T -> bool, trail: seq<Guard>, t: Guard)
    requires Walkable(g) && |trail| > 0 && Chain(g, blocked, trail) && Chain(g, blocked, trail + [t]) && t in trail
    ensures Cycles(g, blocked, trail[0])
  {
    var trail' := trail + [t];
    var i :| 0 <= i < |trail| && trail[i] == t;
    assert trail'[0] == trail[0] && trail'[i] == t && trail'[|trail|] == t;
    ChainIter(g, blocked, trail', 0, i);
    ChainIter(g, blocked, trail', i, |trail|);
    assert CycleAt(g, blocked, trail[0], i, |trail| - i);
  }

  /**
   * With seen drawn from the walk so far (trail, ending in s), a true
   * answer means the walk from trail[0] loops and a false one that it
   * leaves the grid.
   */
  lemma {:induction false} LoopsFromMeans(g: Grid<CellState>, s: Guard, seen: set<Guard>, fuel: nat, trail: seq<Guard>)
    requires Walkable(g) && |trail| > 0 && Chain(g, IsObstructed, trail) && trail[|trail| - 1] == s
    requires forall x :: x in seen ==> x in trail
    ensures LoopsFrom(g, s, seen, fuel) == Some(true) ==> Cycles(g, IsObstructed, trail[0])
    ensures LoopsFrom(g, s, seen, fuel) == Some(false) ==> Leaves(g, IsObstructed, trail[0])
    decreases fuel
  {
    var last := |trail| - 1;
    if fuel > 0 {
      ChainIter(g, IsObstructed, trail, 0, last);
      match g.NextPos(s.pos, s.dir)
      case None =>
        assert LeavesAt(g, IsObstructed, trail[0], last);
      case Some(n) =>
        var t := Step(g, IsObstructed, s).value;
        var trail' := trail + [t];
        ChainExtend(g, IsObstructed, trail, t);
        if g.At(n).Obstructed? {
          LoopsFromMeans(g, t, seen, fuel - 1, trail');
        } else if t in seen {
          ChainRepeat(g, IsObstructed, trail, t);
        } else {
          LoopsFromMeans(g, t, seen + {t}, fuel - 1, trail');
        }
    }
  }

  /**
   * would_loop_if_turn answers true exactly when an obstacle on next makes
   * the guard at pos walk in a loop, and false exactly when it makes the
   * guard leave the grid.
   */
  lemma {:induction false} WouldLoopMeans(g: Grid<CellState>, pos: Coord, next: Coord, dir: Dir, fuel: nat)
    requires Walkable(g) && g.InBounds(pos) && g.NextPos(pos, dir) == Some(next)
    ensures var h := g.Set(next, Obstructed);
            var r := LoopsFrom(h, Guard(pos, TurnRight(dir)), {Guard(pos, dir)}, fuel);
            Walkable(h) &&
            (r == Some(true) <==> r.Some? && Cycles(h, IsObstructed, Guard(pos, dir))) &&
            (r == Some(false) <==> r.Some? && Leaves(h, IsObstructed, Guard(pos, dir)))
  {
    var h := g.Set(next, Obstructed);
    var s0, s1 := Guard(pos, dir), Guard(pos, TurnRight(dir));
    var trail := [s0, s1];
    assert trail[0] == s0 && trail[1] == s1;
    TurnChain(g, pos, next, dir);
    LoopsFromMeans(h, s1, {s0}, fuel, trail);
    CyclesNotLeaves(h, IsObstructed, s0);
    Exclusive(LoopsFrom(h, s1, {s0}, fuel), Cycles(h, IsObstructed, s0), Leaves(h, IsObstructed, s0));
  }

  /** An answer that implies one of two exclusive outcomes is decided by them. */
  lemma {:induction false} Exclusive(r: Option<bool>, yes: bool, no: bool)
    requires r == Some(true) ==> yes
    requires r == Some(false) ==> no
    requires yes ==> !no
    ensures r == Some(true) <==> r.Some? && yes
    ensures r == Some(false) <==> r.Some? && no
  {
    match r
    case None =>
    case Some(b) => assert r == Some(b);
  }

  /** With next obstructed, the first iteration from pos is the right turn. */
  lemma {:induction false} TurnChain(g: Grid<CellState>, pos: Coord, next: Coord, dir: Dir)
    requires Walkable(g) && g.InBounds(pos) && g.NextPos(pos, dir) == Some(next)
    ensures Walkable(g.Set(next, Obstructed))
    ensures Chain(g.Set(next, Obstructed), IsObstructed, [Guard(pos, dir), Guard(pos, TurnRight(dir))])
  {
    var h := g.Set(next, Obstructed);
    assert Step(h, IsObstructed, Guard(pos, dir)) == Some(Guard(pos, TurnRight(dir)));
  }

  /**
   * would_loop_if_turn: on a copy of the grid with next obstructed, turn
   * right and walk, recording passes on the copy, until the guard repeats
   * a (cell, direction) or leaves. The caller's grid is not modified.
   */
  method WouldLoopIfTurn(grid: BasicGrid<CellState>, pos: Coord, next: Coord, dir: Dir, step: nat, fuel: nat)
    returns (r: Option<bool>)
    requires Walkable(grid.Value()) && grid.Value().InBounds(pos)
    requires grid.Value().NextPos(pos, dir) == Some(next)
    ensures r == LoopsFrom(grid.Value().Set(next, Obstructed), Guard(pos, TurnRight(dir)), {Guard(pos, dir)}, fuel)
  {
    var loopGrid := new BasicGrid.Clone(grid);
    loopGrid.Set(next, Obstructed);
    ghost var h := loopGrid.Value();
    ghost var answer := LoopsFrom(h, Guard(pos, TurnRight(dir)), {Guard(pos, dir)}, fuel);
    var seen := {Guard(pos, dir)};
    var s, st := Guard(pos, TurnRight(dir)), step;
    var f := fuel;
    r := None;
    var stop := false;
    while !stop
      invariant Walkable(loopGrid.Value()) && SameWalls(loopGrid.Value(), h, IsObstructed) && h.InBounds(s.pos)
      invariant stop ==> r == answer
      invariant !stop ==> LoopsFrom(h, s, seen, f) == answer
      decreases if stop then 0 else f + 1
    {
      stop, r, s, seen, st, f := LoopIteration(loopGrid, h, s, seen, st, f);
    }
  }

  /**
   * One iteration of the loop of would_loop_if_turn on its own copy of the
   * grid, whose obstacles are those of h.
   */
  method LoopIteration(loopGrid: BasicGrid<CellState>, ghost h: Grid<CellState>, s: Guard, seen: set<Guard>, st: nat, f: nat)
    returns (stop: bool, r: Option<bool>, s': Guard, seen': set<Guard>, st': nat, f': nat)
    requires Walkable(loopGrid.Value()) && SameWalls(loopGrid.Value(), h, IsObstructed) && h.InBounds(s.pos)
    modifies loopGrid.data
    ensures Walkable(loopGrid.Value()) && SameWalls(loopGrid.Value(), h, IsObstructed) && h.InBounds(s'.pos)
    ensures stop ==> r == LoopsFrom(h, s, seen, f)
    ensures !stop ==> f' < f && LoopsFrom(h, s', seen', f') == LoopsFrom(h, s, seen, f)
  {
    stop, r, s', seen', st', f' := true, None, s, seen, st, f;
    if f == 0 {
      return;
    }
    var nextPos := loopGrid.Value().NextPos(s.pos, s.dir);
    if nextPos.None? {
      r := Some(false);
      return;
    }
    var n := nextPos.value;
    SameWallsAt(loopGrid.Value(), h, IsObstructed, n);
    if loopGrid.Value().At(n).Obstructed? {
      stop, s', f' := false, Guard(s.pos, TurnRight(s.dir)), f - 1;
      return;
    }
    if Guard(n, s.dir) in seen {
      r := Some(true);
      return;
    }
    SetSameWalls(loopGrid.Value(), IsObstructed, n, Visit(loopGrid.Value().At(n), st, s.dir));
    loopGrid.Set(n, Visit(loopGrid.Value().At(n), st, s.dir));
    stop, s', seen', st', f' := false, Guard(n, s.dir), seen + {Guard(n, s.dir)}, st + 1, f - 1;
  }

  /**
   * The part2 loop for at most fuel iterations (each would_loop_if_turn
   * given budget iterations): the grid with every pass recorded, and the
   * cells found to trap the guard. Only cells not yet on the path are
   * tried, and a try that runs out of fuel counts as no loop.
   */
  function Walk2(g: Grid<CellState>, s: Guard, steps: nat, seen: set<Coord>, loops: set<Coord>, fuel: nat, budget: nat)
    : (r: (Grid<CellState>, set<Coord>))
    requires Walkable(g) && g.InBounds(s.pos)
    ensures Walkable(r.0) && loops <= r.1
    decreases fuel
  {
    if fuel == 0 then (g, loops)
    else
      match g.NextPos(s.pos, s.dir)
      case None => (g, loops)
      case Some(n) =>
        if g.At(n).Obstructed? then Walk2(g, Guard(s.pos, TurnRight(s.dir)), steps, seen, loops, fuel - 1, budget)
        else
          var found := n !in seen && LoopsFrom(g.Set(n, Obstructed), Guard(s.pos, TurnRight(s.dir)), {s}, budget) == Some(true);
          Walk2(g.Set(n, Visit(g.At(n), steps, s.dir)), Guard(n, s.dir), steps + 1, seen + {n},
                if found then loops + {n} else loops, fuel - 1, budget)
  }

  /**
   * Whether the part2 loop ends, the guard facing the edge, within fuel
   * iterations, with every would_loop_if_turn it tries answered within
   * budget iterations.
   */
  predicate Walk2Done(g: Grid<CellState>, s: Guard, steps: nat, seen: set<Coord>, fuel: nat, budget: nat)
    requires Walkable(g) && g.InBounds(s.pos)
    decreases fuel
  {
    fuel > 0 &&
    match g.NextPos(s.pos, s.dir)
    case None => true
    case Some(n) =>
      if g.At(n).Obstructed? then Walk2Done(g, Guard(s.pos, TurnRight(s.dir)), steps, seen, fuel - 1, budget)
      else
        (n in seen || LoopsFrom(g.Set(n, Obstructed), Guard(s.pos, TurnRight(s.dir)), {s}, budget).Some?) &&
        Walk2Done(g.Set(n, Visit(g.At(n), steps, s.dir)), Guard(n, s.dir), steps + 1, seen + {n}, fuel - 1, budget)
  }

  /** Once would_loop_if_turn's loop answers within the fuel, more fuel gives the same answer. */
  lemma {:induction false} LoopsFromMore(g: Grid<CellState>, s: Guard, seen: set<Guard>, fuel: nat, more: nat)
    requires Walkable(g) && g.InBounds(s.pos)
    requires LoopsFrom(g, s, seen, fuel).Some? && fuel <= more
    ensures LoopsFrom(g, s, seen, more) == LoopsFrom(g, s, seen, fuel)
    decreases fuel
  {
    match g.NextPos(s.pos, s.dir)
    case None =>
    case Some(n) =>
      if g.At(n).Obstructed? {
        LoopsFromMore(g, Guard(s.pos, TurnRight(s.dir)), seen, fuel - 1, more - 1);
      } else if Guard(n, s.dir) !in seen {
        LoopsFromMore(g, Guard(n, s.dir), seen + {Guard(n, s.dir)}, fuel - 1, more - 1);
      }
  }

  /**
   * Once the part 2 walk ends with every try answered, more fuel and a
   * larger budget give the same grid and the same trapping cells.
   */
  lemma {:induction false} Walk2More(g: Grid<CellState>, s: Guard, steps: nat, seen: set<Coord>, loops: set<Coord>,
                                     fuel: nat, budget: nat, more: nat, budget': nat)
    requires Walkable(g) && g.InBounds(s.pos)
    requires Walk2Done(g, s, steps, seen, fuel, budget) && fuel <= more && budget <= budget'
    ensures Walk2Done(g, s, steps, seen, more, budget')
    ensures Walk2(g, s, steps, seen, loops, more, budget') == Walk2(g, s, steps, seen, loops, fuel, budget)
    decreases fuel
  {
    match g.NextPos(s.pos, s.dir)
    case None =>
    case Some(n) =>
      if g.At(n).Obstructed? {
        Walk2More(g, Guard(s.pos, TurnRight(s.dir)), steps, seen, loops, fuel - 1, budget, more - 1, budget');
      } else {
        var h, t := g.Set(n, Obstructed), Guard(s.pos, TurnRight(s.dir));
        var found := n !in seen && LoopsFrom(h, t, {s}, budget) == Some(true);
        if n !in seen {
          LoopsFromMore(h, t, {s}, budget, budget');
        }
        Walk2More(g.Set(n, Visit(g.At(n), steps, s.dir)), Guard(n, s.dir), steps + 1, seen + {n},
                  if found then loops + {n} else loops, fuel - 1, budget, more - 1, budget');
      }
  }

  /** Part 2 records passes only on open cells: the obstacles stay where they were. */
  lemma {:induction false} Walk2KeepsWalls(g: Grid<CellState>, s: Guard, steps: nat, seen: set<Coord>, loops: set<Coord>,
                                           fuel: nat, budget: nat)
    requires Walkable(g) && g.InBounds(s.pos)
    ensures SameWalls(Walk2(g, s, steps, seen, loops, fuel, budget).0, g, IsObstructed)
    decreases fuel
  {
    if fuel > 0 {
      match g.NextPos(s.pos, s.dir)
      case None =>
      case Some(n) =>
        if g.At(n).Obstructed? {
          Walk2KeepsWalls(g, Guard(s.pos, TurnRight(s.dir)), steps, seen, loops, fuel - 1, budget);
        } else {
          var found := n !in seen && LoopsFrom(g.Set(n, Obstructed), Guard(s.pos, TurnRight(s.dir)), {s}, budget) == Some(true);
          SetSameWalls(g, IsObstructed, n, Visit(g.At(n), steps, s.dir));
          Walk2KeepsWalls(g.Set(n, Visit(g.At(n), steps, s.dir)), Guard(n, s.dir), steps + 1, seen + {n},
                          if found then loops + {n} else loops, fuel - 1, budget);
        }
    }
  }

  /** One step of the part2 loop onto the open cell n. */
  lemma {:induction false} Walk2Move(g: Grid<CellState>, s: Guard, steps: nat, seen: set<Coord>, loops: set<Coord>, fuel: nat,
                  budget: nat, n: Coord, found: bool, g': Grid<CellState>, loops': set<Coord>)
    requires Walkable(g) && g.InBounds(s.pos) && fuel > 0
    requires g.NextPos(s.pos, s.dir) == Some(n) && !g.At(n).Obstructed?
    requires found == (n !in seen && LoopsFrom(g.Set(n, Obstructed), Guard(s.pos, TurnRight(s.dir)), {s}, budget) == Some(true))
    requires g' == g.Set(n, Visit(g.At(n), steps, s.dir)) && loops' == if found then loops + {n} else loops
    ensures Walkable(g') && g'.InBounds(n)
    ensures Walk2(g, s, steps, seen, loops, fuel, budget) == Walk2(g', Guard(n, s.dir), steps + 1, seen + {n}, loops', fuel - 1, budget)
  {
  }

  /** An open cell of g where one more obstacle sends the guard, standing as t, round a loop. */
  ghost predicate Traps(g: Grid<CellState>, p: Coord, t: Guard) {
    Walkable(g) && g.InBounds(p) && !g.At(p).Obstructed? && g.InBounds(t.pos) &&
    Cycles(g.Set(p, Obstructed), IsObstructed, t)
  }

  lemma {:induction false} TrapsSameWalls(g1: Grid<CellState>, g2: Grid<CellState>, p: Coord, t: Guard)
    requires Traps(g1, p, t) && SameWalls(g1, g2, IsObstructed)
    ensures Traps(g2, p, t)
  {
    var h1, h2 := g1.Set(p, Obstructed), g2.Set(p, Obstructed);
    SameWallsAt(g1, g2, IsObstructed, p);
    ObstructSameWalls(g1, g2, p);
    CyclesSameWalls(h1, h2, IsObstructed, t);
  }

  /**
   * Every cell part 2 adds was off the path walked so far, is open, and
   * an obstacle there traps the guard from where it stood.
   */
  lemma {:induction false} Walk2Sound(g: Grid<CellState>, s: Guard, steps: nat, seen: set<Coord>, loops: set<Coord>,
                                      fuel: nat, budget: nat)
    requires Walkable(g) && g.InBounds(s.pos)
    ensures forall p :: p in Walk2(g, s, steps, seen, loops, fuel, budget).1 && p !in loops ==>
      p !in seen && exists t: Guard :: Traps(g, p, t)
    decreases fuel
  {
    if fuel > 0 {
      match g.NextPos(s.pos, s.dir)
      case None =>
      case Some(n) =>
        if g.At(n).Obstructed? {
          Walk2Sound(g, Guard(s.pos, TurnRight(s.dir)), steps, seen, loops, fuel - 1, budget);
        } else {
          var h := g.Set(n, Obstructed);
          var found := n !in seen && LoopsFrom(h, Guard(s.pos, TurnRight(s.dir)), {s}, budget) == Some(true);
          var g' := g.Set(n, Visit(g.At(n), steps, s.dir));
          var loops' := if found then loops + {n} else loops;
          SetSameWalls(g, IsObstructed, n, Visit(g.At(n), steps, s.dir));
          Walk2Sound(g', Guard(n, s.dir), steps + 1, seen + {n}, loops', fuel - 1, budget);
          if found {
            WouldLoopMeans(g, s.pos, n, s.dir, budget);
            assert Traps(g, n, s);
          }
          forall p | p in Walk2(g, s, steps, seen, loops, fuel, budget).1 && p !in loops
            ensures p !in seen && exists t: Guard :: Traps(g, p, t)
          {
            if p != n {
              var t: Guard :| Traps(g', p, t);
              assert SameWalls(g', g, IsObstructed);
              TrapsSameWalls(g', g, p, t);
            }
          }
        }
    }
  }

  /** Obstructing the same cell of two grids with the same obstacles keeps them so. */
  lemma {:induction false} ObstructSameWalls(g1: Grid<CellState>, g2: Grid<CellState>, p: Coord)
    requires SameWalls(g1, g2, IsObstructed) && g1.PosToIdx(p) < |g1.data|
    ensures SameWalls(g1.Set(p, Obstructed), g2.Set(p, Obstructed), IsObstructed)
  {
    var h1, h2 := g1.Set(p, Obstructed), g2.Set(p, Obstructed);
    var k := g1.PosToIdx(p);
    assert g2.PosToIdx(p) == k;
    assert h1.data == g1.data[k := Obstructed];
    assert h2.data == g2.data[k := Obstructed];
    forall i | 0 <= i < |h1.data|
      ensures WallAt(h1, IsObstructed, i) == WallAt(h2, IsObstructed, i)
    {
      if i != k {
        assert WallAt(g1, IsObstructed, i) == WallAt(g2, IsObstructed, i);
      }
    }
  }

  /** The answer of would_loop_if_turn's loop depends only on where the obstacles are. */
  lemma {:induction false} LoopsFromSameWalls(g1: Grid<CellState>, g2: Grid<CellState>, s: Guard, seen: set<Guard>, fuel: nat)
    requires Walkable(g1) && g1.InBounds(s.pos) && SameWalls(g1, g2, IsObstructed)
    ensures Walkable(g2) && LoopsFrom(g1, s, seen, fuel) == LoopsFrom(g2, s, seen, fuel)
    decreases fuel
  {
    IterSameWalls(g1, g2, IsObstructed, s, 0);
    if fuel > 0 {
      match g1.NextPos(s.pos, s.dir)
      case None =>
      case Some(n) =>
        assert g1.At(n).Obstructed? == g2.At(n).Obstructed?;
        if g1.At(n).Obstructed? {
          LoopsFromSameWalls(g1, g2, Guard(s.pos, TurnRight(s.dir)), seen, fuel - 1);
        } else {
          LoopsFromSameWalls(g1, g2, Guard(n, s.dir), seen + {Guard(n, s.dir)}, fuel - 1);
        }
    }
  }

  /** An obstacle on a cell no state of a walk stands on leaves that walk as it was. */
  lemma {:induction false} ChainAvoids(g: Grid<CellState>, trail: seq<Guard>, p: Coord)
    requires Walkable(g) && g.InBounds(p) && !g.At(p).Obstructed? && Chain(g, IsObstructed, trail)
    requires forall i :: 0 <= i < |trail| ==> trail[i].pos != p
    ensures Walkable(g.Set(p, Obstructed)) && Chain(g.Set(p, Obstructed), IsObstructed, trail)
  {
    var h := g.Set(p, Obstructed);
    forall i | 0 <= i < |trail| - 1 ensures Step(h, IsObstructed, trail[i]) == Some(trail[i + 1]) {
      assert Step(g, IsObstructed, trail[i]) == Some(trail[i + 1]);
      assert trail[i + 1].pos != p;
      match g.NextPos(trail[i].pos, trail[i].dir)
      case None =>
      case Some(c) =>
        assert h.At(c) == g.At(c);
    }
  }

  /** A loop reached from the end of a walk is reached from its start. */
  lemma {:induction false} CyclesBack<T>(g: Grid<T>, blocked: T -> bool, trail: seq<Guard>)
    requires Walkable(g) && |trail| > 0 && Chain(g, blocked, trail)
    requires Cycles(g, blocked, trail[|trail| - 1])
    ensures Cycles(g, blocked, trail[0])
  {
    var last := |trail| - 1;
    ChainIter(g, blocked, trail, 0, last);
    var i: nat, k: nat :| CycleAt(g, blocked, trail[last], i, k);
    IterAdd(g, blocked, trail[0], last, i);
    assert CycleAt(g, blocked, trail[0], last + i, k);
  }

  /**
   * When would_loop_if_turn says true for the cell n ahead of the guard and
   * the walk from trail[0] to the guard never stood on n, an obstacle on n
   * traps the guard from trail[0].
   */
  lemma {:induction false} FoundTraps(g0: Grid<CellState>, g: Grid<CellState>, trail: seq<Guard>, n: Coord, budget: nat)
    requires Walkable(g) && SameWalls(g, g0, IsObstructed) && Walkable(g0)
    requires |trail| > 0 && Chain(g0, IsObstructed, trail)
    requires forall i :: 0 <= i < |trail| ==> trail[i].pos != n
    requires var s := trail[|trail| - 1];
      g.InBounds(s.pos) && g.NextPos(s.pos, s.dir) == Some(n) && !g.At(n).Obstructed? &&
      LoopsFrom(g.Set(n, Obstructed), Guard(s.pos, TurnRight(s.dir)), {s}, budget) == Some(true)
    ensures Traps(g0, n, trail[0])
  {
    var s := trail[|trail| - 1];
    WouldLoopMeans(g, s.pos, n, s.dir, budget);
    var h, h0 := g.Set(n, Obstructed), g0.Set(n, Obstructed);
    ObstructSameWalls(g, g0, n);
    CyclesSameWalls(h, h0, IsObstructed, s);
    SameWallsAt(g, g0, IsObstructed, n);
    ChainAvoids(g0, trail, n);
    CyclesBack(h0, IsObstructed, trail);
  }

  /**
   * Every cell part 2 adds was off the path walked so far, is open, and an
   * obstacle there traps the guard from the start of the walk, trail[0],
   * on the grid g0 the walk began on.
   */
  lemma {:induction false} Walk2Traps(g0: Grid<CellState>, g: Grid<CellState>, s: Guard, steps: nat, seen: set<Coord>,
                                      loops: set<Coord>, fuel: nat, budget: nat, trail: seq<Guard>)
    requires Walkable(g) && g.InBounds(s.pos) && SameWalls(g, g0, IsObstructed) && Walkable(g0)
    requires |trail| > 0 && Chain(g0, IsObstructed, trail) && trail[|trail| - 1] == s
    requires forall i :: 0 <= i < |trail| ==> trail[i].pos in seen
    ensures forall p :: p in Walk2(g, s, steps, seen, loops, fuel, budget).1 && p !in loops ==>
      p !in seen && Traps(g0, p, trail[0])
    decreases fuel
  {
    if fuel > 0 {
      match g.NextPos(s.pos, s.dir)
      case None =>
      case Some(n) =>
        IterSameWalls(g, g0, IsObstructed, s, 0);
        var t := Step(g0, IsObstructed, s).value;
        ChainExtend(g0, IsObstructed, trail, t);
        var trail' := trail + [t];
        assert forall i :: 0 <= i < |trail| ==> trail'[i] == trail[i];
        if g.At(n).Obstructed? {
          Walk2Traps(g0, g, Guard(s.pos, TurnRight(s.dir)), steps, seen, loops, fuel - 1, budget, trail');
        } else {
          var found := n !in seen && LoopsFrom(g.Set(n, Obstructed), Guard(s.pos, TurnRight(s.dir)), {s}, budget) == Some(true);
          var g' := g.Set(n, Visit(g.At(n), steps, s.dir));
          var loops' := if found then loops + {n} else loops;
          SetSameWalls(g, IsObstructed, n, Visit(g.At(n), steps, s.dir));
          Walk2Traps(g0, g', Guard(n, s.dir), steps + 1, seen + {n}, loops', fuel - 1, budget, trail');
          if found {
            FoundTraps(g0, g, trail, n, budget);
          }
        }
    }
  }

  /** Every cell part2 counts is not the start, and an obstacle there traps the guard from the start, facing up. */
  lemma {:induction false} Part2Traps(g0: Grid<CellState>, start: Coord, fuel: nat)
    requires Walkable(g0) && g0.InBounds(start)
    ensures forall p :: p in Walk2(g0, Guard(start, Up), 0, {start}, {}, fuel, fuel).1 ==>
      p != start && Traps(g0, p, Guard(start, Up))
  {
    var trail := [Guard(start, Up)];
    assert Chain(g0, IsObstructed, trail);
    Walk2Traps(g0, g0, Guard(start, Up), 0, {start}, {}, fuel, fuel, trail);
  }

  /**
   * The guard walks trail on g and then steps onto p for the first time:
   * no state of trail stands on p, and p is not in seen.
   */
  ghost predicate FirstEntry(g: Grid<CellState>, trail: seq<Guard>, seen: set<Coord>, p: Coord)
    requires Walkable(g)
  {
    |trail| > 0 && Chain(g, IsObstructed, trail) && p !in seen &&
    (forall i :: 0 <= i < |trail| ==> trail[i].pos != p) &&
    Step(g, IsObstructed, trail[|trail| - 1]) == Some(Guard(p, trail[|trail| - 1].dir))
  }

  /**
   * The guard on g, whose walls are those of g0, walks trail and then
   * steps onto p for the first time, within the fuel, from a state where
   * would_loop_if_turn says true.
   */
  ghost predicate CompleteFrom(g0: Grid<CellState>, g: Grid<CellState>, seen: set<Coord>, fuel: nat, budget: nat,
                               trail: seq<Guard>, p: Coord)
  {
    Walkable(g) && SameWalls(g, g0, IsObstructed) && Walkable(g0) &&
    FirstEntry(g0, trail, seen, p) && |trail| <= fuel &&
    var x := trail[|trail| - 1];
    g0.PosToIdx(p) < |g0.data| &&
    LoopsFrom(g0.Set(p, Obstructed), Guard(x.pos, TurnRight(x.dir)), {x}, budget) == Some(true)
  }

  /**
   * Conversely, a cell the guard first steps onto within the fuel, from a
   * state where would_loop_if_turn says true, is counted by part 2.
   */
  lemma {:induction false} Walk2Complete(g0: Grid<CellState>, g: Grid<CellState>, steps: nat, seen: set<Coord>,
                                         loops: set<Coord>, fuel: nat, budget: nat, trail: seq<Guard>, s: Guard, p: Coord)
    requires CompleteFrom(g0, g, seen, fuel, budget, trail, p) && trail[0] == s
    ensures g.InBounds(s.pos) && p in Walk2(g, s, steps, seen, loops, fuel, budget).1
    decreases |trail|
  {
    if |trail| <= 1 {
      CompleteHere(g0, g, steps, seen, loops, fuel, budget, trail, p);
    } else {
      var g', steps', seen', loops' := CompleteStep(g0, g, steps, seen, loops, fuel, budget, trail, s, p);
      Walk2Complete(g0, g', steps', seen', loops', fuel - 1, budget, trail[1..], trail[1], p);
    }
  }

  /** A trail of one state: the first iteration steps onto p. */
  lemma {:induction false} CompleteHere(g0: Grid<CellState>, g: Grid<CellState>, steps: nat, seen: set<Coord>,
                                        loops: set<Coord>, fuel: nat, budget: nat, trail: seq<Guard>, p: Coord)
    requires CompleteFrom(g0, g, seen, fuel, budget, trail, p) && |trail| <= 1
    ensures g.InBounds(trail[0].pos) && p in Walk2(g, trail[0], steps, seen, loops, fuel, budget).1
  {
    EnterHere(g0, g, trail[0], steps, seen, loops, fuel, budget, p);
  }

  /** One iteration of the part 2 walk along a first entry: the rest of the walk, from trail[1]. */
  lemma {:induction false} CompleteStep(g0: Grid<CellState>, g: Grid<CellState>, steps: nat, seen: set<Coord>,
                     loops: set<Coord>, fuel: nat, budget: nat, trail: seq<Guard>, s: Guard, p: Coord)
    returns (g': Grid<CellState>, steps': nat, seen': set<Coord>, loops': set<Coord>)
    requires CompleteFrom(g0, g, seen, fuel, budget, trail, p) && 1 < |trail| && trail[0] == s
    ensures 1 <= fuel && CompleteFrom(g0, g', seen', fuel - 1, budget, trail[1..], p) && trail[1..][0] == trail[1]
    ensures g.InBounds(s.pos) && g'.InBounds(trail[1].pos)
    ensures p in Walk2(g', trail[1], steps', seen', loops', fuel - 1, budget).1 ==>
            p in Walk2(g, s, steps, seen, loops, fuel, budget).1
  {
    var t := trail[1];
    IterSameWalls(g, g0, IsObstructed, s, 0);
    assert Step(g0, IsObstructed, s) == Some(t);
    var n := g.NextPos(s.pos, s.dir).value;
    var trail' := trail[1..];
    assert forall i :: 0 <= i < |trail'| ==> trail'[i] == trail[i + 1];
    if g.At(n).Obstructed? {
      assert t == Guard(s.pos, TurnRight(s.dir));
      g', steps', seen', loops' := g, steps, seen, loops;
    } else {
      assert t == Guard(n, s.dir);
      var found := n !in seen && LoopsFrom(g.Set(n, Obstructed), Guard(s.pos, TurnRight(s.dir)), {s}, budget) == Some(true);
      g', steps', seen' := g.Set(n, Visit(g.At(n), steps, s.dir)), steps + 1, seen + {n};
      loops' := if found then loops + {n} else loops;
      Walk2Move(g, s, steps, seen, loops, fuel, budget, n, found, g', loops');
      SetSameWalls(g, IsObstructed, n, Visit(g.At(n), steps, s.dir));
    }
    assert trail'[|trail'| - 1] == trail[|trail| - 1];
  }

  /** The first iteration steps onto p, where would_loop_if_turn says true: p is counted. */
  lemma {:induction false} EnterHere(g0: Grid<CellState>, g: Grid<CellState>, s: Guard, steps: nat, seen: set<Coord>,
                  loops: set<Coord>, fuel: nat, budget: nat, p: Coord)
    requires Walkable(g) && g.InBounds(s.pos) && SameWalls(g, g0, IsObstructed) && Walkable(g0)
    requires 0 < fuel && p !in seen && Step(g0, IsObstructed, s) == Some(Guard(p, s.dir)) && p != s.pos
    requires g0.PosToIdx(p) < |g0.data| &&
      LoopsFrom(g0.Set(p, Obstructed), Guard(s.pos, TurnRight(s.dir)), {s}, budget) == Some(true)
    ensures p in Walk2(g, s, steps, seen, loops, fuel, budget).1
  {
    IterSameWalls(g, g0, IsObstructed, s, 0);
    assert g.NextPos(s.pos, s.dir) == Some(p) && !g.At(p).Obstructed?;
    ObstructSameWalls(g0, g, p);
    LoopsFromSameWalls(g0.Set(p, Obstructed), g.Set(p, Obstructed), Guard(s.pos, TurnRight(s.dir)), {s}, budget);
  }

  /**
   * part2 counts every cell the guard, walking from the start facing up,
   * first steps onto within the fuel from a state where
   * would_loop_if_turn says true.
   */
  lemma {:induction false} Part2Complete(g0: Grid<CellState>, start: Coord, fuel: nat, trail: seq<Guard>, p: Coord)
    requires Walkable(g0) && FirstEntry(g0, trail, {start}, p) && trail[0] == Guard(start, Up) && |trail| <= fuel
    requires var x := trail[|trail| - 1];
      g0.PosToIdx(p) < |g0.data| &&
      LoopsFrom(g0.Set(p, Obstructed), Guard(x.pos, TurnRight(x.dir)), {x}, fuel) == Some(true)
    ensures g0.InBounds(start) && p in Walk2(g0, Guard(start, Up), 0, {start}, {}, fuel, fuel).1
  {
    Walk2Complete(g0, g0, 0, {start}, {}, fuel, fuel, trail, Guard(start, Up), p);
  }

  /**
   * part2: the single Start cell is where the guard begins, facing up;
   * each step onto a cell not yet walked tries an obstacle there first.
   * The answer is the number of distinct trapping cells. None where the
   * source's assert finds no start cell or several, and None when the walk
   * or one of its tries runs out of fuel.
   */
  method Part2(grid: BasicGrid<CellState>, fuel: nat) returns (count: Option<nat>)
    requires Walkable(grid.Value())
    modifies grid.data
    ensures |FindWith(old(grid.Value()), IsStart)| != 1 ==> count.None? && grid.data[..] == old(grid.data[..])
    ensures |FindWith(old(grid.Value()), IsStart)| == 1 ==>
            var g0 := old(grid.Value());
            var start := FindWith(g0, IsStart)[0];
            var r := Walk2(g0, Guard(start, Up), 0, {start}, {}, fuel, fuel);
            g0.InBounds(start) && grid.Value() == r.0 &&
            (count.Some? <==> Walk2Done(g0, Guard(start, Up), 0, {start}, fuel, fuel)) &&
            (count.Some? ==> count.value == |r.1|)
  {
    var candidates := FindWith(grid.Value(), IsStart);
    if |candidates| != 1 {
      return None;
    }
    var loopPos, done := Walk2Loop(grid, candidates[0], fuel);
    count := if done then Some(|loopPos|) else None;
  }

  /** The while loop of part2, from the start cell; done tells whether it ended with every try answered. */
  method Walk2Loop(grid: BasicGrid<CellState>, start: Coord, fuel: nat) returns (loopPos: set<Coord>, done: bool)
    requires Walkable(grid.Value()) && grid.Value().InBounds(start)
    modifies grid.data
    ensures var r := Walk2(old(grid.Value()), Guard(start, Up), 0, {start}, {}, fuel, fuel);
            grid.Value() == r.0 && loopPos == r.1
    ensures done == Walk2Done(old(grid.Value()), Guard(start, Up), 0, {start}, fuel, fuel)
  {
    ghost var r := Walk2(grid.Value(), Guard(start, Up), 0, {start}, {}, fuel, fuel);
    ghost var d := Walk2Done(grid.Value(), Guard(start, Up), 0, {start}, fuel, fuel);
    var s := Guard(start, Up);
    var steps: nat := 0;
    loopPos := {};
    var seen := {start};
    var f := fuel;
    var stop := false;
    done := true;
    while !stop
      invariant Walkable(grid.Value()) && grid.Value().InBounds(s.pos)
      invariant stop ==> (grid.Value(), loopPos) == r && done == d
      invariant !stop ==> Walk2(grid.Value(), s, steps, seen, loopPos, f, fuel) == r &&
                          (done && Walk2Done(grid.Value(), s, steps, seen, f, fuel)) == d
      decreases if stop then 0 else f + 1
    {
      var answered;
      stop, answered, s, steps, seen, loopPos, f := Walk2Iteration(grid, s, steps, seen, loopPos, f, fuel);
      done := done && answered;
    }
  }

  /**
   * One iteration of the part2 loop: stop when the fuel is spent or the
   * guard faces the edge, turn in front of an obstacle, and otherwise try
   * an obstacle on the next cell if it is new, record the pass and step.
   */
  method Walk2Iteration(grid: BasicGrid<CellState>, s: Guard, steps: nat, seen: set<Coord>, loopPos: set<Coord>,
                        f: nat, budget: nat)
    returns (stop: bool, answered: bool, s': Guard, steps': nat, seen': set<Coord>, loopPos': set<Coord>, f': nat)
    requires Walkable(grid.Value()) && grid.Value().InBounds(s.pos)
    modifies grid.data
    ensures Walkable(grid.Value()) && grid.Value().InBounds(s'.pos)
    ensures stop ==> (grid.Value(), loopPos') == Walk2(old(grid.Value()), s, steps, seen, loopPos, f, budget)
    ensures !stop ==> f' < f && Walk2(grid.Value(), s', steps', seen', loopPos', f', budget) ==
                               Walk2(old(grid.Value()), s, steps, seen, loopPos, f, budget)
    ensures stop ==> answered == Walk2Done(old(grid.Value()), s, steps, seen, f, budget)
    ensures !stop ==> (answered && Walk2Done(grid.Value(), s', steps', seen', f', budget)) ==
                      Walk2Done(old(grid.Value()), s, steps, seen, f, budget)
  {
    ghost var g := grid.Value();
    stop, answered, s', steps', seen', loopPos', f' := true, false, s, steps, seen, loopPos, f;
    if f == 0 {
      return;
    }
    answered := true;
    var next := grid.Value().NextPos(s.pos, s.dir);
    if next.None? {
      return;
    }
    var n := next.value;
    stop := false;
    if grid.Value().At(n).Obstructed? {
      s', f' := Guard(s.pos, TurnRight(s.dir)), f - 1;
      return;
    }
    var found := false;
    if n !in seen {
      var loops := WouldLoopIfTurn(grid, s.pos, n, s.dir, steps, budget);
      found := loops == Some(true);
      answered := loops.Some?;
    }
    loopPos' := if found then loopPos + {n} else loopPos;
    ghost var g' := g.Set(n, Visit(g.At(n), steps, s.dir));
    Walk2Move(g, s, steps, seen, loopPos, f, budget, n, found, g', loopPos');
    grid.Set(n, Visit(grid.Value().At(n), steps, s.dir));
    s', steps', seen', f' := Guard(n, s.dir), steps + 1, seen + {n}, f - 1;
  }
}
