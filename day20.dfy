/**
 * src/bin/d20.rs: the race track. The single track from the start tile to
 * the end tile is traced step by step; a cheat jumps from one track tile to
 * another within a given distance and saves the steps it skips.
 */
module Day20 {
  import opened Wrappers
  import opened Utils

  datatype GridPoint = Wall | Open | Start | End

  predicate IsTrackByte(b: char) {
    b == '#' || b == '.' || b == 'S' || b == 'E'
  }

  function Symbol(p: GridPoint): char {
    match p
    case Wall => '#'
    case Open => '.'
    case Start => 'S'
    case End => 'E'
  }

  /** From<u8>: decode one input byte; every other byte panics. */
  function PointOf(b: char): (p: GridPoint)
    requires IsTrackByte(b)
    ensures Symbol(p) == b
  {
    if b == '#' then Wall else if b == '.' then Open else if b == 'S' then Start else End
  }

  lemma {:induction false} PointOfSymbol(p: GridPoint)
    ensures PointOf(Symbol(p)) == p
  {
  }

  /** manhattan_len: |dc| + |dr|. */
  function ManhattanLen(c1: Coord, c2: Coord): (n: nat)
    ensures n == 0 <==> c1 == c2
  {
    (if c1.col >= c2.col then c1.col - c2.col else c2.col - c1.col) +
    (if c1.row >= c2.row then c1.row - c2.row else c2.row - c1.row)
  }

  lemma {:induction false} ManhattanSymmetric(a: Coord, b: Coord)
    ensures ManhattanLen(a, b) == ManhattanLen(b, a)
  {
  }

  /** The distance obeys the triangle inequality. */
  lemma {:induction false} ManhattanTriangle(a: Coord, b: Coord, c: Coord)
    ensures ManhattanLen(a, c) <= ManhattanLen(a, b) + ManhattanLen(b, c)
  {
  }

  /** One step in a direction is one unit of distance away. */
  lemma {:induction false} InDirDistance(c: Coord, d: Dir)
    requires InDir(c, d).Some?
    ensures ManhattanLen(c, InDir(c, d).value) == 1
  {
  }

  /** Consecutive cells of the path are grid neighbours. */
  ghost predicate Adjacent(path: seq<Coord>) {
    forall k :: 0 <= k < |path| - 1 ==> ManhattanLen(path[k], path[k + 1]) == 1
  }

  /** Along an adjacent path, cells j - i apart are at most j - i apart on the grid. */
  lemma {:induction false} PathDistance(path: seq<Coord>, i: nat, j: nat)
    requires Adjacent(path) && i <= j < |path|
    ensures ManhattanLen(path[i], path[j]) <= j - i
    decreases j - i
  {
    if i < j {
      PathDistance(path, i, j - 1);
      ManhattanTriangle(path[i], path[j - 1], path[j]);
    }
  }

  /** The step table: each cell maps to the last step at which the path is on it. */
  function StepsOf(path: seq<Coord>): (m: map<Coord, nat>)
  {
    if |path| == 0 then map[] else StepsOf(path[..|path| - 1])[path[|path| - 1] := |path| - 1]
  }

  /** Every cell of the path has a step recorded, and no other cell has. */
  lemma {:induction false} StepsOfKeys(path: seq<Coord>)
    ensures StepsOf(path).Keys == set k | 0 <= k < |path| :: path[k]
  {
    if |path| > 0 {
      var front := path[..|path| - 1];
      StepsOfKeys(front);
      assert forall k :: 0 <= k < |front| ==> front[k] == path[k];
    }
  }

  /** The step recorded for a cell is a step at which the path is on it, and the last such. */
  lemma {:induction false} StepsOfIndex(path: seq<Coord>, c: Coord)
    requires c in StepsOf(path)
    ensures StepsOf(path)[c] < |path| && path[StepsOf(path)[c]] == c
    ensures forall k :: StepsOf(path)[c] < k < |path| ==> path[k] != c
  {
    var n := |path| - 1;
    if path[n] != c {
      var front := path[..n];
      StepsOfIndex(front, c);
    }
  }

  function IsStartPoint(p: GridPoint): bool {
    p == Start
  }

  function IsEndPoint(p: GridPoint): bool {
    p == End
  }

  /** The tiles a step may enter. */
  predicate Enterable(p: GridPoint) {
    p == Open || p == End
  }

  datatype Trace = Traced(path: seq<Coord>, steps: map<Coord, nat>) | Panicked | OutOfFuel

  lemma {:induction false} GridSides<T>(g: Grid<T>)
    requires g.Valid() && |g.data| > 0
    ensures g.width > 0 && g.height > 0
  {
  }

  function IsOpenPoint(p: GridPoint): bool {
    p == Open
  }

  /** The tile next to c in direction d, or None off the grid. */
  function Beside(g: Grid<GridPoint>, c: Coord, d: Dir): (r: Option<GridPoint>)
    requires g.Valid() && g.width > 0 && g.height > 0 && g.InBounds(c)
    ensures r.Some? <==> g.NextPos(c, d).Some?
    ensures r.Some? ==> g.InBounds(g.NextPos(c, d).value) && r.value == g.At(g.NextPos(c, d).value)
  {
    match g.NextPos(c, d)
    case None => None
    case Some(n) => Some(g.At(n))
  }

  /** The tile in direction d is one that a direction loop takes. */
  ghost predicate Accepts(g: Grid<GridPoint>, c: Coord, d: Dir, enter: GridPoint -> bool)
    requires g.Valid() && g.width > 0 && g.height > 0 && g.InBounds(c)
  {
    Beside(g, c, d).Some? && enter(Beside(g, c, d).value)
  }

  /** The tile in direction d is a wall, or there is none: a direction loop passes over it. */
  ghost predicate Quiet(g: Grid<GridPoint>, c: Coord, d: Dir)
    requires g.Valid() && g.width > 0 && g.height > 0 && g.InBounds(c)
  {
    Beside(g, c, d).None? || Beside(g, c, d).value == Wall
  }

  /** d is the one direction of dirs that is taken, and every other one is passed over. */
  ghost predicate OnlyExit(g: Grid<GridPoint>, c: Coord, dirs: seq<Dir>, enter: GridPoint -> bool, d: Dir)
    requires g.Valid() && g.width > 0 && g.height > 0 && g.InBounds(c)
  {
    d in dirs && Accepts(g, c, d, enter) && forall i :: 0 <= i < |dirs| && dirs[i] != d ==> Quiet(g, c, dirs[i])
  }

  /**
   * The direction loops of trace_path, from dirs[k] on, with r the
   * direction taken so far: a wall or the grid's edge is passed over, a
   * tile `enter` accepts is taken, and any other tile, or a second one to
   * take, panics (None). Some(None) is a loop that took nothing.
   */
  function PickFrom(g: Grid<GridPoint>, c: Coord, dirs: seq<Dir>, k: nat, enter: GridPoint -> bool, r: Option<Dir>)
    : Option<Option<Dir>>
    requires g.Valid() && g.width > 0 && g.height > 0 && g.InBounds(c) && k <= |dirs|
    decreases |dirs| - k
  {
    if k == |dirs| then Some(r)
    else match Beside(g, c, dirs[k])
      case None => PickFrom(g, c, dirs, k + 1, enter, r)
      case Some(t) =>
        if t == Wall then PickFrom(g, c, dirs, k + 1, enter, r)
        else if !enter(t) || r.Some? then None
        else PickFrom(g, c, dirs, k + 1, enter, Some(dirs[k]))
  }

  /** The direction a loop over dirs takes; None where trace_path panics, also when it takes none. */
  function Pick(g: Grid<GridPoint>, c: Coord, dirs: seq<Dir>, enter: GridPoint -> bool): Option<Dir>
    requires g.Valid() && g.width > 0 && g.height > 0 && g.InBounds(c)
  {
    match PickFrom(g, c, dirs, 0, enter, None)
    case Some(Some(d)) => Some(d)
    case _ => None
  }

  /** What the loop knows after dirs[..k]: nothing taken and all passed over, or r the only exit so far. */
  ghost predicate PickedSoFar(g: Grid<GridPoint>, c: Coord, dirs: seq<Dir>, k: nat, enter: GridPoint -> bool, r: Option<Dir>)
    requires g.Valid() && g.width > 0 && g.height > 0 && g.InBounds(c) && k <= |dirs|
  {
    (r.None? ==> forall i :: 0 <= i < k ==> Quiet(g, c, dirs[i])) &&
    (r.Some? ==> OnlyExit(g, c, dirs[..k], enter, r.value))
  }

  /** The loop over dirs from k on ends by taking d exactly when d is the only exit of all of dirs. */
  lemma {:induction false} PickFromMeans(g: Grid<GridPoint>, c: Coord, dirs: seq<Dir>, k: nat, enter: GridPoint -> bool,
                                         r: Option<Dir>, d: Dir)
    requires g.Valid() && g.width > 0 && g.height > 0 && g.InBounds(c) && k <= |dirs|
    requires !enter(Wall) && forall i, j :: 0 <= i < j < |dirs| ==> dirs[i] != dirs[j]
    requires PickedSoFar(g, c, dirs, k, enter, r)
    ensures PickFrom(g, c, dirs, k, enter, r) == Some(Some(d)) <==> OnlyExit(g, c, dirs, enter, d)
    decreases |dirs| - k
  {
    if k == |dirs| {
      assert dirs[..k] == dirs;
    } else {
      var x := dirs[k];
      assert dirs[..k + 1] == dirs[..k] + [x];
      if Quiet(g, c, x) {
        assert PickedSoFar(g, c, dirs, k + 1, enter, r) by {
          if r.Some? {
            var front, taken := dirs[..k], dirs[..k + 1];
            forall i | 0 <= i < k + 1 && taken[i] != r.value ensures Quiet(g, c, taken[i]) {
              if i < k {
                assert taken[i] == front[i];
              }
            }
          }
        }
        PickFromMeans(g, c, dirs, k + 1, enter, r, d);
      } else if enter(Beside(g, c, x).value) && r.None? {
        assert PickedSoFar(g, c, dirs, k + 1, enter, Some(x)) by {
          assert dirs[..k + 1][k] == x;
        }
        PickFromMeans(g, c, dirs, k + 1, enter, Some(x), d);
      }
    }
  }

  /** A loop over distinct dirs takes d exactly when d is their only exit. */
  lemma {:induction false} PickMeans(g: Grid<GridPoint>, c: Coord, dirs: seq<Dir>, enter: GridPoint -> bool, d: Dir)
    requires g.Valid() && g.width > 0 && g.height > 0 && g.InBounds(c)
    requires !enter(Wall) && forall i, j :: 0 <= i < j < |dirs| ==> dirs[i] != dirs[j]
    ensures Pick(g, c, dirs, enter) == Some(d) <==> OnlyExit(g, c, dirs, enter, d)
  {
    PickFromMeans(g, c, dirs, 0, enter, None, d);
  }

  /** The direction the first loop of trace_path leaves the start by; None where it panics. */
  function FirstDirOf(g: Grid<GridPoint>, start: Coord): Option<Dir>
    requires g.Valid() && g.width > 0 && g.height > 0 && g.InBounds(start)
  {
    Pick(g, start, [Up, Left, Down, Right], IsOpenPoint)
  }

  /**
   * The start is left by d exactly when d's neighbour is open and every
   * other neighbour is a wall or off the grid: no open neighbour, two, or
   * a start or end tile beside the start panic.
   */
  lemma {:induction false} FirstDirOfMeans(g: Grid<GridPoint>, start: Coord, d: Dir)
    requires g.Valid() && g.width > 0 && g.height > 0 && g.InBounds(start)
    ensures FirstDirOf(g, start) == Some(d) <==>
              Beside(g, start, d) == Some(Open) && forall d' :: d' != d ==> Quiet(g, start, d')
  {
    var dirs := [Up, Left, Down, Right];
    PickMeans(g, start, dirs, IsOpenPoint, d);
    assert forall d' :: dirs[DirIndex(d')] == d';
  }

  /** The turn of trace_path when the tile ahead cannot be entered; None where it panics. */
  function NewDirOf(g: Grid<GridPoint>, at: Coord, heading: Dir): Option<Dir>
    requires g.Valid() && g.width > 0 && g.height > 0 && g.InBounds(at)
  {
    Pick(g, at, [TurnLeft(heading), TurnRight(heading)], Enterable)
  }

  /** The side of the heading other than d. */
  function OtherSide(heading: Dir, d: Dir): Dir {
    if d == TurnLeft(heading) then TurnRight(heading) else TurnLeft(heading)
  }

  /**
   * The turn takes d exactly when d is left or right of the heading, its
   * tile is open or the end, and the other side's is a wall or off the grid.
   */
  lemma {:induction false} NewDirOfMeans(g: Grid<GridPoint>, at: Coord, heading: Dir, d: Dir)
    requires g.Valid() && g.width > 0 && g.height > 0 && g.InBounds(at)
    ensures NewDirOf(g, at, heading) == Some(d) <==>
              (d == TurnLeft(heading) || d == TurnRight(heading)) && Accepts(g, at, d, Enterable) &&
              Quiet(g, at, OtherSide(heading, d))
  {
    var dirs := [TurnLeft(heading), TurnRight(heading)];
    TurnsDiffer(heading);
    PickMeans(g, at, dirs, Enterable, d);
    if d == TurnLeft(heading) || d == TurnRight(heading) {
      var o := if d == TurnLeft(heading) then 1 else 0;
      assert dirs[o] == OtherSide(heading, d);
      assert forall i :: 0 <= i < 2 && dirs[i] != d ==> i == o;
    }
  }

  /** The turn panics exactly at a dead end, at a second way out, or beside a start tile. */
  lemma {:induction false} NewDirOfNone(g: Grid<GridPoint>, at: Coord, heading: Dir)
    requires g.Valid() && g.width > 0 && g.height > 0 && g.InBounds(at)
    ensures NewDirOf(g, at, heading).None? <==>
              var l, r := TurnLeft(heading), TurnRight(heading);
              (Accepts(g, at, l, Enterable) && Accepts(g, at, r, Enterable)) ||
              (!Accepts(g, at, l, Enterable) && !Accepts(g, at, r, Enterable)) ||
              Beside(g, at, l) == Some(Start) || Beside(g, at, r) == Some(Start)
  {
    var l, r := TurnLeft(heading), TurnRight(heading);
    TurnsDiffer(heading);
    NewDirOfMeans(g, at, heading, l);
    NewDirOfMeans(g, at, heading, r);
    if NewDirOf(g, at, heading).Some? {
      NewDirOfMeans(g, at, heading, NewDirOf(g, at, heading).value);
    }
  }

  /** Reversing a direction. */
  function Opposite(d: Dir): Dir {
    TurnRight(TurnRight(d))
  }

  lemma {:induction false} TurnsDiffer(h: Dir)
    ensures TurnLeft(h) != TurnRight(h) && Opposite(h) != h
    ensures Opposite(h) != TurnLeft(h) && Opposite(h) != TurnRight(h)
    ensures Opposite(TurnLeft(h)) == TurnRight(h) && Opposite(TurnRight(h)) == TurnLeft(h)
  {
  }

  /** Every direction is the heading, a side of it, or its opposite. */
  lemma {:induction false} DirAround(h: Dir, d: Dir)
    ensures d == h || d == TurnLeft(h) || d == TurnRight(h) || d == Opposite(h)
  {
  }

  /** The place of a direction in the loops' order up, left, down, right. */
  function DirIndex(d: Dir): nat {
    match d
    case Up => 0
    case Left => 1
    case Down => 2
    case Right => 3
  }

  /** Stepping back undoes a step, and a step always leaves the tile. */
  lemma {:induction false} NextPosBack<T>(g: Grid<T>, c: Coord, d: Dir)
    requires g.width > 0 && g.height > 0 && g.InBounds(c) && g.NextPos(c, d).Some?
    ensures g.InBounds(g.NextPos(c, d).value) && g.NextPos(c, d).value != c
    ensures g.NextPos(g.NextPos(c, d).value, Opposite(d)) == Some(c)
  {
  }

  /** Two directions that lead to the same neighbour are the same. */
  lemma {:induction false} NextPosInjective<T>(g: Grid<T>, c: Coord, d1: Dir, d2: Dir)
    requires g.width > 0 && g.height > 0 && g.NextPos(c, d1).Some? && g.NextPos(c, d1) == g.NextPos(c, d2)
    ensures d1 == d2
  {
  }

  /**
   * The first loop of trace_path: the one direction in which the start
   * tile has an open neighbour; None where the source panics (no open
   * neighbour, two of them, or a start or end tile next to the start).
   */
  method FirstDir(g: Grid<GridPoint>, start: Coord) returns (r: Option<Dir>)
    requires g.Valid() && g.width > 0 && g.height > 0 && g.InBounds(start)
    ensures r == FirstDirOf(g, start)
    ensures r.Some? ==> g.NextPos(start, r.value).Some? && g.At(g.NextPos(start, r.value).value) == Open
  {
    r := None;
    var dirs := [Up, Left, Down, Right];
    for k := 0 to 4
      invariant PickFrom(g, start, dirs, k, IsOpenPoint, r) == PickFrom(g, start, dirs, 0, IsOpenPoint, None)
      invariant r.Some? ==> g.NextPos(start, r.value).Some? && g.At(g.NextPos(start, r.value).value) == Open
    {
      var next := g.NextPos(start, dirs[k]);
      if next.Some? {
        var t := g.At(next.value);
        if t == Open {
          if r.Some? {
            return None;
          }
          r := Some(dirs[k]);
        } else if t != Wall {
          return None;
        }
      }
    }
  }

  /**
   * The turn of trace_path when the tile ahead cannot be entered: the one
   * side, left or right, whose neighbour is open or the end; None where
   * the source panics (no such side, both, or a start tile beside).
   */
  method NewDir(g: Grid<GridPoint>, at: Coord, heading: Dir) returns (r: Option<Dir>)
    requires g.Valid() && g.width > 0 && g.height > 0 && g.InBounds(at)
    ensures r == NewDirOf(g, at, heading)
    ensures r.Some? ==>
              (r.value == TurnLeft(heading) || r.value == TurnRight(heading)) &&
              g.NextPos(at, r.value).Some? && Enterable(g.At(g.NextPos(at, r.value).value))
  {
    r := None;
    var sides := [TurnLeft(heading), TurnRight(heading)];
    for k := 0 to 2
      invariant PickFrom(g, at, sides, k, Enterable, r) == PickFrom(g, at, sides, 0, Enterable, None)
      invariant r.Some? ==>
                  (r.value == TurnLeft(heading) || r.value == TurnRight(heading)) &&
                  g.NextPos(at, r.value).Some? && Enterable(g.At(g.NextPos(at, r.value).value))
    {
      var next := g.NextPos(at, sides[k]);
      if next.Some? {
        var t := g.At(next.value);
        if t == Open || t == End {
          if r.Some? {
            return None;
          }
          r := Some(sides[k]);
        } else if t == Start {
          return None;
        }
      }
    }
  }

  /** Recording the step of the current tile before moving on. */
  lemma {:induction false} StepsOfAppend(path: seq<Coord>, next: Coord)
    requires |path| > 0
    ensures StepsOf((path + [next])[..|path|]) == StepsOf(path[..|path| - 1])[path[|path| - 1] := |path| - 1]
  {
    assert (path + [next])[..|path|] == path;
  }

  /** A traced walk from start: adjacent tiles, all in the grid, every one after the first enterable. */
  ghost predicate Walked(g: Grid<GridPoint>, start: Coord, p: seq<Coord>)
    requires g.Valid()
  {
    |p| >= 1 && p[0] == start &&
    (forall k :: 0 <= k < |p| ==> g.InBounds(p[k])) &&
    (forall k :: 0 < k < |p| ==> Enterable(g.At(p[k]))) &&
    Adjacent(p)
  }

  /** What TracePath promises about a traced path and its step table. */
  ghost predicate TracePathSpec(g: Grid<GridPoint>, p: seq<Coord>, steps: map<Coord, nat>)
    requires g.Valid()
  {
    var starts := FindWith(g, IsStartPoint);
    var ends := FindWith(g, IsEndPoint);
    |starts| > 0 && |ends| > 0 && WalkedTo(g, starts[|starts| - 1], ends[|ends| - 1], p, steps)
  }

  /** A walk from start to end, with its step table. */
  ghost predicate WalkedTo(g: Grid<GridPoint>, start: Coord, end: Coord, p: seq<Coord>, steps: map<Coord, nat>)
    requires g.Valid()
  {
    Walked(g, start, p) && p[|p| - 1] == end && steps == StepsOf(p)
  }

  /** The fork test's tile: in direction d, open, and not yet on the path. */
  predicate OpenOff(g: Grid<GridPoint>, at: Coord, d: Dir, path: seq<Coord>)
    requires g.Valid() && g.width > 0 && g.height > 0 && g.InBounds(at)
  {
    g.NextPos(at, d).Some? && g.NextPos(at, d).value !in path && g.At(g.NextPos(at, d).value) == Open
  }

  /** The fork test of the walking loop: left or right of the heading lies an open tile not yet on the path. */
  predicate Fork(g: Grid<GridPoint>, at: Coord, heading: Dir, path: seq<Coord>)
    requires g.Valid() && g.width > 0 && g.height > 0 && g.InBounds(at)
  {
    OpenOff(g, at, TurnLeft(heading), path) || OpenOff(g, at, TurnRight(heading), path)
  }

  /**
   * The walking loop of trace_path from the tile `at`, facing `heading`,
   * with `path` walked so far and at most fuel rounds left: at `end` the
   * path and its step table; otherwise a step straight on into an open or
   * end tile, Panicked at a fork; otherwise the turn, Panicked where
   * NewDirOf is None.
   */
  function WalkFrom(g: Grid<GridPoint>, end: Coord, at: Coord, heading: Dir, path: seq<Coord>, fuel: nat): Trace
    requires g.Valid() && g.width > 0 && g.height > 0 && g.InBounds(at)
    decreases fuel
  {
    if at == end then Traced(path, StepsOf(path))
    else if fuel == 0 then OutOfFuel
    else
      var ahead := g.NextPos(at, heading);
      if ahead.Some? && Enterable(g.At(ahead.value)) then
        if Fork(g, at, heading, path) then Panicked
        else WalkFrom(g, end, ahead.value, heading, path + [ahead.value], fuel - 1)
      else match NewDirOf(g, at, heading)
        case None => Panicked
        case Some(d) => WalkFrom(g, end, at, d, path, fuel - 1)
  }

  /**
   * trace_path with fuel rounds for its walking loop: from the last start
   * tile, by its one open neighbour, to the last end tile; Panicked where
   * either is missing or the start has no single way out.
   */
  function TraceOf(g: Grid<GridPoint>, fuel: nat): Trace
    requires g.Valid()
  {
    var starts := FindWith(g, IsStartPoint);
    var ends := FindWith(g, IsEndPoint);
    if |starts| == 0 || |ends| == 0 then Panicked
    else
      var start := starts[|starts| - 1];
      GridSides(g);
      TraceFrom(g, start, ends[|ends| - 1], FirstDirOf(g, start), fuel)
  }

  /** The walk from start once the first loop chose its way out, or Panicked where it chose none. */
  function TraceFrom(g: Grid<GridPoint>, start: Coord, end: Coord, first: Option<Dir>, fuel: nat): Trace
    requires g.Valid() && g.width > 0 && g.height > 0 && g.InBounds(start)
  {
    match first
    case None => Panicked
    case Some(d) => WalkFrom(g, end, start, d, [start], fuel)
  }

  /** A walk that reaches the end is a walk of adjacent enterable tiles, with its step table. */
  lemma {:induction false} WalkFromWalked(g: Grid<GridPoint>, start: Coord, end: Coord, at: Coord, heading: Dir,
                                          path: seq<Coord>, fuel: nat)
    requires g.Valid() && g.width > 0 && g.height > 0 && Walked(g, start, path) && at == path[|path| - 1]
    ensures var t := WalkFrom(g, end, at, heading, path, fuel); t.Traced? ==> WalkedTo(g, start, end, t.path, t.steps)
    decreases fuel
  {
    if at != end && fuel > 0 {
      var ahead := g.NextPos(at, heading);
      if ahead.Some? && Enterable(g.At(ahead.value)) {
        if !Fork(g, at, heading, path) {
          InDirDistance(at, heading);
          WalkedAppend(g, start, path, ahead.value);
          WalkFromWalked(g, start, end, ahead.value, heading, path + [ahead.value], fuel - 1);
        }
      } else if NewDirOf(g, at, heading).Some? {
        WalkFromWalked(g, start, end, at, NewDirOf(g, at, heading).value, path, fuel - 1);
      }
    }
  }

  /** A traced track runs from the last start tile to the last end tile, with its step table. */
  lemma {:induction false} TraceOfSpec(g: Grid<GridPoint>, fuel: nat)
    requires g.Valid()
    ensures TraceOf(g, fuel).Traced? ==> TracePathSpec(g, TraceOf(g, fuel).path, TraceOf(g, fuel).steps)
  {
    var starts := FindWith(g, IsStartPoint);
    var ends := FindWith(g, IsEndPoint);
    if |starts| > 0 && |ends| > 0 {
      var start := starts[|starts| - 1];
      GridSides(g);
      TraceFromWalked(g, start, ends[|ends| - 1], FirstDirOf(g, start), fuel);
    }
  }

  /** A walk from start that reaches end is a walk of adjacent enterable tiles, with its step table. */
  lemma {:induction false} TraceFromWalked(g: Grid<GridPoint>, start: Coord, end: Coord, first: Option<Dir>, fuel: nat)
    requires g.Valid() && g.width > 0 && g.height > 0 && g.InBounds(start)
    ensures var t := TraceFrom(g, start, end, first, fuel); t.Traced? ==> WalkedTo(g, start, end, t.path, t.steps)
  {
    if first.Some? {
      WalkFromWalked(g, start, end, start, first.value, [start], fuel);
    }
  }

  /** Every tile at most once. */
  ghost predicate NoRepeats(p: seq<Coord>) {
    forall i, j :: 0 <= i < j < |p| ==> p[i] != p[j]
  }

  /** Without repeats, every tile's step is its place on the path. */
  lemma {:induction false} NoRepeatsSteps(p: seq<Coord>)
    requires NoRepeats(p)
    ensures forall k :: 0 <= k < |p| ==> p[k] in StepsOf(p) && StepsOf(p)[p[k]] == k
  {
    StepsOfKeys(p);
    forall k | 0 <= k < |p| ensures p[k] in StepsOf(p) && StepsOf(p)[p[k]] == k {
      assert p[k] in StepsOf(p).Keys;
      StepsOfIndex(p, p[k]);
    }
  }

  /** Every end tile of the grid is `end`. */
  ghost predicate OneEnd(g: Grid<GridPoint>, end: Coord)
    requires g.Valid()
  {
    forall c :: g.InBounds(c) && g.At(c) == End ==> c == end
  }

  /** With one end tile reported, it is the only one. */
  lemma {:induction false} OneEndOf(g: Grid<GridPoint>)
    requires g.Valid() && |FindWith(g, IsEndPoint)| == 1
    ensures OneEnd(g, FindWith(g, IsEndPoint)[0])
  {
    var ends := FindWith(g, IsEndPoint);
    forall c | g.InBounds(c) && g.At(c) == End ensures c == ends[0] {
      var i := g.PosToIdx(c);
      g.PosIdxRoundTrip(c);
      assert g.IdxToPos(i) in ends;
    }
  }

  /**
   * What the walk saw at path[k] as it left it: every neighbour other than
   * the tiles before and after it on the path is not open, or was on the
   * path already.
   */
  ghost predicate LeftBehind(g: Grid<GridPoint>, path: seq<Coord>, k: nat)
    requires g.Valid() && g.width > 0 && g.height > 0 && k + 1 < |path| && g.InBounds(path[k])
  {
    forall d :: g.NextPos(path[k], d).Some? ==>
      var c := g.NextPos(path[k], d).value;
      c == path[k + 1] || (k > 0 && c == path[k - 1]) || g.At(c) != Open || c in path[..k]
  }

  /**
   * How the walk faces at the last tile of the path: at the start, towards
   * its only open neighbour, every other one passed over; later, the way it
   * arrived, or a side of that it has just turned to, whose tile it can
   * enter, the tile behind being passed over.
   */
  ghost predicate Facing(g: Grid<GridPoint>, path: seq<Coord>, heading: Dir, arrival: Dir)
    requires g.Valid() && g.width > 0 && g.height > 0 && |path| > 0
    requires forall k :: 0 <= k < |path| ==> g.InBounds(path[k])
  {
    var at := path[|path| - 1];
    if |path| == 1 then
      Beside(g, at, heading) == Some(Open) && forall d :: d != heading ==> Quiet(g, at, d)
    else
      g.NextPos(path[|path| - 2], arrival) == Some(at) &&
      (heading == arrival ||
       ((heading == TurnLeft(arrival) || heading == TurnRight(arrival)) &&
        Accepts(g, at, heading, Enterable) && Quiet(g, at, Opposite(heading))))
  }

  /** The facts a walk keeps as it goes. */
  ghost predicate Tracking(g: Grid<GridPoint>, end: Coord, path: seq<Coord>, heading: Dir, arrival: Dir)
    requires g.Valid() && g.width > 0 && g.height > 0
  {
    |path| > 0 && Walked(g, path[0], path) && OneEnd(g, end) && NoRepeats(path) &&
    (forall k :: 0 <= k < |path| - 1 ==> LeftBehind(g, path, k)) &&
    Facing(g, path, heading, arrival)
  }

  /**
   * A step straight on that passes the fork test never enters a tile
   * already on the path: the tile behind is not ahead, and a tile left
   * earlier has no open neighbour off the path but its own neighbours on it.
   */
  lemma {:induction false} StepIsNew(g: Grid<GridPoint>, end: Coord, path: seq<Coord>, heading: Dir, arrival: Dir, next: Coord)
    requires g.Valid() && g.width > 0 && g.height > 0 && Tracking(g, end, path, heading, arrival)
    requires path[|path| - 1] != end && g.NextPos(path[|path| - 1], heading) == Some(next)
    ensures next !in path
  {
    var n := |path| - 1;
    var at := path[n];
    NextPosBack(g, at, heading);
    forall j | 0 <= j <= n ensures path[j] != next {
      if j == n - 1 {
        NextPosBack(g, path[n - 1], arrival);
        if next == path[j] {
          NextPosInjective(g, at, heading, Opposite(arrival));
          TurnsDiffer(arrival);
        }
      } else if j < n - 1 && path[j] == next {
        LeftBehindAt(g, path, j, Opposite(heading));
      }
    }
  }

  /** LeftBehind at one neighbour. */
  lemma {:induction false} LeftBehindAt(g: Grid<GridPoint>, path: seq<Coord>, k: nat, d: Dir)
    requires g.Valid() && g.width > 0 && g.height > 0 && k + 1 < |path| && g.InBounds(path[k])
    requires LeftBehind(g, path, k) && g.NextPos(path[k], d).Some?
    ensures var c := g.NextPos(path[k], d).value;
            c == path[k + 1] || (k > 0 && c == path[k - 1]) || g.At(c) != Open || c in path[..k]
  {
  }

  /** The tile a step straight on leaves has no open neighbour off the path but the tiles before and after it. */
  lemma {:induction false} LeftBehindLast(g: Grid<GridPoint>, end: Coord, path: seq<Coord>, heading: Dir, arrival: Dir, next: Coord)
    requires g.Valid() && g.width > 0 && g.height > 0 && Tracking(g, end, path, heading, arrival)
    requires g.NextPos(path[|path| - 1], heading) == Some(next) && !Fork(g, path[|path| - 1], heading, path)
    ensures LeftBehind(g, path + [next], |path| - 1)
  {
    var n := |path| - 1;
    var at := path[n];
    var p' := path + [next];
    TurnsDiffer(heading);
    assert p'[..n] == path[..n] && path == path[..n] + [at];
    forall d | g.NextPos(at, d).Some?
      ensures var c := g.NextPos(at, d).value;
              c == p'[n + 1] || (n > 0 && c == p'[n - 1]) || g.At(c) != Open || c in p'[..n]
    {
      NextPosBack(g, at, d);
      DirAround(heading, d);
      var c := g.NextPos(at, d).value;
      if d == heading {
        assert c == p'[n + 1];
      } else if d == TurnLeft(heading) || d == TurnRight(heading) {
        assert !OpenOff(g, at, d, path);
        if c in path {
          assert c != at;
          assert c in path[..n];
        }
      } else if n == 0 {
        assert Quiet(g, at, d);
      } else if heading == arrival {
        NextPosBack(g, path[n - 1], arrival);
        assert c == p'[n - 1];
      } else {
        assert Quiet(g, at, d);
      }
    }
  }

  /** The tiles left earlier keep what the walk saw there when the path grows. */
  lemma {:induction false} LeftBehindGrow(g: Grid<GridPoint>, path: seq<Coord>, next: Coord)
    requires g.Valid() && g.width > 0 && g.height > 0 && |path| > 0
    requires forall k :: 0 <= k < |path| ==> g.InBounds(path[k])
    requires forall k :: 0 <= k < |path| - 1 ==> LeftBehind(g, path, k)
    ensures forall k :: 0 <= k < |path| - 1 ==> LeftBehind(g, path + [next], k)
  {
    var p' := path + [next];
    forall k | 0 <= k < |path| - 1 ensures LeftBehind(g, p', k) {
      assert LeftBehind(g, path, k);
      assert p'[..k] == path[..k];
    }
  }

  /** A step straight on that passes the fork test keeps the walk's facts. */
  lemma {:induction false} StepKeeps(g: Grid<GridPoint>, end: Coord, path: seq<Coord>, heading: Dir, arrival: Dir, next: Coord)
    requires g.Valid() && g.width > 0 && g.height > 0 && Tracking(g, end, path, heading, arrival)
    requires path[|path| - 1] != end && g.NextPos(path[|path| - 1], heading) == Some(next)
    requires Enterable(g.At(next)) && !Fork(g, path[|path| - 1], heading, path)
    ensures Tracking(g, end, path + [next], heading, heading)
  {
    var at := path[|path| - 1];
    StepIsNew(g, end, path, heading, arrival, next);
    InDirDistance(at, heading);
    WalkedAppend(g, path[0], path, next);
    LeftBehindGrow(g, path, next);
    LeftBehindLast(g, end, path, heading, arrival, next);
  }

  /** A turn keeps the walk's facts: the new heading is a side of the arrival, with the tile behind passed over. */
  lemma {:induction false} TurnKeeps(g: Grid<GridPoint>, end: Coord, path: seq<Coord>, heading: Dir, arrival: Dir, d: Dir)
    requires g.Valid() && g.width > 0 && g.height > 0 && Tracking(g, end, path, heading, arrival)
    requires !Accepts(g, path[|path| - 1], heading, Enterable) && NewDirOf(g, path[|path| - 1], heading) == Some(d)
    ensures Tracking(g, end, path, d, arrival)
  {
    NewDirOfMeans(g, path[|path| - 1], heading, d);
    TurnsDiffer(heading);
  }

  /** Along the walking loop, with one end tile, the path never repeats a tile. */
  lemma {:induction false} WalkFromNoRepeats(g: Grid<GridPoint>, end: Coord, heading: Dir, path: seq<Coord>,
                                             arrival: Dir, fuel: nat)
    requires g.Valid() && g.width > 0 && g.height > 0 && Tracking(g, end, path, heading, arrival)
    ensures var t := WalkFrom(g, end, path[|path| - 1], heading, path, fuel); t.Traced? ==> NoRepeats(t.path)
    decreases fuel, 1
  {
    var at := path[|path| - 1];
    if at != end && fuel > 0 {
      var ahead := g.NextPos(at, heading);
      if ahead.Some? && Enterable(g.At(ahead.value)) {
        if !Fork(g, at, heading, path) {
          AheadNoRepeats(g, end, heading, path, arrival, fuel);
        }
      } else {
        TurnNoRepeats(g, end, heading, path, arrival, fuel);
      }
    }
  }

  /** The step straight on of WalkFromNoRepeats. */
  lemma {:induction false} AheadNoRepeats(g: Grid<GridPoint>, end: Coord, heading: Dir, path: seq<Coord>,
                                          arrival: Dir, fuel: nat)
    requires g.Valid() && g.width > 0 && g.height > 0 && Tracking(g, end, path, heading, arrival)
    requires path[|path| - 1] != end && fuel > 0
    requires g.NextPos(path[|path| - 1], heading).Some? && Enterable(g.At(g.NextPos(path[|path| - 1], heading).value))
    requires !Fork(g, path[|path| - 1], heading, path)
    ensures var t := WalkFrom(g, end, path[|path| - 1], heading, path, fuel); t.Traced? ==> NoRepeats(t.path)
    decreases fuel, 0
  {
    var at := path[|path| - 1];
    var next := g.NextPos(at, heading).value;
    WalkFromAhead(g, end, at, heading, path, fuel);
    StepKeeps(g, end, path, heading, arrival, next);
    WalkFromNoRepeats(g, end, heading, path + [next], heading, fuel - 1);
  }

  /** The turn of WalkFromNoRepeats. */
  lemma {:induction false} TurnNoRepeats(g: Grid<GridPoint>, end: Coord, heading: Dir, path: seq<Coord>,
                                         arrival: Dir, fuel: nat)
    requires g.Valid() && g.width > 0 && g.height > 0 && Tracking(g, end, path, heading, arrival)
    requires path[|path| - 1] != end && fuel > 0
    requires !(g.NextPos(path[|path| - 1], heading).Some? && Enterable(g.At(g.NextPos(path[|path| - 1], heading).value)))
    ensures var t := WalkFrom(g, end, path[|path| - 1], heading, path, fuel); t.Traced? ==> NoRepeats(t.path)
    decreases fuel, 0
  {
    var at := path[|path| - 1];
    WalkFromTurn(g, end, at, heading, path, fuel);
    if NewDirOf(g, at, heading).Some? {
      var d := NewDirOf(g, at, heading).value;
      TurnKeeps(g, end, path, heading, arrival, d);
      WalkFromNoRepeats(g, end, d, path, arrival, fuel - 1);
    }
  }

  /**
   * On a grid with one end tile, a traced track visits no tile twice, so
   * the step recorded for path[k] is k.
   */
  lemma {:induction false} TraceOfNoRepeats(g: Grid<GridPoint>, fuel: nat)
    requires g.Valid() && |FindWith(g, IsEndPoint)| <= 1
    ensures var t := TraceOf(g, fuel);
              t.Traced? ==> NoRepeats(t.path) && forall k :: 0 <= k < |t.path| ==> t.path[k] in t.steps && t.steps[t.path[k]] == k
  {
    var starts := FindWith(g, IsStartPoint);
    var ends := FindWith(g, IsEndPoint);
    if |starts| > 0 && |ends| > 0 {
      var start := starts[|starts| - 1];
      GridSides(g);
      OneEndOf(g);
      TraceFromNoRepeats(g, start, ends[0], fuel);
    }
  }

  /** With one end tile, the walk from the start's only way out visits no tile twice. */
  lemma {:induction false} TraceFromNoRepeats(g: Grid<GridPoint>, start: Coord, end: Coord, fuel: nat)
    requires g.Valid() && g.width > 0 && g.height > 0 && g.InBounds(start) && OneEnd(g, end)
    ensures var t := TraceFrom(g, start, end, FirstDirOf(g, start), fuel);
              t.Traced? ==> NoRepeats(t.path) && forall k :: 0 <= k < |t.path| ==> t.path[k] in t.steps && t.steps[t.path[k]] == k
  {
    var first := FirstDirOf(g, start);
    if first.Some? {
      var d := first.value;
      var t := WalkFrom(g, end, start, d, [start], fuel);
      FirstDirOfMeans(g, start, d);
      assert Tracking(g, end, [start], d, d);
      WalkFromNoRepeats(g, end, d, [start], d, fuel);
      WalkFromWalked(g, start, end, start, d, [start], fuel);
      if t.Traced? {
        NoRepeatsSteps(t.path);
      }
    }
  }

  /**
   * trace_path: start at the last start tile find_with reports, leave it by
   * its one open neighbour, and walk to the last end tile. Panics become
   * Panicked; fuel bounds the number of rounds.
   */
  method TracePath(g: Grid<GridPoint>, fuel: nat) returns (r: Trace)
    requires g.Valid()
    ensures r == TraceOf(g, fuel)
    ensures r.Traced? ==> TracePathSpec(g, r.path, r.steps)
  {
    var starts := FindWith(g, IsStartPoint);
    if |starts| == 0 {
      return Panicked;
    }
    var start := starts[|starts| - 1];
    var ends := FindWith(g, IsEndPoint);
    if |ends| == 0 {
      return Panicked;
    }
    var end := ends[|ends| - 1];
    GridSides(g);
    var dir := FirstDir(g, start);
    if dir.None? {
      return Panicked;
    }
    r := Walk(g, start, end, dir.value, fuel);
  }

  /**
   * The walking loop of trace_path: step straight on into an open or end
   * tile (panicking at a fork into an open tile not yet on the path),
   * otherwise turn to the one side that is open, until `end` is reached;
   * every tile's step is recorded as the walk leaves it.
   */
  method Walk(g: Grid<GridPoint>, start: Coord, end: Coord, dir: Dir, fuel: nat) returns (r: Trace)
    requires g.Valid() && g.width > 0 && g.height > 0 && g.InBounds(start)
    ensures r == WalkFrom(g, end, start, dir, [start], fuel)
    ensures r.Traced? ==> WalkedTo(g, start, end, r.path, r.steps)
  {
    var heading := dir;
    var at := start;
    var path := [at];
    var steps: map<Coord, nat> := map[];
    var left := fuel;
    WalkFromWalked(g, start, end, start, dir, path, fuel);
    while at != end
      invariant OnTrail(g, at, path, steps)
      invariant WalkFrom(g, end, at, heading, path, left) == WalkFrom(g, end, start, dir, [start], fuel)
      decreases left
    {
      if left == 0 {
        return OutOfFuel;
      }
      var panicked;
      panicked, at, heading, path, steps := WalkOn(g, end, at, heading, path, steps, left);
      left := left - 1;
      if panicked {
        return Panicked;
      }
    }
    WalkArrive(g, end, heading, path, steps, left);
    r := Traced(path, steps[at := |path| - 1]);
  }

  /** The state of the walking loop: the path ends at `at`, every tile before it has its step recorded. */
  ghost predicate OnTrail(g: Grid<GridPoint>, at: Coord, path: seq<Coord>, steps: map<Coord, nat>)
    requires g.Valid()
  {
    |path| > 0 && path[|path| - 1] == at && g.InBounds(at) && steps == StepsOf(path[..|path| - 1])
  }

  /**
   * One round of the walking loop with its bookkeeping: a step onto a new
   * tile records the step of the tile it leaves.
   */
  method WalkOn(g: Grid<GridPoint>, end: Coord, at: Coord, heading: Dir, path: seq<Coord>, steps: map<Coord, nat>,
                ghost f: nat)
    returns (panicked: bool, at': Coord, heading': Dir, path': seq<Coord>, steps': map<Coord, nat>)
    requires g.Valid() && g.width > 0 && g.height > 0 && at != end && f > 0 && OnTrail(g, at, path, steps)
    ensures panicked ==> WalkFrom(g, end, at, heading, path, f) == Panicked
    ensures !panicked ==> OnTrail(g, at', path', steps') &&
                          WalkFrom(g, end, at, heading, path, f) == WalkFrom(g, end, at', heading', path', f - 1)
  {
    var next;
    panicked, next, heading' := WalkRound(g, end, at, heading, path, f);
    if next != at {
      StepsOfAppend(path, next);
      path' := path + [next];
      steps' := steps[at := |path| - 1];
      at' := next;
    } else {
      at', path', steps' := at, path, steps;
    }
  }

  /** Reaching the end: the walk is traced, with the end's step recorded last. */
  lemma {:induction false} WalkArrive(g: Grid<GridPoint>, end: Coord, heading: Dir, path: seq<Coord>,
                                      steps: map<Coord, nat>, f: nat)
    requires g.Valid() && g.width > 0 && g.height > 0 && g.InBounds(end)
    requires |path| > 0 && path[|path| - 1] == end && steps == StepsOf(path[..|path| - 1])
    ensures WalkFrom(g, end, end, heading, path, f) == Traced(path, steps[end := |path| - 1])
  {
    assert path[..|path| - 1] + [end] == path;
  }

  /**
   * One round of the walking loop away from the end: step straight on into
   * an open or end tile (panicking at a fork), or turn as NewDir says.
   */
  method WalkRound(g: Grid<GridPoint>, end: Coord, at: Coord, heading: Dir, path: seq<Coord>, ghost f: nat)
    returns (panicked: bool, next: Coord, newHeading: Dir)
    requires g.Valid() && g.width > 0 && g.height > 0 && at != end && f > 0 && g.InBounds(at)
    ensures panicked ==> WalkFrom(g, end, at, heading, path, f) == Panicked
    ensures !panicked && next == at ==> WalkFrom(g, end, at, heading, path, f) == WalkFrom(g, end, at, newHeading, path, f - 1)
    ensures !panicked && next != at ==>
              g.InBounds(next) &&
              WalkFrom(g, end, at, heading, path, f) == WalkFrom(g, end, next, newHeading, path + [next], f - 1)
  {
    var ahead := g.NextPos(at, heading);
    if ahead.Some? && Enterable(g.At(ahead.value)) {
      var left := g.NextPos(at, TurnLeft(heading));
      var right := g.NextPos(at, TurnRight(heading));
      if (left.Some? && left.value !in path && g.At(left.value) == Open) ||
         (right.Some? && right.value !in path && g.At(right.value) == Open) {
        WalkFromFork(g, end, at, heading, path, f);
        return true, at, heading;
      }
      WalkFromAhead(g, end, at, heading, path, f);
      return false, ahead.value, heading;
    } else {
      var newDir := NewDir(g, at, heading);
      WalkFromTurn(g, end, at, heading, path, f);
      if newDir.None? {
        return true, at, heading;
      }
      return false, at, newDir.value;
    }
  }

  /** A round that finds an enterable tile ahead and no fork steps onto it. */
  lemma {:induction false} WalkFromAhead(g: Grid<GridPoint>, end: Coord, at: Coord, heading: Dir, path: seq<Coord>, fuel: nat)
    requires g.Valid() && g.width > 0 && g.height > 0 && g.InBounds(at) && at != end && fuel > 0
    requires g.NextPos(at, heading).Some? && Enterable(g.At(g.NextPos(at, heading).value)) && !Fork(g, at, heading, path)
    ensures var next := g.NextPos(at, heading).value;
            WalkFrom(g, end, at, heading, path, fuel) == WalkFrom(g, end, next, heading, path + [next], fuel - 1)
  {
  }

  /** A round that finds an enterable tile ahead and a fork panics. */
  lemma {:induction false} WalkFromFork(g: Grid<GridPoint>, end: Coord, at: Coord, heading: Dir, path: seq<Coord>, fuel: nat)
    requires g.Valid() && g.width > 0 && g.height > 0 && g.InBounds(at) && at != end && fuel > 0
    requires g.NextPos(at, heading).Some? && Enterable(g.At(g.NextPos(at, heading).value)) && Fork(g, at, heading, path)
    ensures WalkFrom(g, end, at, heading, path, fuel) == Panicked
  {
  }

  /** A round that cannot step ahead turns as NewDirOf says, or panics. */
  lemma {:induction false} WalkFromTurn(g: Grid<GridPoint>, end: Coord, at: Coord, heading: Dir, path: seq<Coord>, fuel: nat)
    requires g.Valid() && g.width > 0 && g.height > 0 && g.InBounds(at) && at != end && fuel > 0
    requires !(g.NextPos(at, heading).Some? && Enterable(g.At(g.NextPos(at, heading).value)))
    ensures WalkFrom(g, end, at, heading, path, fuel) ==
              match NewDirOf(g, at, heading)
              case None => Panicked
              case Some(d) => WalkFrom(g, end, at, d, path, fuel - 1)
  {
  }

  lemma {:induction false} WalkedAppend(g: Grid<GridPoint>, start: Coord, p: seq<Coord>, next: Coord)
    requires g.Valid() && Walked(g, start, p) && g.InBounds(next) && Enterable(g.At(next))
    requires ManhattanLen(p[|p| - 1], next) == 1
    ensures Walked(g, start, p + [next])
  {
  }

  /** A node on possible_jumps' worklist: a cell and the distance still to go. */
  datatype Pending = Pending(c: Coord, left: nat)

  function Pow5(n: nat): (p: nat)
    ensures p >= 1
  {
    if n == 0 then 1 else 5 * Pow5(n - 1)
  }

  /** The termination measure of the worklist: every entry weighs 5 to its distance. */
  function Weight(s: seq<Pending>): nat {
    if |s| == 0 then 0 else Weight(s[..|s| - 1]) + Pow5(s[|s| - 1].left)
  }

  lemma {:induction false} WeightAppend(s: seq<Pending>, x: Pending)
    ensures Weight(s + [x]) == Weight(s) + Pow5(x.left)
  {
    assert (s + [x])[..|s|] == s;
  }

  /** The entries of r from lo on are in-grid neighbours of c with one step less to go than left. */
  ghost predicate PendingNear<T>(g: Grid<T>, c: Coord, left: nat, lo: nat, r: seq<Pending>) {
    forall i :: lo <= i < |r| ==> r[i].left == left - 1 && g.InBounds(r[i].c) && ManhattanLen(c, r[i].c) == 1
  }

  /** Pushing one more neighbour of c onto the stack. */
  lemma {:induction false} PushOne<T>(g: Grid<T>, toVisit: seq<Pending>, r: seq<Pending>, c: Coord, left: nat, n: nat, p: Coord,
                   r': seq<Pending>)
    requires left > 0 && |r| == |toVisit| + n && r[..|toVisit|] == toVisit
    requires PendingNear(g, c, left, |toVisit|, r)
    requires Weight(r) == Weight(toVisit) + n * Pow5(left - 1)
    requires g.InBounds(p) && ManhattanLen(c, p) == 1 && r' == r + [Pending(p, left - 1)]
    ensures |r'| == |toVisit| + (n + 1) && r'[..|toVisit|] == toVisit && r'[..|r|] == r
    ensures PendingNear(g, c, left, |toVisit|, r')
    ensures Weight(r') == Weight(toVisit) + (n + 1) * Pow5(left - 1)
  {
    WeightAppend(r, Pending(p, left - 1));
    assert r'[..|toVisit|] == r[..|toVisit|];
    assert r'[..|r|] == r;
    assert (n + 1) * Pow5(left - 1) == n * Pow5(left - 1) + Pow5(left - 1);
  }

  /**
   * The inner loop of possible_jumps: push every neighbour of c, in the
   * order up, left, down, right, that is not yet a target, with one step
   * less to go.
   */
  method PushNeighbours<T>(g: Grid<T>, toVisit: seq<Pending>, found: set<Coord>, c: Coord, left: nat)
    returns (r: seq<Pending>)
    requires g.InBounds(c) && left > 0
    ensures |r| >= |toVisit| && r[..|toVisit|] == toVisit
    ensures forall i :: |toVisit| <= i < |r| ==> r[i].left == left - 1 && g.InBounds(r[i].c) && ManhattanLen(c, r[i].c) == 1
    ensures Weight(r) <= Weight(toVisit) + 4 * Pow5(left - 1)
    ensures forall d :: g.NextPos(c, d).Some? && g.NextPos(c, d).value !in found ==>
      exists i :: |toVisit| <= i < |r| && r[i].c == g.NextPos(c, d).value
  {
    r := toVisit;
    var dirs := [Up, Left, Down, Right];
    ghost var unit := Pow5(left - 1);
    ghost var n: nat := 0;
    for k := 0 to 4
      invariant |r| == |toVisit| + n && r[..|toVisit|] == toVisit && n <= k
      invariant PendingNear(g, c, left, |toVisit|, r)
      invariant Weight(r) == Weight(toVisit) + n * unit
      invariant Covered(g, c, found, |toVisit|, r, dirs, k)
    {
      var pos := g.NextPos(c, dirs[k]);
      if pos.Some? && pos.value !in found {
        InDirDistance(c, dirs[k]);
        var r' := r + [Pending(pos.value, left - 1)];
        PushOne(g, toVisit, r, c, left, n, pos.value, r');
        CoveredStep(g, c, found, |toVisit|, r, r', dirs, k);
        r := r';
        n := n + 1;
      } else {
        CoveredStep(g, c, found, |toVisit|, r, r, dirs, k);
      }
    }
    EveryDirection(g, c, found, |toVisit|, r, dirs);
    MulLeq(n, 4, unit);
  }

  /** Every neighbour of c in dirs[..k] that is not yet a target is pending at or after lo. */
  ghost predicate Covered<T>(g: Grid<T>, c: Coord, found: set<Coord>, lo: nat, r: seq<Pending>, dirs: seq<Dir>, k: nat)
    requires k <= |dirs| && g.InBounds(c)
  {
    forall i :: 0 <= i < k ==> g.NextPos(c, dirs[i]).Some? && g.NextPos(c, dirs[i]).value !in found ==>
      exists j :: lo <= j < |r| && r[j].c == g.NextPos(c, dirs[i]).value
  }

  /** One more direction of the loop: its neighbour was pushed, or needed no push. */
  lemma {:induction false} CoveredStep<T>(g: Grid<T>, c: Coord, found: set<Coord>, lo: nat, r: seq<Pending>, r': seq<Pending>,
                       dirs: seq<Dir>, k: nat)
    requires k < |dirs| && g.InBounds(c) && Covered(g, c, found, lo, r, dirs, k)
    requires lo <= |r| <= |r'| && r'[..|r|] == r
    requires g.NextPos(c, dirs[k]).Some? && g.NextPos(c, dirs[k]).value !in found ==>
               |r| < |r'| && r'[|r|].c == g.NextPos(c, dirs[k]).value
    ensures Covered(g, c, found, lo, r', dirs, k + 1)
  {
    forall i | 0 <= i < k + 1 && g.NextPos(c, dirs[i]).Some? && g.NextPos(c, dirs[i]).value !in found
      ensures exists j :: lo <= j < |r'| && r'[j].c == g.NextPos(c, dirs[i]).value
    {
      if i < k {
        var j :| lo <= j < |r| && r[j].c == g.NextPos(c, dirs[i]).value;
        assert r'[j] == r[j];
      } else {
        assert r'[|r|].c == g.NextPos(c, dirs[i]).value;
      }
    }
  }

  /** What holds of the four directions in the order of the loop holds of every direction. */
  lemma {:induction false} EveryDirection<T>(g: Grid<T>, c: Coord, found: set<Coord>, lo: nat, r: seq<Pending>, dirs: seq<Dir>)
    requires g.InBounds(c) && dirs == [Up, Left, Down, Right] && Covered(g, c, found, lo, r, dirs, 4)
    ensures forall d :: g.NextPos(c, d).Some? && g.NextPos(c, d).value !in found ==>
      exists i :: lo <= i < |r| && r[i].c == g.NextPos(c, d).value
  {
    forall d | g.NextPos(c, d).Some? && g.NextPos(c, d).value !in found
      ensures exists i :: lo <= i < |r| && r[i].c == g.NextPos(c, d).value
    {
      assert d == dirs[if d == Up then 0 else if d == Left then 1 else if d == Down then 2 else 3];
    }
  }

  /** Every in-grid neighbour of a cell. */
  ghost predicate NeighboursIn<T>(g: Grid<T>, c: Coord, found: set<Coord>, toVisit: seq<Pending>)
    requires g.width > 0 && g.height > 0
  {
    forall d :: g.NextPos(c, d).Some? ==>
      g.NextPos(c, d).value in found || exists k :: 0 <= k < |toVisit| && toVisit[k].c == g.NextPos(c, d).value
  }

  /** Entries pushed from a pending cell stay within the distance of `from`. */
  lemma {:induction false} PushedWithin(from: Coord, dist: nat, top: Pending, lo: nat, next: seq<Pending>)
    requires ManhattanLen(from, top.c) + top.left <= dist && top.left > 0
    requires forall i :: lo <= i < |next| ==> next[i].left == top.left - 1 && ManhattanLen(top.c, next[i].c) == 1
    ensures forall i :: lo <= i < |next| ==> ManhattanLen(from, next[i].c) + next[i].left <= dist
  {
    forall i | lo <= i < |next| ensures ManhattanLen(from, next[i].c) + next[i].left <= dist {
      ManhattanTriangle(from, top.c, next[i].c);
    }
  }

  /** Popping the top entry keeps every neighbour of `from` a target or pending. */
  lemma {:induction false} NeighboursPop<T>(g: Grid<T>, from: Coord, found: set<Coord>, toVisit: seq<Pending>, next: seq<Pending>)
    requires g.width > 0 && g.height > 0 && |toVisit| > 0 && NeighboursIn(g, from, found, toVisit)
    requires |next| >= |toVisit| - 1 && next[..|toVisit| - 1] == toVisit[..|toVisit| - 1]
    ensures NeighboursIn(g, from, found + {toVisit[|toVisit| - 1].c}, next)
  {
    forall d | g.NextPos(from, d).Some? && g.NextPos(from, d).value !in found + {toVisit[|toVisit| - 1].c}
      ensures exists k :: 0 <= k < |next| && next[k].c == g.NextPos(from, d).value
    {
      var k :| 0 <= k < |toVisit| && toVisit[k].c == g.NextPos(from, d).value;
      assert next[k] == toVisit[k];
    }
  }

  /** The first round pushes every neighbour of `from`. */
  lemma {:induction false} NeighboursFirst<T>(g: Grid<T>, from: Coord, next: seq<Pending>)
    requires g.InBounds(from)
    requires forall d :: g.NextPos(from, d).Some? && g.NextPos(from, d).value !in {from} ==>
      exists i :: 0 <= i < |next| && next[i].c == g.NextPos(from, d).value
    ensures NeighboursIn(g, from, {from}, next)
  {
    forall d | g.NextPos(from, d).Some?
      ensures g.NextPos(from, d).value in {from} || exists i :: 0 <= i < |next| && next[i].c == g.NextPos(from, d).value
    {
      InDirDistance(from, d);
    }
  }

  /** Every pending cell is in the grid, and its distance still to go keeps it within dist of from. */
  ghost predicate PendingWithin<T>(g: Grid<T>, from: Coord, dist: nat, toVisit: seq<Pending>) {
    forall k :: 0 <= k < |toVisit| ==> g.InBounds(toVisit[k].c) && ManhattanLen(from, toVisit[k].c) + toVisit[k].left <= dist
  }

  /** A worklist popped and then pushed onto stays within dist when the pushed entries are. */
  lemma {:induction false} PendingExtend<T>(g: Grid<T>, from: Coord, dist: nat, toVisit: seq<Pending>, next: seq<Pending>)
    requires |toVisit| > 0 && PendingWithin(g, from, dist, toVisit)
    requires |next| >= |toVisit| - 1 && next[..|toVisit| - 1] == toVisit[..|toVisit| - 1]
    requires forall i :: |toVisit| - 1 <= i < |next| ==> g.InBounds(next[i].c) && ManhattanLen(from, next[i].c) + next[i].left <= dist
    ensures PendingWithin(g, from, dist, next)
  {
    forall k | 0 <= k < |next| ensures g.InBounds(next[k].c) && ManhattanLen(from, next[k].c) + next[k].left <= dist {
      if k < |toVisit| - 1 {
        assert next[k] == toVisit[k];
      }
    }
  }

  /** What possible_jumps keeps true of its worklist and its targets. */
  ghost predicate JumpsInv<T>(g: Grid<T>, from: Coord, dist: nat, toVisit: seq<Pending>, found: set<Coord>, first: bool)
    requires g.InBounds(from)
  {
    PendingWithin(g, from, dist, toVisit) &&
    (forall c :: c in found ==> g.InBounds(c) && ManhattanLen(from, c) <= dist) &&
    (first ==> toVisit == [Pending(from, dist)] && found == {}) &&
    (!first && dist > 0 ==> NeighboursIn(g, from, found, toVisit))
  }

  /**
   * One round of possible_jumps: pop the last pending cell, make it a
   * target, and if it has distance left push its neighbours.
   */
  method VisitTop<T>(g: Grid<T>, from: Coord, dist: nat, toVisit: seq<Pending>, found: set<Coord>, first: bool)
    returns (next: seq<Pending>, found': set<Coord>)
    requires g.InBounds(from) && |toVisit| > 0 && JumpsInv(g, from, dist, toVisit, found, first)
    ensures JumpsInv(g, from, dist, next, found', false) && Weight(next) < Weight(toVisit)
  {
    var top := toVisit[|toVisit| - 1];
    var rest := toVisit[..|toVisit| - 1];
    assert toVisit == rest + [top];
    WeightAppend(rest, top);
    found' := found + {top.c};
    next := rest;
    if top.left > 0 {
      next := PushNeighbours(g, rest, found', top.c, top.left);
      PushedWithin(from, dist, top, |rest|, next);
      forall i | |rest| <= i < |next| ensures g.InBounds(next[i].c) {
      }
      assert Pow5(top.left) == 5 * Pow5(top.left - 1);
    }
    PendingExtend(g, from, dist, toVisit, next);
    if first {
      if dist > 0 {
        NeighboursFirst(g, from, next);
      }
    } else if dist > 0 {
      NeighboursPop(g, from, found, toVisit, next);
    }
  }

  /**
   * possible_jumps: a depth-first walk from `from`, in any direction and
   * through any tile, that goes at most dist steps; a neighbour is only
   * pushed if it is not yet a target. Every target is in the grid and
   * within distance dist, `from` is left out, and with dist > 0 every
   * neighbour of `from` is a target.
   */
  method PossibleJumps<T>(g: Grid<T>, from: Coord, dist: nat) returns (targets: set<Coord>)
    requires g.InBounds(from)
    ensures forall c :: c in targets ==> g.InBounds(c) && 0 < ManhattanLen(from, c) <= dist
    ensures dist > 0 ==> forall d :: g.NextPos(from, d).Some? ==> g.NextPos(from, d).value in targets
  {
    var found: set<Coord> := {};
    var toVisit := [Pending(from, dist)];
    var first := true;
    while |toVisit| > 0
      invariant JumpsInv(g, from, dist, toVisit, found, first)
      decreases Weight(toVisit)
    {
      toVisit, found := VisitTop(g, from, dist, toVisit, found, first);
      first := false;
    }
    targets := found - {from};
    assert dist > 0 ==> forall d :: g.NextPos(from, d).Some? ==> g.NextPos(from, d).value in targets by {
      if dist > 0 {
        forall d | g.NextPos(from, d).Some? ensures g.NextPos(from, d).value in targets {
          InDirDistance(from, d);
        }
      }
    }
  }

  /** A cheat from path[i] to path[j], i < j, no more than dist apart, saving v >= minSavings steps. */
  ghost predicate Cheat(path: seq<Coord>, i: nat, j: nat, dist: nat, minSavings: nat, v: nat) {
    i < j < |path| && ManhattanLen(path[i], path[j]) <= dist &&
    j - i - ManhattanLen(path[i], path[j]) == v && v >= minSavings
  }

  /** f(lo) + ... + f(hi - 1). */
  function Sum(f: nat -> multiset<nat>, lo: nat, hi: nat): multiset<nat>
    decreases hi - lo
  {
    if lo >= hi then multiset{} else f(lo) + Sum(f, lo + 1, hi)
  }

  /** acc + f(lo) + ... + f(hi - 1), accumulated from the front as a loop does. */
  function SumUpTo(acc: multiset<nat>, f: nat -> multiset<nat>, lo: nat, hi: nat): multiset<nat>
    decreases hi
  {
    if hi <= lo then acc else SumUpTo(acc, f, lo, hi - 1) + f(hi - 1)
  }

  lemma {:induction false} Regroup(before: multiset<nat>, here: multiset<nat>, rest: multiset<nat>, x: multiset<nat>, y: multiset<nat>)
    requires x == before + here && y == here + rest
    ensures x + rest == before + y
  {
  }

  /** Accumulating up to j and summing the rest gives the whole sum. */
  lemma {:induction false} SumUpToSplit(acc: multiset<nat>, f: nat -> multiset<nat>, lo: nat, j: nat, hi: nat)
    requires lo <= j <= hi
    ensures SumUpTo(acc, f, lo, j) + Sum(f, j, hi) == acc + Sum(f, lo, hi)
    decreases j
  {
    if j > lo {
      SumUpToSplit(acc, f, lo, j - 1, hi);
      Regroup(SumUpTo(acc, f, lo, j - 1), f(j - 1), Sum(f, j, hi), SumUpTo(acc, f, lo, j), Sum(f, j - 1, hi));
    }
  }

  /** The loop's accumulation from nothing is the sum. */
  lemma {:induction false} SumUpToWhole(f: nat -> multiset<nat>, lo: nat, hi: nat)
    requires lo <= hi
    ensures SumUpTo(multiset{}, f, lo, hi) == Sum(f, lo, hi)
  {
    SumUpToSplit(multiset{}, f, lo, hi, hi);
    assert multiset{} + Sum(f, lo, hi) == Sum(f, lo, hi);
  }

  lemma {:induction false} SumMember(f: nat -> multiset<nat>, lo: nat, hi: nat, v: nat)
    ensures v in Sum(f, lo, hi) <==> exists k :: lo <= k < hi && v in f(k)
    decreases hi - lo
  {
    if lo < hi {
      SumMember(f, lo + 1, hi, v);
      if exists k :: lo <= k < hi && v in f(k) {
        var k :| lo <= k < hi && v in f(k);
        if k > lo {
          assert lo + 1 <= k < hi && v in f(k);
        }
      }
      if v in f(lo) {
        assert lo <= lo < hi;
      }
    }
  }

  /**
   * The saving process_part2 records for the pair i < j, if any. On a
   * traced path j - i is never below the distance (PathDistance), so the
   * test j - i >= m + minSavings is the source's savings >= minSavings.
   */
  function SavingAt(path: seq<Coord>, i: nat, j: nat, dist: nat, minSavings: nat): (r: multiset<nat>)
    ensures |r| <= 1
  {
    if i < j < |path| then
      var m := ManhattanLen(path[i], path[j]);
      if m <= dist && j - i >= m + minSavings then multiset{j - i - m} else multiset{}
    else multiset{}
  }

  lemma {:induction false} SavingAtCheat(path: seq<Coord>, i: nat, j: nat, dist: nat, minSavings: nat, v: nat)
    ensures v in SavingAt(path, i, j, dist, minSavings) <==> Cheat(path, i, j, dist, minSavings, v)
  {
  }

  /** The savings against path[i], indexed by the second tile. */
  function Row(path: seq<Coord>, i: nat, dist: nat, minSavings: nat): nat -> multiset<nat> {
    j => SavingAt(path, i, j, dist, minSavings)
  }

  /** The savings recorded for path[i] against path[i + 1..]. */
  function RowSavings(path: seq<Coord>, i: nat, dist: nat, minSavings: nat): multiset<nat> {
    Sum(Row(path, i, dist, minSavings), i + 1, |path|)
  }

  function Rows(path: seq<Coord>, dist: nat, minSavings: nat): nat -> multiset<nat> {
    i => RowSavings(path, i, dist, minSavings)
  }

  /** The savings recorded for every pair i < j of the path. */
  function AllSavings(path: seq<Coord>, dist: nat, minSavings: nat): multiset<nat>
    requires |path| >= 1
  {
    Sum(Rows(path, dist, minSavings), 0, |path| - 1)
  }

  lemma {:induction false} RowsAt(path: seq<Coord>, dist: nat, minSavings: nat, i: nat)
    ensures Rows(path, dist, minSavings)(i) == RowSavings(path, i, dist, minSavings)
  {
  }

  /** A saving is recorded against path[a] exactly when some cheat from path[a] saves that much. */
  lemma {:induction false} RowSavingsCheats(path: seq<Coord>, a: nat, dist: nat, minSavings: nat, v: nat)
    ensures v in RowSavings(path, a, dist, minSavings) <==> exists b :: Cheat(path, a, b, dist, minSavings, v)
  {
    var row := Row(path, a, dist, minSavings);
    SumMember(row, a + 1, |path|, v);
    forall b ensures v in row(b) <==> Cheat(path, a, b, dist, minSavings, v) {
      SavingAtCheat(path, a, b, dist, minSavings, v);
    }
  }

  lemma {:induction false} AllSavingsMember(path: seq<Coord>, dist: nat, minSavings: nat, v: nat)
    requires |path| >= 1
    ensures v in AllSavings(path, dist, minSavings) <==>
      exists a :: 0 <= a < |path| - 1 && v in Rows(path, dist, minSavings)(a)
  {
    SumMember(Rows(path, dist, minSavings), 0, |path| - 1, v);
  }

  lemma {:induction false} RowsCheats(path: seq<Coord>, dist: nat, minSavings: nat, v: nat, a: nat)
    ensures v in Rows(path, dist, minSavings)(a) <==> exists b :: Cheat(path, a, b, dist, minSavings, v)
  {
    RowsAt(path, dist, minSavings, a);
    RowSavingsCheats(path, a, dist, minSavings, v);
  }

  /** A saving is counted exactly when some cheat along the path saves that much. */
  lemma {:induction false} AllSavingsCheats(path: seq<Coord>, dist: nat, minSavings: nat, v: nat)
    requires |path| >= 1
    ensures v in AllSavings(path, dist, minSavings) <==> exists a, b :: Cheat(path, a, b, dist, minSavings, v)
  {
    AllSavingsMember(path, dist, minSavings, v);
    if v in AllSavings(path, dist, minSavings) {
      var a :| 0 <= a < |path| - 1 && v in Rows(path, dist, minSavings)(a);
      RowsCheats(path, dist, minSavings, v, a);
    }
    if exists a, b :: Cheat(path, a, b, dist, minSavings, v) {
      var a, b :| Cheat(path, a, b, dist, minSavings, v);
      RowsCheats(path, dist, minSavings, v, a);
    }
  }

  /** The histogram save_hash: save_hash[v] counts the entries equal to v. */
  ghost predicate Histogram(h: map<nat, nat>, m: multiset<nat>) {
    forall v :: (v in h <==> v in m) && (v in h ==> h[v] == m[v])
  }

  /** entry(v).and_modify(+1).or_insert(1) */
  function Bump(h: map<nat, nat>, v: nat): (h': map<nat, nat>)
    ensures forall m: multiset<nat> :: Histogram(h, m) ==> Histogram(h', m + multiset{v})
  {
    if v in h then h[v := h[v] + 1] else h[v := 1]
  }

  /** One pair i < j of process_part2's savings loop. */
  method CountPair(path: seq<Coord>, i: nat, j: nat, dist: nat, minSavings: nat, h0: map<nat, nat>, ghost seen: multiset<nat>)
    returns (hist: map<nat, nat>)
    requires Adjacent(path) && i < j < |path| && Histogram(h0, seen)
    ensures Histogram(hist, seen + SavingAt(path, i, j, dist, minSavings))
  {
    hist := h0;
    var m := ManhattanLen(path[i], path[j]);
    if m <= dist {
      PathDistance(path, i, j);
      var savings: nat := j - i - m;
      if savings >= minSavings {
        hist := Bump(hist, savings);
      }
    }
  }

  /** The inner loop of process_part2's savings loop, for the tile path[i]. */
  method CountRow(path: seq<Coord>, i: nat, dist: nat, minSavings: nat, h0: map<nat, nat>, ghost acc: multiset<nat>)
    returns (hist: map<nat, nat>)
    requires Adjacent(path) && i < |path| && Histogram(h0, acc)
    ensures Histogram(hist, acc + RowSavings(path, i, dist, minSavings))
  {
    hist := h0;
    ghost var row := Row(path, i, dist, minSavings);
    for j := i + 1 to |path|
      invariant Histogram(hist, SumUpTo(acc, row, i + 1, j))
    {
      hist := CountPair(path, i, j, dist, minSavings, hist, SumUpTo(acc, row, i + 1, j));
    }
    SumUpToSplit(acc, row, i + 1, |path|, |path|);
  }

  /**
   * The savings loop of process_part2 over a traced path: every pair i < j
   * whose tiles are at most dist apart and whose saving j - i - distance is
   * at least minSavings is counted under its saving.
   */
  method Part2Savings(path: seq<Coord>, dist: nat, minSavings: nat) returns (hist: map<nat, nat>)
    requires Adjacent(path) && |path| >= 1
    ensures Histogram(hist, AllSavings(path, dist, minSavings))
    ensures forall v :: v in hist <==> exists a, b :: Cheat(path, a, b, dist, minSavings, v)
  {
    hist := map[];
    ghost var rows := Rows(path, dist, minSavings);
    for i := 0 to |path| - 1
      invariant Histogram(hist, SumUpTo(multiset{}, rows, 0, i))
    {
      RowsAt(path, dist, minSavings, i);
      hist := CountRow(path, i, dist, minSavings, hist, SumUpTo(multiset{}, rows, 0, i));
    }
    SumUpToWhole(rows, 0, |path| - 1);
    assert Histogram(hist, AllSavings(path, dist, minSavings));
    forall v ensures v in hist <==> exists a, b :: Cheat(path, a, b, dist, minSavings, v) {
      assert v in hist <==> v in AllSavings(path, dist, minSavings);
      AllSavingsCheats(path, dist, minSavings, v);
    }
  }

  /** A part1 cheat: from path[k], jumping to a tile on the track within dist, saving v >= minSavings. */
  ghost predicate Cheat1(path: seq<Coord>, steps: map<Coord, nat>, dist: nat, minSavings: nat, v: nat) {
    exists k, pos :: 0 <= k < |path| && path[k] in steps && pos in steps && 0 < ManhattanLen(path[k], pos) <= dist &&
      steps[pos] == steps[path[k]] + 2 + v && v >= minSavings
  }

  /**
   * The savings loop of process_part1: for every path tile, every jump
   * target on the track whose step is more than two past this tile's step
   * records a saving of step - this_step - 2 when it is at least minSavings.
   */
  method Part1Savings<T>(g: Grid<T>, path: seq<Coord>, steps: map<Coord, nat>, dist: nat, minSavings: nat)
    returns (hist: map<nat, nat>)
    requires forall k :: 0 <= k < |path| ==> g.InBounds(path[k]) && path[k] in steps
    ensures forall v :: v in hist ==> hist[v] >= 1 && Cheat1(path, steps, dist, minSavings, v)
  {
    hist := map[];
    for k := 0 to |path|
      invariant forall v :: v in hist ==> hist[v] >= 1 && Cheat1(path, steps, dist, minSavings, v)
    {
      var p := path[k];
      var thisStep := steps[p];
      var jumps := PossibleJumps(g, p, dist);
      var rest := jumps;
      while rest != {}
        invariant rest <= jumps
        invariant forall v :: v in hist ==> hist[v] >= 1 && Cheat1(path, steps, dist, minSavings, v)
        decreases |rest|
      {
        var pos :| pos in rest;
        rest := rest - {pos};
        if pos in steps {
          var step := steps[pos];
          if step > thisStep + 2 {
            var savings := step - thisStep - 2;
            if savings >= minSavings {
              assert Cheat1(path, steps, dist, minSavings, savings) by {
                assert 0 <= k < |path| && path[k] in steps && pos in steps && 0 < ManhattanLen(path[k], pos) <= dist &&
                  steps[pos] == steps[path[k]] + 2 + savings;
              }
              hist := if savings in hist then hist[savings := hist[savings] + 1] else hist[savings := 1];
            }
          }
        }
      }
    }
  }

  /** A part1 cheat by places on the path: from path[i] to path[j], j being i + 2 + v. */
  ghost predicate IndexCheat1(path: seq<Coord>, dist: nat, minSavings: nat, v: nat, i: int, j: int) {
    0 <= i < |path| && 0 <= j < |path| && 0 < ManhattanLen(path[i], path[j]) <= dist &&
    j == i + 2 + v && v >= minSavings
  }

  /**
   * On a track without repeats, a part1 cheat is a jump from one tile of
   * the path to one 2 + v places further on, within the distance.
   */
  lemma {:induction false} Cheat1Indices(path: seq<Coord>, dist: nat, minSavings: nat, v: nat)
    requires NoRepeats(path)
    ensures Cheat1(path, StepsOf(path), dist, minSavings, v) <==> exists i, j :: IndexCheat1(path, dist, minSavings, v, i, j)
  {
    var steps := StepsOf(path);
    NoRepeatsSteps(path);
    if Cheat1(path, steps, dist, minSavings, v) {
      var k, pos :| 0 <= k < |path| && path[k] in steps && pos in steps && 0 < ManhattanLen(path[k], pos) <= dist &&
        steps[pos] == steps[path[k]] + 2 + v && v >= minSavings;
      StepsOfIndex(path, pos);
      assert IndexCheat1(path, dist, minSavings, v, k, steps[pos]);
    }
    if exists i, j :: IndexCheat1(path, dist, minSavings, v, i, j) {
      var i, j :| IndexCheat1(path, dist, minSavings, v, i, j);
      assert 0 <= i < |path| && path[i] in steps && path[j] in steps && 0 < ManhattanLen(path[i], path[j]) <= dist &&
        steps[path[j]] == steps[path[i]] + 2 + v && v >= minSavings;
    }
  }

  /** process_part1 without the printing: trace the track, then count the cheats. */
  method ProcessPart1(g: Grid<GridPoint>, fuel: nat, dist: nat, minSavings: nat) returns (r: Option<map<nat, nat>>)
    requires g.Valid()
    ensures r.Some? <==> TraceOf(g, fuel).Traced?
    ensures r.Some? ==> forall v :: v in r.value ==>
                          (r.value[v] >= 1 && Cheat1(TraceOf(g, fuel).path, TraceOf(g, fuel).steps, dist, minSavings, v))
    ensures r.Some? ==> exists p, s :: (TracePathSpec(g, p, s) &&
      forall v :: v in r.value ==> r.value[v] >= 1 && Cheat1(p, s, dist, minSavings, v))
  {
    var t := TracePath(g, fuel);
    if !t.Traced? {
      return None;
    }
    StepsOfKeys(t.path);
    forall k | 0 <= k < |t.path| ensures t.path[k] in t.steps {
      assert t.path[k] in StepsOf(t.path).Keys;
    }
    var hist := Part1Savings(g, t.path, t.steps, dist, minSavings);
    assert TracePathSpec(g, t.path, t.steps);
    r := Some(hist);
  }

  /** process_part2 without the printing: trace the track, then count the cheats. */
  method ProcessPart2(g: Grid<GridPoint>, fuel: nat, dist: nat, minSavings: nat) returns (r: Option<map<nat, nat>>)
    requires g.Valid()
    ensures r.Some? <==> TraceOf(g, fuel).Traced?
    ensures r.Some? ==> (|TraceOf(g, fuel).path| >= 1 &&
                         Histogram(r.value, AllSavings(TraceOf(g, fuel).path, dist, minSavings)))
    ensures r.Some? ==> forall v :: v in r.value <==> exists a, b :: Cheat(TraceOf(g, fuel).path, a, b, dist, minSavings, v)
    ensures r.Some? ==> exists p, s :: (TracePathSpec(g, p, s) &&
      forall v :: v in r.value <==> exists a, b :: Cheat(p, a, b, dist, minSavings, v))
  {
    var t := TracePath(g, fuel);
    if !t.Traced? {
      return None;
    }
    var hist := Part2Savings(t.path, dist, minSavings);
    assert TracePathSpec(g, t.path, t.steps);
    r := Some(hist);
  }

}
