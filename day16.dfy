/**
 * src/bin/d16.rs: the reindeer maze. A depth-first search from the start
 * tile over simple paths, where a step forward costs 1 and a quarter turn
 * followed by a step costs 1001, and the search stops when the tile ahead
 * is the end tile.
 */
module Day16 {
  import opened Wrappers
  import opened Utils

  datatype State = Wall | Empty | Start | End

  predicate IsMazeByte(b: char) {
    b == '#' || b == '.' || b == 'S' || b == 'E'
  }

  /** The byte a tile is drawn with in the puzzle input. */
  function Symbol(s: State): char {
    match s
    case Wall => '#'
    case Empty => '.'
    case Start => 'S'
    case End => 'E'
  }

  /** From<u8>: decode one input byte; every other byte panics. */
  function StateOf(b: char): (s: State)
    requires IsMazeByte(b)
    ensures Symbol(s) == b
  {
    if b == '#' then Wall
    else if b == '.' then Empty
    else if b == 'S' then Start
    else End
  }

  lemma {:induction false} StateOfSymbol(s: State)
    ensures StateOf(Symbol(s)) == s
  {
  }

  /** The maze is enclosed: every tile on the outer edge is a wall. */
  ghost predicate Walled(g: Grid<State>) {
    g.Valid() && g.width > 0 && g.height > 0 &&
    forall p: Coord :: g.InBounds(p) && (p.row == 0 || p.col == 0 || p.row == g.height - 1 || p.col == g.width - 1) ==>
      g.At(p) == Wall
  }

  /** A tile that is not a wall has a neighbour inside the maze on every side. */
  lemma {:induction false} Interior(g: Grid<State>, p: Coord)
    requires Walled(g) && g.InBounds(p) && g.At(p) != Wall
    ensures 0 < p.row < g.height - 1 && 0 < p.col < g.width - 1
  {
  }

  /** next_pos(...).unwrap() on a tile that is not a wall. */
  function Step(g: Grid<State>, p: Coord, d: Dir): (q: Coord)
    requires Walled(g) && g.InBounds(p) && g.At(p) != Wall
    ensures g.InBounds(q) && Some(q) == InDir(p, d)
  {
    Interior(g, p);
    g.NextPos(p, d).value
  }

  /** Every tile of the maze. */
  ghost function Tiles(g: Grid<State>): set<Coord> {
    set r: nat, c: nat | r < g.height && c < g.width :: Coord(r, c)
  }

  lemma {:induction false} TilesShrink(g: Grid<State>, visited: set<Coord>, p: Coord)
    requires g.InBounds(p) && p !in visited
    ensures |Tiles(g) - (visited + {p})| < |Tiles(g) - visited|
  {
    assert p in Tiles(g) - visited;
    assert Tiles(g) - (visited + {p}) == (Tiles(g) - visited) - {p};
  }

  /** The update `best.map(|old_v| v.max(old_v))` that a turn's result makes. */
  function KeepMax(best: Option<nat>, v: nat): (r: Option<nat>)
    ensures best.None? ==> r.None?
    ensures best.Some? ==> r == Some(if v > best.value then v else best.value)
  {
    match best
    case None => None
    case Some(prev) => Some(if v > prev then v else prev)
  }

  /** `if let Some(v) = result { best = best.map(...) }` */
  function Merge(best: Option<nat>, result: Option<nat>): (r: Option<nat>)
    ensures r.Some? ==> best.Some? && (r == best || r == result)
  {
    match result
    case Some(v) => KeepMax(best, v)
    case None => best
  }

  /** Merging keeps best's absence and raises best to at least both values. */
  lemma {:induction false} MergeBounds(best: Option<nat>, result: Option<nat>)
    ensures Merge(best, result).None? <==> best.None?
    ensures Merge(best, result).Some? ==> best.value <= Merge(best, result).value
    ensures Merge(best, result).Some? && result.Some? ==> result.value <= Merge(best, result).value
  {
  }

  /** One move of a search: turn (or not), then step one tile. */
  datatype Move = Straight | TurnedRight | TurnedLeft

  function Heading(facing: Dir, m: Move): Dir {
    match m
    case Straight => facing
    case TurnedRight => TurnRight(facing)
    case TurnedLeft => TurnLeft(facing)
  }

  /** A step forward costs 1, a quarter turn and a step 1001. */
  function MoveCost(m: Move): nat {
    if m == Straight then 1 else 1001
  }

  function Cost(route: seq<Move>): nat {
    if |route| == 0 then 0 else MoveCost(route[0]) + Cost(route[1..])
  }

  /**
   * best_path_from. The tile ahead is tested first: reaching the end
   * costs one more step. Otherwise the search goes on straight ahead,
   * then after a right and after a left quarter turn, into empty tiles
   * only, never revisiting a tile; a turn's result only updates a result
   * already found, keeping the larger one.
   */
  function BestPathFrom(g: Grid<State>, visited: set<Coord>, start: Coord, facing: Dir, score: nat): (r: Option<nat>)
    requires Walled(g) && g.InBounds(start) && g.At(start) != Wall
    ensures start in visited ==> r.None?
    ensures r.Some? ==> r.value > score
    decreases |Tiles(g) - visited|, 1
  {
    if start in visited then None
    else if g.At(Step(g, start, facing)) == End then Some(score + 1)
    else
      TilesShrink(g, visited, start);
      var seen := visited + {start};
      var best := Branch(g, seen, start, facing, Straight, score);
      var best := Merge(best, Branch(g, seen, start, facing, TurnedRight, score));
      Merge(best, Branch(g, seen, start, facing, TurnedLeft, score))
  }

  /** The search after one move, if the move leads onto an empty tile. */
  function Branch(g: Grid<State>, seen: set<Coord>, start: Coord, facing: Dir, m: Move, score: nat): (r: Option<nat>)
    requires Walled(g) && g.InBounds(start) && g.At(start) != Wall
    ensures r.Some? ==> r.value > score + MoveCost(m)
    decreases |Tiles(g) - seen|, 2
  {
    var d := Heading(facing, m);
    var next := Step(g, start, d);
    if g.At(next) == Empty then BestPathFrom(g, seen, next, d, score + MoveCost(m)) else None
  }

  /**
   * A route the search can follow: a simple path through empty tiles,
   * avoiding `visited`, that ends by stepping straight onto the end tile,
   * and that never passes a tile whose tile ahead is the end tile.
   */
  ghost predicate IsRoute(g: Grid<State>, visited: set<Coord>, start: Coord, facing: Dir, route: seq<Move>)
    requires Walled(g) && g.InBounds(start) && g.At(start) != Wall
    decreases |route|
  {
    |route| >= 1 && start !in visited &&
    if g.At(Step(g, start, facing)) == End then route == [Straight]
    else
      var d := Heading(facing, route[0]);
      var next := Step(g, start, d);
      |route| > 1 && g.At(next) == Empty && IsRoute(g, visited + {start}, next, d, route[1..])
  }

  /** Whatever best_path_from returns is the cost of a route the search followed. */
  lemma {:induction false} BestPathSound(g: Grid<State>, visited: set<Coord>, start: Coord, facing: Dir, score: nat)
    returns (route: seq<Move>)
    requires Walled(g) && g.InBounds(start) && g.At(start) != Wall
    requires BestPathFrom(g, visited, start, facing, score).Some?
    ensures IsRoute(g, visited, start, facing, route)
    ensures BestPathFrom(g, visited, start, facing, score).value == score + Cost(route)
    decreases |Tiles(g) - visited|, 1
  {
    if g.At(Step(g, start, facing)) == End {
      route := [Straight];
      assert Cost(route) == 1;
    } else {
      TilesShrink(g, visited, start);
      var seen := visited + {start};
      var b0 := Branch(g, seen, start, facing, Straight, score);
      var b1 := Branch(g, seen, start, facing, TurnedRight, score);
      var b2 := Branch(g, seen, start, facing, TurnedLeft, score);
      var r := BestPathFrom(g, visited, start, facing, score);
      var m: Move;
      if r == b2 {
        m := TurnedLeft;
      } else if r == b1 {
        m := TurnedRight;
      } else {
        assert r == b0;
        m := Straight;
      }
      var rest := BranchSound(g, seen, start, facing, m, score);
      route := [m] + rest;
      assert route[1..] == rest;
    }
  }

  lemma {:induction false} BranchSound(g: Grid<State>, seen: set<Coord>, start: Coord, facing: Dir, m: Move, score: nat)
    returns (route: seq<Move>)
    requires Walled(g) && g.InBounds(start) && g.At(start) != Wall
    requires Branch(g, seen, start, facing, m, score).Some?
    ensures var d := Heading(facing, m);
      var next := Step(g, start, d);
      g.At(next) == Empty && IsRoute(g, seen, next, d, route) &&
      Branch(g, seen, start, facing, m, score).value == score + MoveCost(m) + Cost(route)
    decreases |Tiles(g) - seen|, 2
  {
    var d := Heading(facing, m);
    route := BestPathSound(g, seen, Step(g, start, d), d, score + MoveCost(m));
  }

  /**
   * Reaching the end tile ends the search; otherwise the result is the
   * straight-ahead branch's result raised by the turns' results, and it is
   * None whenever the straight-ahead branch is None.
   */
  lemma {:induction false} BestPathBranches(g: Grid<State>, visited: set<Coord>, start: Coord, facing: Dir, score: nat)
    requires Walled(g) && g.InBounds(start) && g.At(start) != Wall && start !in visited
    ensures g.At(Step(g, start, facing)) == End ==> BestPathFrom(g, visited, start, facing, score) == Some(score + 1)
    ensures g.At(Step(g, start, facing)) != End ==>
      var r := BestPathFrom(g, visited, start, facing, score);
      var seen := visited + {start};
      (r.None? <==> Branch(g, seen, start, facing, Straight, score).None?) &&
      (r.Some? ==> forall m: Move :: Branch(g, seen, start, facing, m, score).Some? ==>
                     Branch(g, seen, start, facing, m, score).value <= r.value)
  {
    if g.At(Step(g, start, facing)) != End {
      TilesShrink(g, visited, start);
      var seen := visited + {start};
      var b0 := Branch(g, seen, start, facing, Straight, score);
      var b1 := Branch(g, seen, start, facing, TurnedRight, score);
      var b2 := Branch(g, seen, start, facing, TurnedLeft, score);
      var r := BestPathFrom(g, visited, start, facing, score);
      assert r == Merge(Merge(b0, b1), b2);
      MergeBounds(b0, b1);
      MergeBounds(Merge(b0, b1), b2);
      assert r.None? <==> b0.None?;
      forall m: Move | Branch(g, seen, start, facing, m, score).Some? && r.Some?
        ensures Branch(g, seen, start, facing, m, score).value <= r.value
      {
        match m
        case Straight =>
        case TurnedRight =>
        case TurnedLeft =>
      }
    }
  }

  /**
   * main: search from the first start tile, facing left, with score 0 and
   * nothing visited. The end tile is looked up too (and must exist).
   */
  function Solve(g: Grid<State>): (r: Option<nat>)
    requires Walled(g) && Start in g.data && End in g.data
    ensures r.Some? ==> exists route :: IsRoute(g, {}, Find(g, Start).value, Left, route) && r.value == Cost(route)
  {
    var starts := FindWith(g, (s: State) => s == Start);
    FindWithFirst(g, (s: State) => s == Start, Start);
    var start := starts[0];
    var r := BestPathFrom(g, {}, start, Left, 0);
    assert r.Some? ==> exists route :: IsRoute(g, {}, start, Left, route) && r.value == Cost(route) by {
      if r.Some? {
        var route := BestPathSound(g, {}, start, Left, 0);
      }
    }
    r
  }
}
