/**
 * src/bin/d18.rs: the falling-bytes maze. A unit-cost best-first search
 * from the top-left to the bottom-right corner of a 71 x 71 grid around a
 * set of corrupted positions, and the part2 loop that adds one obstacle
 * at a time until no path is left.
 */
module Day18 {
  import opened Wrappers
  import opened Text

  const WIDTH: nat := 71
  const HEIGHT: nat := 71
  /** u32::MAX, what Cost::default and a missing gScore stand for. */
  const COST_MAX: nat := 0xFFFF_FFFF

  datatype Pos = Pos(x: nat, y: nat)

  const START: Pos := Pos(0, 0)
  const GOAL: Pos := Pos(WIDTH - 1, HEIGHT - 1)

  predicate InGrid(p: Pos) {
    p.x < WIDTH && p.y < HEIGHT
  }

  /** An entry of the open set: a position, the cost it was pushed with, and its f-score. */
  datatype PosItem = PosItem(pos: Pos, cost: nat, h: nat)

  /**
   * Ord for PosItem compares the costs reversed, so BinaryHeap::pop
   * yields an entry of least cost; h plays no part.
   */
  predicate PopsFirst(open: set<PosItem>, e: PosItem) {
    e in open && forall o :: o in open ==> e.cost <= o.cost
  }

  lemma {:induction false} LeastExistsUpTo(open: set<PosItem>, n: nat)
    requires exists e :: e in open && e.cost <= n
    ensures exists e :: PopsFirst(open, e)
    decreases n
  {
    if exists e :: e in open && e.cost < n {
      LeastExistsUpTo(open, n - 1);
    } else {
      var e :| e in open && e.cost <= n;
      assert PopsFirst(open, e);
    }
  }

  /** A non-empty heap always has an entry to pop. */
  lemma {:induction false} LeastExists(open: set<PosItem>)
    requires open != {}
    ensures exists e :: PopsFirst(open, e)
  {
    var e :| e in open;
    LeastExistsUpTo(open, e.cost);
  }

  /**
   * The heuristic h of shortest_path. It measures from (WIDTH, HEIGHT), one
   * past the goal in each coordinate, so it is the Manhattan distance to the
   * goal plus 2; it fits a u32.
   */
  function H(p: Pos): (h: nat)
    requires InGrid(p)
    ensures h == (GOAL.x - p.x) + (GOAL.y - p.y) + 2
    ensures 2 <= h <= WIDTH + HEIGHT && h <= COST_MAX
  {
    (WIDTH - p.x) + (HEIGHT - p.y)
  }

  /** One step apart in one coordinate. */
  predicate Adjacent(p: Pos, q: Pos) {
    (p.y == q.y && (p.x == q.x + 1 || q.x == p.x + 1)) ||
    (p.x == q.x && (p.y == q.y + 1 || q.y == p.y + 1))
  }

  /**
   * neighbors: the positions one step left, right, up and down that lie
   * inside the grid and are not corrupted.
   */
  function Neighbors(pos: Pos, objs: set<Pos>): (v: seq<Pos>)
    ensures |v| <= 4
    ensures forall n :: n in v ==> Adjacent(pos, n) && n !in objs
    ensures InGrid(pos) ==> forall n :: n in v <==> Step(objs, pos, n)
  {
    var left := if pos.x > 0 && Pos(pos.x - 1, pos.y) !in objs then [Pos(pos.x - 1, pos.y)] else [];
    var right := if pos.x < WIDTH - 1 && Pos(pos.x + 1, pos.y) !in objs then [Pos(pos.x + 1, pos.y)] else [];
    var up := if pos.y > 0 && Pos(pos.x, pos.y - 1) !in objs then [Pos(pos.x, pos.y - 1)] else [];
    var down := if pos.y < HEIGHT - 1 && Pos(pos.x, pos.y + 1) !in objs then [Pos(pos.x, pos.y + 1)] else [];
    left + right + up + down
  }

  /** A move of the search: to an adjacent position inside the grid that is not corrupted. */
  predicate Step(objs: set<Pos>, p: Pos, q: Pos) {
    InGrid(q) && Adjacent(p, q) && q !in objs
  }

  /** A walk from the start, one move at a time. */
  ghost predicate Walk(objs: set<Pos>, path: seq<Pos>) {
    |path| >= 1 && path[0] == START &&
    forall k :: 0 <= k < |path| - 1 ==> Step(objs, path[k], path[k + 1])
  }

  /** p can be reached from the start in exactly n moves. */
  ghost predicate Reaches(objs: set<Pos>, p: Pos, n: nat) {
    exists path :: Walk(objs, path) && |path| == n + 1 && path[n] == p
  }

  lemma {:induction false} ReachesStart(objs: set<Pos>)
    ensures Reaches(objs, START, 0)
  {
    assert Walk(objs, [START]);
  }

  lemma {:induction false} ReachesStep(objs: set<Pos>, p: Pos, g: nat, q: Pos)
    requires Reaches(objs, p, g) && Step(objs, p, q)
    ensures Reaches(objs, q, g + 1)
  {
    var path :| Walk(objs, path) && |path| == g + 1 && path[g] == p;
    var longer := path + [q];
    assert longer[g + 1] == q;
    assert Walk(objs, longer);
  }

  function OpenHas(open: set<PosItem>, p: Pos): bool {
    exists e :: e in open && e.pos == p
  }

  /**
   * What holds throughout shortest_path: every score and every open entry
   * is the length of a real walk, the open set holds one entry per
   * position, and a scored goal is still open.
   */
  ghost predicate Scored(objs: set<Pos>, open: set<PosItem>, gScore: map<Pos, nat>) {
    START in gScore &&
    (forall p :: p in gScore ==> InGrid(p) && Reaches(objs, p, gScore[p])) &&
    (forall e :: e in open ==> e.pos in gScore && Reaches(objs, e.pos, e.cost)) &&
    (forall a, b :: a in open && b in open && a.pos == b.pos ==> a == b) &&
    (GOAL in gScore ==> OpenHas(open, GOAL))
  }

  /** p is still open, or every move from p leads to a scored position. */
  ghost predicate Settled(objs: set<Pos>, open: set<PosItem>, gScore: map<Pos, nat>, p: Pos) {
    OpenHas(open, p) || forall n :: Step(objs, p, n) ==> n in gScore
  }

  /** Between two rounds: Scored, and every scored position Settled. */
  ghost predicate SearchInv(objs: set<Pos>, open: set<PosItem>, gScore: map<Pos, nat>) {
    Scored(objs, open, gScore) &&
    forall p :: p in gScore ==> Settled(objs, open, gScore, p)
  }

  /**
   * While current's neighbors are relaxed: as SearchInv, except that
   * current, already popped, may still have unscored neighbors.
   */
  ghost predicate RelaxInv(objs: set<Pos>, cur: Pos, open: set<PosItem>, gScore: map<Pos, nat>) {
    Scored(objs, open, gScore) && cur in gScore && cur != GOAL &&
    forall p :: p in gScore && p != cur ==> Settled(objs, open, gScore, p)
  }

  /** The new facts one rescoring brings, proved one at a time. */
  lemma {:induction false} RescoredReach(objs: set<Pos>, gScore: map<Pos, nat>, n: Pos, t: nat)
    requires forall p :: p in gScore ==> InGrid(p) && Reaches(objs, p, gScore[p])
    requires InGrid(n) && Reaches(objs, n, t)
    ensures forall p :: p in gScore[n := t] ==> InGrid(p) && Reaches(objs, p, gScore[n := t][p])
  {
  }

  lemma {:induction false} PushedReach(objs: set<Pos>, open: set<PosItem>, gScore: map<Pos, nat>, n: Pos, t: nat,
                    open': set<PosItem>)
    requires forall e :: e in open ==> e.pos in gScore && Reaches(objs, e.pos, e.cost)
    requires Reaches(objs, n, t) && InGrid(n)
    requires open' == open || (!OpenHas(open, n) && open' == open + {PosItem(n, t, t + H(n))})
    ensures forall e :: e in open' ==> e.pos in gScore[n := t] && Reaches(objs, e.pos, e.cost)
  {
    forall e | e in open' ensures e.pos in gScore[n := t] && Reaches(objs, e.pos, e.cost) {
      if e !in open {
        assert e == PosItem(n, t, t + H(n));
      }
    }
  }

  lemma {:induction false} PushedUnique(open: set<PosItem>, n: Pos, t: nat, f: nat, open': set<PosItem>)
    requires forall a, b :: a in open && b in open && a.pos == b.pos ==> a == b
    requires open' == open || (!OpenHas(open, n) && open' == open + {PosItem(n, t, f)})
    ensures forall a, b :: a in open' && b in open' && a.pos == b.pos ==> a == b
  {
    forall a, b | a in open' && b in open' && a.pos == b.pos ensures a == b {
      if a !in open || b !in open {
        assert !OpenHas(open, n);
      }
    }
  }

  lemma {:induction false} GoalStaysOpen(open: set<PosItem>, gScore: map<Pos, nat>, n: Pos, t: nat, open': set<PosItem>)
    requires GOAL in gScore ==> OpenHas(open, GOAL)
    requires open <= open' && OpenHas(open', n)
    ensures GOAL in gScore[n := t] ==> OpenHas(open', GOAL)
  {
    if GOAL in gScore && GOAL != n {
      var e :| e in open && e.pos == GOAL;
      assert e in open';
    }
  }

  /** Rescoring n with a walk length t, and pushing an entry for n unless one is open, keeps Scored. */
  lemma {:induction false} ScoredAfterUpdate(objs: set<Pos>, open: set<PosItem>, gScore: map<Pos, nat>, n: Pos, t: nat,
                          open': set<PosItem>)
    requires Scored(objs, open, gScore) && InGrid(n) && Reaches(objs, n, t)
    requires open' == open || (!OpenHas(open, n) && open' == open + {PosItem(n, t, t + H(n))})
    requires OpenHas(open', n)
    ensures Scored(objs, open', gScore[n := t])
  {
    RescoredReach(objs, gScore, n, t);
    PushedReach(objs, open, gScore, n, t, open');
    PushedUnique(open, n, t, t + H(n), open');
    GoalStaysOpen(open, gScore, n, t, open');
  }

  /** Settled survives scoring more positions and opening more of them. */
  lemma {:induction false} SettledGrows(objs: set<Pos>, open: set<PosItem>, gScore: map<Pos, nat>,
                     open': set<PosItem>, gScore': map<Pos, nat>, p: Pos)
    requires Settled(objs, open, gScore, p)
    requires open <= open' && gScore.Keys <= gScore'.Keys
    ensures Settled(objs, open', gScore', p)
  {
    if OpenHas(open, p) {
      var e :| e in open && e.pos == p;
      assert e in open';
    }
  }

  /** A score below the number of scored positions: what keeps tentative scores below u32::MAX. */
  ghost predicate Bounded(gScore: map<Pos, nat>) {
    forall p :: p in gScore ==> gScore[p] < |gScore|
  }

  /** The grid row y, up to column w. */
  ghost function RowOf(w: nat, y: nat): (r: set<Pos>)
    ensures |r| == w
    ensures forall p :: p in r <==> p.x < w && p.y == y
  {
    if w == 0 then {} else
      var r := RowOf(w - 1, y) + {Pos(w - 1, y)};
      assert Pos(w - 1, y) !in RowOf(w - 1, y);
      r
  }

  /** The first h rows of the grid, up to column w. */
  ghost function Box(w: nat, h: nat): (r: set<Pos>)
    ensures |r| <= w * h
    ensures forall p :: p in r <==> p.x < w && p.y < h
  {
    if h == 0 then {} else Box(w, h - 1) + RowOf(w, h - 1)
  }

  /** A set of positions inside the first h rows and w columns has at most w * h members. */
  lemma {:induction false} BoxCard(cells: set<Pos>, w: nat, h: nat)
    requires forall p :: p in cells ==> p.x < w && p.y < h
    ensures |cells| <= w * h
  {
    var box := Box(w, h);
    assert box == cells + (box - cells);
  }

  /** A set of grid positions has at most WIDTH * HEIGHT members. */
  lemma {:induction false} GridCard(cells: set<Pos>)
    requires forall p :: p in cells ==> InGrid(p)
    ensures |cells| <= WIDTH * HEIGHT
  {
    BoxCard(cells, WIDTH, HEIGHT);
  }

  /** Settled survives rescoring n, for every position but cur and n. */
  lemma {:induction false} SettledAfterUpdate(objs: set<Pos>, cur: Pos, n: Pos, open: set<PosItem>, gScore: map<Pos, nat>,
                           open': set<PosItem>, gScore': map<Pos, nat>)
    requires forall p :: p in gScore && p != cur ==> Settled(objs, open, gScore, p)
    requires open <= open' && OpenHas(open', n) && gScore'.Keys == gScore.Keys + {n}
    ensures forall p :: p in gScore' && p != cur ==> Settled(objs, open', gScore', p)
  {
    forall p | p in gScore' && p != cur ensures Settled(objs, open', gScore', p) {
      if p != n {
        SettledGrows(objs, open, gScore, open', gScore', p);
      } else {
        var e :| e in open' && e.pos == n;
      }
    }
  }

  /** Rescoring n with one more than cur's score keeps Bounded. */
  lemma {:induction false} BoundedAfterUpdate(gScore: map<Pos, nat>, cur: Pos, n: Pos)
    requires Bounded(gScore) && cur in gScore
    requires n in gScore ==> gScore[cur] + 1 < gScore[n]
    ensures Bounded(gScore[n := gScore[cur] + 1])
  {
    if n !in gScore {
      assert |gScore[n := gScore[cur] + 1]| == |gScore| + 1;
    }
  }

  /** Rescoring neighbor n of cur with one more than cur's score, and opening it, keeps RelaxInv. */
  lemma {:induction false} UpdateKeepsRelaxInv(objs: set<Pos>, cur: Pos, n: Pos, open: set<PosItem>, gScore: map<Pos, nat>,
                            open': set<PosItem>, gScore': map<Pos, nat>)
    requires RelaxInv(objs, cur, open, gScore) && Step(objs, cur, n)
    requires open' == open || (!OpenHas(open, n) && open' == open + {PosItem(n, gScore[cur] + 1, gScore[cur] + 1 + H(n))})
    requires OpenHas(open', n) && gScore' == gScore[n := gScore[cur] + 1]
    ensures RelaxInv(objs, cur, open', gScore')
  {
    var t := gScore[cur] + 1;
    ReachesStep(objs, cur, gScore[cur], n);
    ScoredAfterUpdate(objs, open, gScore, n, t, open');
    assert open <= open' && gScore'.Keys == gScore.Keys + {n};
    SettledAfterUpdate(objs, cur, n, open, gScore, open', gScore');
  }

  /** One neighbor n of current: the body of the `for n in neighbors(...)` loop. */
  method RelaxOne(objs: set<Pos>, cur: Pos, n: Pos, open: set<PosItem>, gScore: map<Pos, nat>,
                  cameFrom: map<Pos, Pos>, fScore: map<Pos, nat>)
    returns (open': set<PosItem>, gScore': map<Pos, nat>, cameFrom': map<Pos, Pos>, fScore': map<Pos, nat>)
    requires RelaxInv(objs, cur, open, gScore) && Bounded(gScore) && Step(objs, cur, n)
    ensures RelaxInv(objs, cur, open', gScore') && Bounded(gScore')
    ensures open <= open' && gScore.Keys + {n} <= gScore'.Keys
    ensures forall p :: p in gScore ==> gScore'[p] <= gScore[p]
  {
    open', gScore', cameFrom', fScore' := open, gScore, cameFrom, fScore;
    var tentative := if cur in gScore then gScore[cur] + 1 else COST_MAX;
    var known := if n in gScore then gScore[n] else COST_MAX;
    if tentative < known {
      cameFrom' := cameFrom'[n := cur];
      gScore' := gScore'[n := tentative];
      var newF := tentative + H(n);
      fScore' := fScore'[n := newF];
      if !OpenHas(open', n) {
        open' := open' + {PosItem(n, tentative, newF)};
        assert PosItem(n, tentative, newF) in open';
      }
      UpdateKeepsRelaxInv(objs, cur, n, open, gScore, open', gScore');
      BoundedAfterUpdate(gScore, cur, n);
    } else {
      GridCard(gScore.Keys);
      assert tentative < COST_MAX;
    }
  }

  /** Once every neighbor of cur is scored, cur is Settled too. */
  lemma {:induction false} RelaxDone(objs: set<Pos>, cur: Pos, open: set<PosItem>, gScore: map<Pos, nat>, ns: seq<Pos>)
    requires RelaxInv(objs, cur, open, gScore)
    requires forall n :: n in ns <==> Step(objs, cur, n)
    requires forall j :: 0 <= j < |ns| ==> ns[j] in gScore
    ensures SearchInv(objs, open, gScore)
  {
    assert Settled(objs, open, gScore, cur);
  }

  lemma {:induction false} CoveredGrows(ns: seq<Pos>, k: nat, gScore: map<Pos, nat>, gScore': map<Pos, nat>)
    requires k < |ns| && forall j :: 0 <= j < k ==> ns[j] in gScore
    requires gScore.Keys + {ns[k]} <= gScore'.Keys
    ensures forall j :: 0 <= j < k + 1 ==> ns[j] in gScore'
  {
  }

  /** The `for n in neighbors(current.pos, &objs)` loop. */
  method Relax(objs: set<Pos>, cur: Pos, open: set<PosItem>, gScore: map<Pos, nat>,
               cameFrom: map<Pos, Pos>, fScore: map<Pos, nat>)
    returns (open': set<PosItem>, gScore': map<Pos, nat>, cameFrom': map<Pos, Pos>, fScore': map<Pos, nat>)
    requires RelaxInv(objs, cur, open, gScore) && Bounded(gScore)
    ensures SearchInv(objs, open', gScore') && Bounded(gScore')
  {
    open', gScore', cameFrom', fScore' := open, gScore, cameFrom, fScore;
    var ns := Neighbors(cur, objs);
    for k := 0 to |ns|
      invariant RelaxInv(objs, cur, open', gScore') && Bounded(gScore')
      invariant forall j :: 0 <= j < k ==> ns[j] in gScore'
    {
      ghost var before := gScore';
      open', gScore', cameFrom', fScore' := RelaxOne(objs, cur, ns[k], open', gScore', cameFrom', fScore');
      CoveredGrows(ns, k, before, gScore');
    }
    RelaxDone(objs, cur, open', gScore', ns);
  }

  /** Everything a walk from the start reaches, once the scored set is closed under neighbors. */
  lemma {:induction false} ClosedHoldsWalks(objs: set<Pos>, gScore: map<Pos, nat>, path: seq<Pos>)
    requires START in gScore
    requires forall p :: p in gScore ==> forall n :: Step(objs, p, n) ==> n in gScore
    requires Walk(objs, path)
    ensures path[|path| - 1] in gScore
    decreases |path|
  {
    if |path| > 1 {
      var front := path[..|path| - 1];
      assert Walk(objs, front) by {
        assert forall k :: 0 <= k < |front| ==> front[k] == path[k];
      }
      ClosedHoldsWalks(objs, gScore, front);
      assert Step(objs, path[|path| - 2], path[|path| - 1]);
    }
  }

  datatype Outcome = Found(cost: nat) | NoPath | OutOfFuel

  /** Some walk from the start ends at the goal. */
  ghost predicate Connected(objs: set<Pos>) {
    exists n :: Reaches(objs, GOAL, n)
  }

  /** A search whose open set runs dry has scored everything a walk reaches, and the goal is not among it. */
  lemma {:induction false} NotConnected(objs: set<Pos>, gScore: map<Pos, nat>)
    requires SearchInv(objs, {}, gScore)
    ensures !Connected(objs)
  {
    if Connected(objs) {
      var n: nat :| Reaches(objs, GOAL, n);
      var path :| Walk(objs, path) && |path| == n + 1 && path[n] == GOAL;
      forall p | p in gScore ensures forall m :: Step(objs, p, m) ==> m in gScore {
        assert Settled(objs, {}, gScore, p);
      }
      ClosedHoldsWalks(objs, gScore, path);
    }
  }

  /**
   * shortest_path: pop the cheapest open entry; stop with its cost at the
   * goal; otherwise relax its neighbors, scoring a neighbor one more than
   * the popped position when that beats its score, and pushing it unless
   * an entry for it is already open. An empty open set means no path. The
   * search runs at most fuel rounds.
   */
  method ShortestPath(objs: set<Pos>, fuel: nat) returns (r: Outcome)
    ensures r.Found? ==> Reaches(objs, GOAL, r.cost)
    ensures r.NoPath? ==> !Connected(objs)
  {
    var open: set<PosItem> := {PosItem(START, 0, H(START))};
    var cameFrom: map<Pos, Pos> := map[];
    var gScore: map<Pos, nat> := map[START := 0];
    var fScore: map<Pos, nat> := map[START := H(START)];
    InitialSearchInv(objs);
    var rounds := 0;
    while open != {}
      invariant SearchInv(objs, open, gScore) && Bounded(gScore)
      invariant rounds <= fuel
      decreases fuel - rounds
    {
      if rounds == fuel {
        return OutOfFuel;
      }
      rounds := rounds + 1;
      LeastExists(open);
      var current :| PopsFirst(open, current);
      ghost var was := open;
      open := open - {current};
      if current.pos == GOAL {
        OpenReaches(objs, was, gScore, current);
        return Found(current.cost);
      }
      LeavesRelaxInv(objs, was, gScore, current);
      open, gScore, cameFrom, fScore := Relax(objs, current.pos, open, gScore, cameFrom, fScore);
    }
    NotConnected(objs, gScore);
    return NoPath;
  }

  /** The search starts with the start scored 0 and open. */
  lemma {:induction false} InitialSearchInv(objs: set<Pos>)
    ensures SearchInv(objs, {PosItem(START, 0, H(START))}, map[START := 0])
    ensures Bounded(map[START := 0])
  {
    ReachesStart(objs);
    assert OpenHas({PosItem(START, 0, H(START))}, START);
  }

  /** The cost of an open entry is the length of a walk to its position. */
  lemma {:induction false} OpenReaches(objs: set<Pos>, open: set<PosItem>, gScore: map<Pos, nat>, e: PosItem)
    requires Scored(objs, open, gScore) && e in open
    ensures Reaches(objs, e.pos, e.cost)
  {
  }

  /** Popping an entry not at the goal leaves RelaxInv for its position. */
  lemma {:induction false} LeavesRelaxInv(objs: set<Pos>, open: set<PosItem>, gScore: map<Pos, nat>, e: PosItem)
    requires SearchInv(objs, open, gScore) && e in open && e.pos != GOAL
    ensures RelaxInv(objs, e.pos, open - {e}, gScore)
  {
    var open' := open - {e};
    forall p | p in gScore && p != e.pos ensures Settled(objs, open', gScore, p) {
      if OpenHas(open, p) {
        var o :| o in open && o.pos == p;
        assert o in open';
      }
    }
    assert !OpenHas(open', e.pos);
    assert GOAL in gScore ==> OpenHas(open', GOAL) by {
      if GOAL in gScore {
        var o :| o in open && o.pos == GOAL;
        assert o in open';
      }
    }
  }

  /**
   * parse_pos: the numbers before and after the first comma, each a u8;
   * None where the source panics (no comma, or a part that is not a u8).
   */
  function ParsePos(s: string): (r: Option<Pos>)
    ensures r.Some? ==> r.value.x < 256 && r.value.y < 256
    ensures ',' !in s ==> r.None?
  {
    FindChar(s, ',');
    match Find(s, ",")
    case None => None
    case Some(i) =>
      match (ParseUnsigned(s[..i], 255), ParseUnsigned(s[i + 1..], 255))
      case (Some(x), Some(y)) => Some(Pos(x, y))
      case _ => None
  }

  /** A position written as "x,y" is read back. */
  lemma {:induction false} ParsePosRoundTrip(x: nat, y: nat)
    requires x < 256 && y < 256
    ensures ParsePos(Digits(x) + "," + Digits(y)) == Some(Pos(x, y))
  {
    var dx, dy := Digits(x), Digits(y);
    var s := dx + "," + dy;
    assert s[|dx|] == ',';
    FindChar(s, ',');
    var i := Find(s, ",").value;
    assert s[..i] == dx && s[i + 1..] == dy;
    DigitsRoundTrip(x, 255);
    DigitsRoundTrip(y, 255);
  }

  /** What part2 ends with. */
  datatype Blocking = Blocked(index: nat, at: Pos) | Exhausted | SearchOutOfFuel

  /** The first corruptions and rest[0..n]. */
  function Corrupted(objs0: set<Pos>, rest: seq<Pos>, n: nat): (c: set<Pos>)
    requires n <= |rest|
    ensures forall p :: p in c <==> p in objs0 || p in rest[..n]
  {
    if n == 0 then objs0 else Corrupted(objs0, rest, n - 1) + {rest[n - 1]}
  }

  /**
   * part2: after the first objs0 corruptions, add the following ones one
   * at a time and stop at the first after which no path is left. Running
   * out of input is the source's unwrap panic.
   */
  method Part2(objs0: set<Pos>, rest: seq<Pos>, fuel: nat) returns (r: Blocking)
    ensures r.Blocked? ==>
      r.index < |rest| && r.at == rest[r.index] &&
      !Connected(Corrupted(objs0, rest, r.index + 1)) &&
      (forall j :: 0 < j <= r.index ==> Connected(Corrupted(objs0, rest, j)))
    ensures r.Exhausted? ==> forall j :: 0 < j <= |rest| ==> Connected(Corrupted(objs0, rest, j))
  {
    var objs := objs0;
    for i := 0 to |rest|
      invariant objs == Corrupted(objs0, rest, i)
      invariant forall j :: 0 < j <= i ==> Connected(Corrupted(objs0, rest, j))
    {
      objs := objs + {rest[i]};
      assert objs == Corrupted(objs0, rest, i + 1);
      var found := ShortestPath(objs, fuel);
      match found {
        case Found(c) =>
          assert Connected(objs);
          assert forall j :: 0 < j <= i + 1 ==> Connected(Corrupted(objs0, rest, j));
        case NoPath =>
          return Blocked(i, rest[i]);
        case OutOfFuel =>
          return SearchOutOfFuel;
      }
    }
    return Exhausted;
  }
}
