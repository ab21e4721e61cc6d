/**
 * Day 10: hiking trails on a topographic map of heights 0 to 9. A trail
 * climbs by exactly one per step between orthogonal neighbours, from a
 * trailhead of height 0 to a summit of height 9. Part 1 collects the
 * summits reachable from a cell, part 2 counts the trails from it.
 *
 * Both searches are proved against one reference: the sequences of cells
 * that form an ascending trail.
 */
module Day10 {
  import opened Wrappers
  import opened Utils

  datatype Level = Level(value: nat)

  /** From<u8>: the byte must be an ASCII digit, and the level is its value. */
  function LevelFrom(c: char): (l: Level)
    requires 47 < c as int < 58
    ensures l.value <= 9 && ('0' as int + l.value) as char == c
  {
    Level(c as int - 48)
  }

  /** A map as BasicGrid::new builds it from digit lines: every level is a digit. */
  predicate Map(g: Grid<Level>) {
    g.Valid() && g.width > 0 && forall i :: 0 <= i < |g.data| ==> g.data[i].value <= 9
  }

  function Elevation(g: Grid<Level>, p: Coord): (h: nat)
    requires Map(g) && g.InBounds(p)
    ensures h <= 9
  {
    g.At(p).value
  }

  /**
   * The neighbour along d when get finds it one level higher; the
   * coordinate is start.in_dir(dir), which get has just shown to exist.
   */
  function Uphill(g: Grid<Level>, p: Coord, d: Dir): (r: Option<Coord>)
    requires Map(g) && g.InBounds(p)
    ensures r.Some? <==>
      InDir(p, d).Some? && g.InBounds(InDir(p, d).value) &&
      Elevation(g, InDir(p, d).value) == Elevation(g, p) + 1
    ensures r.Some? ==> r == InDir(p, d)
  {
    AheadOneIsInDir(p, d);
    match g.Get(p, d, 1)
    case None => None
    case Some(l) => if l == Level(g.At(p).value + 1) then InDir(p, d) else None
  }

  // ---------------------------------------------------------------------
  // Reference: ascending trails
  // ---------------------------------------------------------------------

  /** A trail: cells of the map, each a neighbour one higher than the last, ending at 9. */
  predicate IsTrail(g: Grid<Level>, t: seq<Coord>) {
    Map(g) && |t| > 0 &&
    (forall i :: 0 <= i < |t| ==> g.InBounds(t[i])) &&
    (forall i :: 0 <= i < |t| - 1 ==>
      Adjacent(t[i], t[i + 1]) && Elevation(g, t[i + 1]) == Elevation(g, t[i]) + 1) &&
    Elevation(g, t[|t| - 1]) == 9
  }

  /** Some trail leads from p to q. */
  ghost predicate TrailTo(g: Grid<Level>, p: Coord, q: Coord) {
    exists t :: IsTrail(g, t) && t[0] == p && t[|t| - 1] == q
  }

  /** A trail climbs one level per cell, so it has 10 - h cells from height h. */
  lemma {:induction false} TrailLength(g: Grid<Level>, t: seq<Coord>)
    requires IsTrail(g, t)
    ensures |t| == 10 - Elevation(g, t[0])
    decreases |t|
  {
    if |t| > 1 {
      TrailTail(g, t);
      TrailLength(g, t[1..]);
    }
  }

  lemma {:induction false} TrailTail(g: Grid<Level>, t: seq<Coord>)
    requires IsTrail(g, t) && |t| > 1
    ensures IsTrail(g, t[1..])
  {
    var u := t[1..];
    assert forall i :: 0 <= i < |u| ==> u[i] == t[i + 1];
  }

  lemma {:induction false} TrailCons(g: Grid<Level>, p: Coord, t: seq<Coord>)
    requires IsTrail(g, t) && g.InBounds(p) && Adjacent(p, t[0])
    requires Elevation(g, t[0]) == Elevation(g, p) + 1
    ensures IsTrail(g, [p] + t)
  {
    var u := [p] + t;
    assert forall i :: 1 <= i < |u| ==> u[i] == t[i - 1];
  }

  /** A trail from a cell below 9 goes on through an uphill neighbour. */
  lemma {:induction false} TrailStep(g: Grid<Level>, t: seq<Coord>) returns (d: Dir)
    requires IsTrail(g, t) && Elevation(g, t[0]) < 9
    ensures |t| > 1 && Uphill(g, t[0], d) == Some(t[1])
  {
    assert |t| > 1;
    AdjacentDirs(t[0], t[1]);
    if InDir(t[0], Up) == Some(t[1]) {
      d := Up;
    } else if InDir(t[0], Down) == Some(t[1]) {
      d := Down;
    } else if InDir(t[0], Left) == Some(t[1]) {
      d := Left;
    } else {
      d := Right;
    }
  }

  // ---------------------------------------------------------------------
  // Part 1: the summits reachable from a cell
  // ---------------------------------------------------------------------

  /** Part1::trace_from: a summit is itself; otherwise the union over the four directions. */
  function TraceFrom(g: Grid<Level>, p: Coord): (r: set<Coord>)
    requires Map(g) && g.InBounds(p)
    ensures forall q :: q in r ==> g.InBounds(q) && Elevation(g, q) == 9
    decreases 9 - Elevation(g, p), 1
  {
    if Elevation(g, p) == 9 then {p}
    else Summits(g, p, Up) + Summits(g, p, Down) + Summits(g, p, Left) + Summits(g, p, Right)
  }

  /** One pass of the loop over directions: the uphill neighbour's summits, if any. */
  function Summits(g: Grid<Level>, p: Coord, d: Dir): (r: set<Coord>)
    requires Map(g) && g.InBounds(p) && Elevation(g, p) < 9
    ensures forall q :: q in r ==> g.InBounds(q) && Elevation(g, q) == 9
    decreases 9 - Elevation(g, p), 0
  {
    match Uphill(g, p, d)
    case None => {}
    case Some(n) => TraceFrom(g, n)
  }

  /** Some direction holds each summit TraceFrom returns from a cell below 9. */
  lemma {:induction false} SummitsSplit(g: Grid<Level>, p: Coord, q: Coord) returns (d: Dir)
    requires Map(g) && g.InBounds(p) && Elevation(g, p) < 9 && q in TraceFrom(g, p)
    ensures q in Summits(g, p, d)
  {
    if q in Summits(g, p, Up) {
      d := Up;
    } else if q in Summits(g, p, Down) {
      d := Down;
    } else if q in Summits(g, p, Left) {
      d := Left;
    } else {
      d := Right;
    }
  }

  /** A summit of trace_from is the end of a trail from p. */
  lemma {:induction false} TraceFromSound(g: Grid<Level>, p: Coord, q: Coord)
    requires Map(g) && g.InBounds(p) && q in TraceFrom(g, p)
    ensures TrailTo(g, p, q)
    decreases 9 - Elevation(g, p)
  {
    if Elevation(g, p) == 9 {
      assert IsTrail(g, [p]);
    } else {
      var d := SummitsSplit(g, p, q);
      var n := Uphill(g, p, d).value;
      TraceFromSound(g, n, q);
      TrailToCons(g, p, n, q);
    }
  }

  lemma {:induction false} TrailToCons(g: Grid<Level>, p: Coord, n: Coord, q: Coord)
    requires TrailTo(g, n, q) && g.InBounds(p) && Adjacent(p, n)
    requires Map(g) && g.InBounds(n) && Elevation(g, n) == Elevation(g, p) + 1
    ensures TrailTo(g, p, q)
  {
    var t :| IsTrail(g, t) && t[0] == n && t[|t| - 1] == q;
    TrailCons(g, p, t);
    var u := [p] + t;
    assert u[|u| - 1] == t[|t| - 1];
  }

  /** The end of every trail from p is among the summits of trace_from. */
  lemma {:induction false} TraceFromComplete(g: Grid<Level>, t: seq<Coord>)
    requires IsTrail(g, t)
    ensures t[|t| - 1] in TraceFrom(g, t[0])
    decreases |t|
  {
    if Elevation(g, t[0]) == 9 {
      TrailLength(g, t);
    } else {
      var d := TrailStep(g, t);
      TrailTail(g, t);
      TraceFromComplete(g, t[1..]);
      assert t[1..][0] == t[1] && t[1..][|t| - 2] == t[|t| - 1];
      assert t[|t| - 1] in Summits(g, t[0], d);
    }
  }

  /** trace_from(p) holds exactly the cells some trail leads to from p. */
  lemma {:induction false} TraceFromMeans(g: Grid<Level>, p: Coord, q: Coord)
    requires Map(g) && g.InBounds(p)
    ensures q in TraceFrom(g, p) <==> TrailTo(g, p, q)
  {
    if q in TraceFrom(g, p) {
      TraceFromSound(g, p, q);
    }
    if TrailTo(g, p, q) {
      var t :| IsTrail(g, t) && t[0] == p && t[|t| - 1] == q;
      TraceFromComplete(g, t);
    }
  }

  // ---------------------------------------------------------------------
  // Part 2: the number of trails from a cell
  // ---------------------------------------------------------------------

  /** Part2::trace_from: 1 at a summit; otherwise the sum over the four directions. */
  function Rating(g: Grid<Level>, p: Coord): nat
    requires Map(g) && g.InBounds(p)
    decreases 9 - Elevation(g, p), 1
  {
    if Elevation(g, p) == 9 then 1
    else RatingVia(g, p, Up) + RatingVia(g, p, Down) + RatingVia(g, p, Left) + RatingVia(g, p, Right)
  }

  function RatingVia(g: Grid<Level>, p: Coord, d: Dir): nat
    requires Map(g) && g.InBounds(p) && Elevation(g, p) < 9
    decreases 9 - Elevation(g, p), 0
  {
    match Uphill(g, p, d)
    case None => 0
    case Some(n) => Rating(g, n)
  }

  /** Every trail from p, in the order the recursion finds them. */
  function Trails(g: Grid<Level>, p: Coord): (r: seq<seq<Coord>>)
    requires Map(g) && g.InBounds(p)
    ensures forall k :: 0 <= k < |r| ==> |r[k]| > 0 && r[k][0] == p
    decreases 9 - Elevation(g, p), 1
  {
    if Elevation(g, p) == 9 then [[p]]
    else Branch(g, p, Up) + Branch(g, p, Down) + Branch(g, p, Left) + Branch(g, p, Right)
  }

  /** The trails from p whose first step goes along d. */
  function Branch(g: Grid<Level>, p: Coord, d: Dir): (r: seq<seq<Coord>>)
    requires Map(g) && g.InBounds(p) && Elevation(g, p) < 9
    ensures forall k :: 0 <= k < |r| ==> |r[k]| > 1 && r[k][0] == p && Some(r[k][1]) == Uphill(g, p, d)
    decreases 9 - Elevation(g, p), 0
  {
    match Uphill(g, p, d)
    case None => []
    case Some(n) => Prepend(p, Trails(g, n))
  }

  function Prepend(p: Coord, ts: seq<seq<Coord>>): (r: seq<seq<Coord>>)
    ensures |r| == |ts| && forall k :: 0 <= k < |ts| ==> r[k] == [p] + ts[k]
  {
    seq(|ts|, k requires 0 <= k < |ts| => [p] + ts[k])
  }

  predicate Distinct<T(==)>(s: seq<T>) {
    forall i, j :: 0 <= i < j < |s| ==> s[i] != s[j]
  }

  lemma {:induction false} DistinctConcat<T>(a: seq<T>, b: seq<T>)
    requires Distinct(a) && Distinct(b)
    requires forall i, j :: 0 <= i < |a| && 0 <= j < |b| ==> a[i] != b[j]
    ensures Distinct(a + b)
  {
    var c := a + b;
    forall i, j | 0 <= i < j < |c| ensures c[i] != c[j] {
      if j < |a| {
        assert c[i] == a[i] && c[j] == a[j];
      } else if i >= |a| {
        assert c[i] == b[i - |a|] && c[j] == b[j - |a|];
      } else {
        assert c[i] == a[i] && c[j] == b[j - |a|];
      }
    }
  }

  lemma {:induction false} PrependDistinct(p: Coord, ts: seq<seq<Coord>>)
    requires Distinct(ts)
    ensures Distinct(Prepend(p, ts))
  {
    var r := Prepend(p, ts);
    forall i, j | 0 <= i < j < |r| ensures r[i] != r[j] {
      assert r[i][1..] == ts[i] && r[j][1..] == ts[j];
    }
  }

  /** Branches along different directions share no trail. */
  lemma {:induction false} BranchesApart(g: Grid<Level>, p: Coord, d: Dir, e: Dir)
    requires Map(g) && g.InBounds(p) && Elevation(g, p) < 9 && d != e
    ensures forall i, j :: 0 <= i < |Branch(g, p, d)| && 0 <= j < |Branch(g, p, e)| ==>
      Branch(g, p, d)[i] != Branch(g, p, e)[j]
  {
    var a, b := Branch(g, p, d), Branch(g, p, e);
    if |a| > 0 && |b| > 0 {
      assert InDir(p, d) != InDir(p, e);
      forall i, j | 0 <= i < |a| && 0 <= j < |b| ensures a[i] != b[j] {
        assert a[i][1] != b[j][1];
      }
    }
  }

  lemma {:induction false} BranchDistinct(g: Grid<Level>, p: Coord, d: Dir)
    requires Map(g) && g.InBounds(p) && Elevation(g, p) < 9
    ensures Distinct(Branch(g, p, d))
    decreases 9 - Elevation(g, p), 0
  {
    match Uphill(g, p, d)
    case None =>
    case Some(n) =>
      TrailsDistinct(g, n);
      PrependDistinct(p, Trails(g, n));
  }

  /** The recursion lists no trail twice. */
  lemma {:induction false} TrailsDistinct(g: Grid<Level>, p: Coord)
    requires Map(g) && g.InBounds(p)
    ensures Distinct(Trails(g, p))
    decreases 9 - Elevation(g, p), 1
  {
    if Elevation(g, p) < 9 {
      var u, dn, l, r := Branch(g, p, Up), Branch(g, p, Down), Branch(g, p, Left), Branch(g, p, Right);
      BranchDistinct(g, p, Up);
      BranchDistinct(g, p, Down);
      BranchDistinct(g, p, Left);
      BranchDistinct(g, p, Right);
      BranchesApart(g, p, Up, Down);
      DistinctConcat(u, dn);
      BranchesApart(g, p, Up, Left);
      BranchesApart(g, p, Down, Left);
      DistinctConcat(u + dn, l);
      BranchesApart(g, p, Up, Right);
      BranchesApart(g, p, Down, Right);
      BranchesApart(g, p, Left, Right);
      DistinctConcat(u + dn + l, r);
    }
  }

  /** The branch a listed trail comes from. */
  lemma {:induction false} BranchOf(g: Grid<Level>, p: Coord, t: seq<Coord>) returns (d: Dir)
    requires Map(g) && g.InBounds(p) && Elevation(g, p) < 9 && t in Trails(g, p)
    ensures t in Branch(g, p, d)
  {
    if t in Branch(g, p, Up) {
      d := Up;
    } else if t in Branch(g, p, Down) {
      d := Down;
    } else if t in Branch(g, p, Left) {
      d := Left;
    } else {
      d := Right;
    }
  }

  /** Every listed trail is a trail from p. */
  lemma {:induction false} TrailsSound(g: Grid<Level>, p: Coord, t: seq<Coord>)
    requires Map(g) && g.InBounds(p) && t in Trails(g, p)
    ensures IsTrail(g, t) && t[0] == p
    decreases 9 - Elevation(g, p)
  {
    if Elevation(g, p) == 9 {
      assert IsTrail(g, [p]);
    } else {
      var d := BranchOf(g, p, t);
      var n := Uphill(g, p, d).value;
      var ts := Trails(g, n);
      var k :| 0 <= k < |ts| && t == [p] + ts[k];
      TrailsSound(g, n, ts[k]);
      TrailCons(g, p, ts[k]);
    }
  }

  /** Every trail from p is listed. */
  lemma {:induction false} TrailsComplete(g: Grid<Level>, t: seq<Coord>)
    requires IsTrail(g, t)
    ensures t in Trails(g, t[0])
    decreases |t|
  {
    if Elevation(g, t[0]) == 9 {
      TrailLength(g, t);
      assert t == [t[0]];
    } else {
      var d := TrailStep(g, t);
      var u := t[1..];
      TrailTail(g, t);
      TrailsComplete(g, u);
      PrependIn(t[0], Trails(g, t[1]), u);
      assert t == [t[0]] + u;
      assert t in Branch(g, t[0], d);
    }
  }

  lemma {:induction false} PrependIn(p: Coord, ts: seq<seq<Coord>>, u: seq<Coord>)
    requires u in ts
    ensures [p] + u in Prepend(p, ts)
  {
    var k :| 0 <= k < |ts| && ts[k] == u;
    assert Prepend(p, ts)[k] == [p] + u;
  }

  /** The listed trails are exactly the trails starting at p. */
  lemma {:induction false} TrailsMeans(g: Grid<Level>, p: Coord, t: seq<Coord>)
    requires Map(g) && g.InBounds(p)
    ensures t in Trails(g, p) <==> IsTrail(g, t) && t[0] == p
  {
    if t in Trails(g, p) {
      TrailsSound(g, p, t);
    }
    if IsTrail(g, t) && t[0] == p {
      TrailsComplete(g, t);
    }
  }

  /** Part 2's count is the number of trails listed. */
  lemma {:induction false} RatingCounts(g: Grid<Level>, p: Coord)
    requires Map(g) && g.InBounds(p)
    ensures Rating(g, p) == |Trails(g, p)|
    decreases 9 - Elevation(g, p), 1
  {
    if Elevation(g, p) < 9 {
      RatingViaCounts(g, p, Up);
      RatingViaCounts(g, p, Down);
      RatingViaCounts(g, p, Left);
      RatingViaCounts(g, p, Right);
    }
  }

  lemma {:induction false} RatingViaCounts(g: Grid<Level>, p: Coord, d: Dir)
    requires Map(g) && g.InBounds(p) && Elevation(g, p) < 9
    ensures RatingVia(g, p, d) == |Branch(g, p, d)|
    decreases 9 - Elevation(g, p), 0
  {
    match Uphill(g, p, d)
    case None =>
    case Some(n) => RatingCounts(g, n);
  }

  // ---------------------------------------------------------------------
  // The answer
  // ---------------------------------------------------------------------

  predicate IsTrailhead(l: Level) {
    l == Level(0)
  }

  /** The sum over the given trailheads of their trail counts. */
  function TotalRating(g: Grid<Level>, starts: seq<Coord>): nat
    requires Map(g) && forall k :: 0 <= k < |starts| ==> g.InBounds(starts[k])
  {
    if |starts| == 0 then 0 else Rating(g, starts[0]) + TotalRating(g, starts[1..])
  }

  /** main: the ratings of every cell of level 0, summed. */
  function Answer(g: Grid<Level>): nat
    requires Map(g)
  {
    TotalRating(g, FindWith(g, IsTrailhead))
  }

  /** All trails from the given trailheads, in order. */
  function AllTrails(g: Grid<Level>, starts: seq<Coord>): seq<seq<Coord>>
    requires Map(g) && forall k :: 0 <= k < |starts| ==> g.InBounds(starts[k])
  {
    if |starts| == 0 then [] else Trails(g, starts[0]) + AllTrails(g, starts[1..])
  }

  lemma {:induction false} AllTrailsMeans(g: Grid<Level>, starts: seq<Coord>, t: seq<Coord>)
    requires Map(g) && forall k :: 0 <= k < |starts| ==> g.InBounds(starts[k])
    ensures t in AllTrails(g, starts) <==> IsTrail(g, t) && t[0] in starts
  {
    if |starts| > 0 {
      TrailsMeans(g, starts[0], t);
      AllTrailsMeans(g, starts[1..], t);
    }
  }

  lemma {:induction false} AllTrailsCount(g: Grid<Level>, starts: seq<Coord>)
    requires Map(g) && forall k :: 0 <= k < |starts| ==> g.InBounds(starts[k])
    requires Distinct(starts)
    ensures TotalRating(g, starts) == |AllTrails(g, starts)|
    ensures Distinct(AllTrails(g, starts))
  {
    if |starts| > 0 {
      var s := starts[0];
      RatingCounts(g, s);
      TrailsDistinct(g, s);
      assert Distinct(starts[1..]);
      AllTrailsCount(g, starts[1..]);
      var a, b := Trails(g, s), AllTrails(g, starts[1..]);
      forall i, j | 0 <= i < |a| && 0 <= j < |b| ensures a[i] != b[j] {
        AllTrailsMeans(g, starts[1..], b[j]);
        assert b[j] in b;
        assert s !in starts[1..];
      }
      DistinctConcat(a, b);
    }
  }

  /**
   * The answer counts every trail from a trailhead exactly once: it is the
   * length of a list without repeats that holds exactly those trails.
   */
  lemma {:induction false} AnswerCounts(g: Grid<Level>, t: seq<Coord>)
    requires Map(g)
    ensures var starts := FindWith(g, IsTrailhead);
      Answer(g) == |AllTrails(g, starts)| && Distinct(AllTrails(g, starts)) &&
      (t in AllTrails(g, starts) <==> IsTrail(g, t) && Elevation(g, t[0]) == 0)
  {
    var starts := FindWith(g, IsTrailhead);
    assert Distinct(starts);
    AllTrailsCount(g, starts);
    AllTrailsMeans(g, starts, t);
    if IsTrail(g, t) && Elevation(g, t[0]) == 0 {
      var i := g.PosToIdx(t[0]);
      g.PosIdxRoundTrip(t[0]);
      assert IsTrailhead(g.data[i]);
    }
  }
}
