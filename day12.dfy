/**
 * Day 12: the garden of plant plots. A region is a maximal set of plots
 * with the same plant that touch along their sides; its price is its
 * area times its perimeter (part 1), and for part 2 the number of its
 * straight sides, counted as the number of its corners.
 *
 * The garden is the grid's contents as a value. The flood fill that
 * builds the regions mutates a set of unvisited roots, a stack and the
 * region's plots: it is a method over a Region object, proved to cut the
 * grid into closed, connected, single-plant regions.
 */
module Day12 {
  import opened Wrappers
  import opened Utils

  /** The order build_regions and perieter look around a plot. */
  const Dirs: seq<Dir> := [Up, Down, Left, Right]

  /** A garden: its lines all as wide as the first, and that one non-empty. */
  predicate Garden(g: Grid<char>) {
    g.Valid() && g.width > 0
  }

  /** The neighbour along d, when it is inside the grid and grows the same plant. */
  function SameAlong(g: Grid<char>, p: Coord, d: Dir): (r: Option<Coord>)
    requires Garden(g) && g.InBounds(p)
    ensures r.Some? <==>
      InDir(p, d).Some? && g.InBounds(InDir(p, d).value) && g.At(InDir(p, d).value) == g.At(p)
    ensures r.Some? ==> r == InDir(p, d)
  {
    AheadOneIsInDir(p, d);
    match g.Get(p, d, 1)
    case None => None
    case Some(v) => if v == g.At(p) then InDir(p, d) else None
  }

  // ---------------------------------------------------------------------
  // Regions as sets of plots
  // ---------------------------------------------------------------------

  /** Two plots side by side with the same plant. */
  predicate Same(g: Grid<char>, p: Coord, q: Coord) {
    Garden(g) && g.InBounds(p) && g.InBounds(q) && Adjacent(p, q) && g.At(p) == g.At(q)
  }

  /** The same-plant neighbours of a plot are the ones SameAlong finds. */
  lemma {:induction false} SameDirs(g: Grid<char>, p: Coord, q: Coord)
    requires Garden(g) && g.InBounds(p)
    ensures Same(g, p, q) <==>
      SameAlong(g, p, Up) == Some(q) || SameAlong(g, p, Down) == Some(q) ||
      SameAlong(g, p, Left) == Some(q) || SameAlong(g, p, Right) == Some(q)
  {
    AdjacentDirs(p, q);
  }

  /** A walk from plot to plot, each step to a same-plant neighbour. */
  predicate IsWalk(g: Grid<char>, w: seq<Coord>) {
    Garden(g) && |w| > 0 && g.InBounds(w[0]) &&
    forall i :: 0 <= i < |w| - 1 ==> Same(g, w[i], w[i + 1])
  }

  ghost predicate Connected(g: Grid<char>, p: Coord, q: Coord) {
    exists w :: IsWalk(g, w) && w[0] == p && w[|w| - 1] == q
  }

  lemma {:induction false} ConnectedRefl(g: Grid<char>, p: Coord)
    requires Garden(g) && g.InBounds(p)
    ensures Connected(g, p, p)
  {
    assert IsWalk(g, [p]);
  }

  lemma {:induction false} ConnectedStep(g: Grid<char>, p: Coord, q: Coord, r: Coord)
    requires Connected(g, p, q) && Same(g, q, r)
    ensures Connected(g, p, r)
  {
    var w :| IsWalk(g, w) && w[0] == p && w[|w| - 1] == q;
    var w' := w + [r];
    assert forall i :: 0 <= i < |w| ==> w'[i] == w[i];
    assert IsWalk(g, w');
  }

  lemma {:induction false} ConnectedSymmetric(g: Grid<char>, p: Coord, q: Coord)
    requires Connected(g, p, q)
    ensures Connected(g, q, p)
  {
    var w :| IsWalk(g, w) && w[0] == p && w[|w| - 1] == q;
    WalkBack(g, w);
  }

  /** A walk read backwards is a walk. */
  lemma {:induction false} WalkBack(g: Grid<char>, w: seq<Coord>)
    requires IsWalk(g, w)
    ensures Connected(g, w[|w| - 1], w[0])
  {
    if |w| == 1 {
      ConnectedRefl(g, w[0]);
    } else {
      var v := w[..|w| - 1];
      assert forall i :: 0 <= i < |v| ==> v[i] == w[i];
      assert IsWalk(g, v);
      WalkBack(g, v);
      var a, b := w[|w| - 2], w[|w| - 1];
      assert Same(g, a, b);
      assert IsWalk(g, [b, a]);
      ConnectedTransitive(g, b, a, w[0]);
    }
  }

  lemma {:induction false} ConnectedTransitive(g: Grid<char>, p: Coord, q: Coord, r: Coord)
    requires Connected(g, p, q) && Connected(g, q, r)
    ensures Connected(g, p, r)
  {
    var a :| IsWalk(g, a) && a[0] == p && a[|a| - 1] == q;
    var b :| IsWalk(g, b) && b[0] == q && b[|b| - 1] == r;
    var w := a + b[1..];
    assert forall i :: 0 <= i < |a| ==> w[i] == a[i];
    assert forall i :: |a| <= i < |w| ==> w[i] == b[i - |a| + 1];
    assert IsWalk(g, w);
  }

  /** Every same-plant neighbour of a plot in P is in P. */
  ghost predicate Closed(g: Grid<char>, P: set<Coord>) {
    forall p, q :: p in P && Same(g, p, q) ==> q in P
  }

  /**
   * A region: a non-empty set of plots inside the garden, all growing one
   * plant, any two joined by a walk, and with no same-plant neighbour left out.
   */
  ghost predicate IsRegion(g: Grid<char>, P: set<Coord>) {
    Garden(g) && P != {} &&
    (forall p :: p in P ==> g.InBounds(p)) &&
    (forall p, q :: p in P && q in P ==> g.At(p) == g.At(q) && Connected(g, p, q)) &&
    Closed(g, P)
  }

  /** A region holds exactly the plots a walk reaches from any one of its plots. */
  lemma {:induction false} RegionIsComponent(g: Grid<char>, P: set<Coord>, p: Coord, q: Coord)
    requires IsRegion(g, P) && p in P
    ensures q in P <==> Connected(g, p, q)
  {
    if Connected(g, p, q) {
      var w :| IsWalk(g, w) && w[0] == p && w[|w| - 1] == q;
      WalkStaysIn(g, P, w);
    }
  }

  lemma {:induction false} WalkStaysIn(g: Grid<char>, P: set<Coord>, w: seq<Coord>)
    requires Closed(g, P) && IsWalk(g, w) && w[0] in P
    ensures w[|w| - 1] in P
  {
    if |w| > 1 {
      var v := w[..|w| - 1];
      assert forall i :: 0 <= i < |v| ==> v[i] == w[i];
      assert IsWalk(g, v);
      WalkStaysIn(g, P, v);
      assert Same(g, w[|w| - 2], w[|w| - 1]);
    }
  }

  /** All plots of the seqence of sets. */
  function Union(parts: seq<set<Coord>>): set<Coord>
  {
    if |parts| == 0 then {} else Union(parts[..|parts| - 1]) + parts[|parts| - 1]
  }

  /** The union holds each part and nothing else. */
  lemma {:induction false} UnionBounds(parts: seq<set<Coord>>)
    ensures forall k :: 0 <= k < |parts| ==> parts[k] <= Union(parts)
    ensures forall p :: p in Union(parts) ==> exists k :: 0 <= k < |parts| && p in parts[k]
  {
    if |parts| > 0 {
      var front := parts[..|parts| - 1];
      UnionBounds(front);
      forall k | 0 <= k < |front| ensures parts[k] <= Union(parts) {
        assert front[k] == parts[k];
      }
      forall p | p in Union(parts) ensures exists k :: 0 <= k < |parts| && p in parts[k] {
        if p !in parts[|parts| - 1] {
          var k :| 0 <= k < |front| && p in front[k];
          assert front[k] == parts[k];
        }
      }
    }
  }

  lemma {:induction false} UnionAppend(parts: seq<set<Coord>>, P: set<Coord>)
    ensures Union(parts + [P]) == Union(parts) + P
  {
    assert (parts + [P])[..|parts|] == parts;
  }

  /**
   * What build_regions promises: every part is a region, no two share a
   * plot, and every cell of the garden is in one of them.
   */
  ghost predicate Partition(g: Grid<char>, parts: seq<set<Coord>>) {
    (forall k :: 0 <= k < |parts| ==> IsRegion(g, parts[k])) &&
    (forall k, l :: 0 <= k < l < |parts| ==> parts[k] !! parts[l]) &&
    (forall p :: g.InBounds(p) ==> p in Union(parts))
  }

  /** In a partition every cell of the garden is in exactly one part. */
  lemma {:induction false} PartitionExactlyOne(g: Grid<char>, parts: seq<set<Coord>>, p: Coord)
    requires Partition(g, parts) && g.InBounds(p)
    ensures exists k :: 0 <= k < |parts| && p in parts[k]
    ensures forall k, l :: 0 <= k < |parts| && 0 <= l < |parts| && p in parts[k] && p in parts[l] ==> k == l
  {
    UnionBounds(parts);
  }

  // ---------------------------------------------------------------------
  // Sums over a set of plots
  // ---------------------------------------------------------------------

  ghost function Pick(s: set<Coord>): (x: Coord)
    requires s != {}
    ensures x in s
  {
    var x :| x in s; x
  }

  /** f summed over the plots of s, in whatever order a set is walked. */
  ghost function SumOver(s: set<Coord>, f: Coord -> nat): nat
    decreases |s|
  {
    if s == {} then 0 else var x := Pick(s); f(x) + SumOver(s - {x}, f)
  }

  /** The sum does not depend on the order: any plot can be taken out first. */
  lemma {:induction false} SumOverRemove(s: set<Coord>, f: Coord -> nat, y: Coord)
    requires y in s
    ensures SumOver(s, f) == f(y) + SumOver(s - {y}, f)
    decreases |s|
  {
    var x := Pick(s);
    if y != x {
      SumOverRemove(s - {x}, f, y);
      SumOverRemove(s - {y}, f, x);
      assert s - {x} - {y} == s - {y} - {x};
    }
  }

  /** A sum of smaller terms is smaller. */
  lemma {:induction false} SumOverMono(s: set<Coord>, f: Coord -> nat, h: Coord -> nat)
    requires forall x :: x in s ==> f(x) <= h(x)
    ensures SumOver(s, f) <= SumOver(s, h)
    decreases |s|
  {
    if s != {} {
      var x := Pick(s);
      SumOverMono(s - {x}, f, h);
    }
  }

  lemma {:induction false} SumOverBound(s: set<Coord>, f: Coord -> nat, b: nat)
    requires forall x :: x in s ==> f(x) <= b
    ensures SumOver(s, f) <= b * |s|
    decreases |s|
  {
    if s != {} {
      var x := Pick(s);
      SumOverBound(s - {x}, f, b);
      assert b * |s| == b + b * |s - {x}|;
    }
  }

  // ---------------------------------------------------------------------
  // Perimeter
  // ---------------------------------------------------------------------

  /** The side of p facing d borders no plot of P (the top and left edges included). */
  predicate Outside(P: set<Coord>, p: Coord, d: Dir) {
    InDir(p, d).None? || InDir(p, d).value !in P
  }

  /** The number of the first i directions of Dirs whose side of p is a fence. */
  function FencesUpTo(P: set<Coord>, p: Coord, i: nat): (n: nat)
    requires i <= 4
    ensures n <= i
  {
    if i == 0 then 0
    else FencesUpTo(P, p, i - 1) + (if Outside(P, p, Dirs[i - 1]) then 1 else 0)
  }

  /** The fences around a plot of P. */
  function Fences(P: set<Coord>, p: Coord): (n: nat)
    ensures n <= 4
  {
    FencesUpTo(P, p, 4)
  }

  /** A plot alone has a fence on every side. */
  lemma {:induction false} FencesAlone(p: Coord)
    ensures Fences({p}, p) == 4
  {
    assert Outside({p}, p, Up) && Outside({p}, p, Down) && Outside({p}, p, Left) && Outside({p}, p, Right);
    assert FencesUpTo({p}, p, 1) == 1;
    assert FencesUpTo({p}, p, 2) == 2;
    assert FencesUpTo({p}, p, 3) == 3;
  }

  /** Fences(P, .) as one value, so that every sum over it is over the same function. */
  ghost function FencesOf(P: set<Coord>): Coord -> nat {
    p => Fences(P, p)
  }

  /** The perimeter of a region: the fences around its plots. */
  ghost function PerimeterOf(P: set<Coord>): nat {
    SumOver(P, FencesOf(P))
  }

  lemma {:induction false} PerimeterBound(P: set<Coord>)
    ensures PerimeterOf(P) <= 4 * |P|
  {
    SumOverBound(P, FencesOf(P), 4);
  }

  lemma {:induction false} PerimeterSingle(p: Coord)
    ensures PerimeterOf({p}) == 4
  {
    SumOverRemove({p}, FencesOf({p}), p);
    assert {p} - {p} == {};
    FencesAlone(p);
  }

  // ---------------------------------------------------------------------
  // Corners
  // ---------------------------------------------------------------------

  /** The rotations corners looks at: the pair (d, d turned right) for each of these. */
  const CornerDirs: seq<Dir> := [Up, Right, Down, Left]

  /** get(c, d, 1): the plant one step along d, None off the grid. */
  function Neighbour(g: Grid<char>, c: Coord, d: Dir): (r: Option<char>)
    requires Garden(g) && g.InBounds(c)
    ensures r.Some? <==> InDir(c, d).Some? && g.InBounds(InDir(c, d).value)
    ensures r.Some? ==> r.value == g.At(InDir(c, d).value)
  {
    AheadOneIsInDir(c, d);
    g.Get(c, d, 1)
  }

  /** Neither neighbour of the rotation grows c's plant: an outward corner. */
  predicate Convex(g: Grid<char>, c: Coord, d: Dir)
    requires Garden(g) && g.InBounds(c)
  {
    Neighbour(g, c, d) != Some(g.At(c)) && Neighbour(g, c, TurnRight(d)) != Some(g.At(c))
  }

  /** Both neighbours of the rotation grow c's plant. */
  predicate Inward(g: Grid<char>, c: Coord, d: Dir)
    requires Garden(g) && g.InBounds(c)
  {
    Neighbour(g, c, d) == Some(g.At(c)) && Neighbour(g, c, TurnRight(d)) == Some(g.At(c))
  }

  /** next_pos along d and then along d turned right: the diagonal cell, inside the grid. */
  function Diagonal(g: Grid<char>, c: Coord, d: Dir): (r: Option<Coord>)
    requires Garden(g) && g.InBounds(c)
    ensures r.Some? ==> g.InBounds(r.value)
  {
    match g.NextPos(c, d)
    case None => None
    case Some(x) => g.NextPos(x, TurnRight(d))
  }

  /** The rotation is a corner of c's region: outward, or inward with the diagonal cell left out. */
  predicate CornerAt(g: Grid<char>, c: Coord, d: Dir)
    requires Garden(g) && g.InBounds(c)
  {
    Convex(g, c, d) ||
    (Inward(g, c, d) && Diagonal(g, c, d).Some? && g.At(Diagonal(g, c, d).value) != g.At(c))
  }

  /** The corners among the first i rotations of CornerDirs. */
  function CornersUpTo(g: Grid<char>, c: Coord, i: nat): (n: nat)
    requires Garden(g) && g.InBounds(c) && i <= 4
    ensures n <= i
  {
    if i == 0 then 0
    else CornersUpTo(g, c, i - 1) + (if CornerAt(g, c, CornerDirs[i - 1]) then 1 else 0)
  }

  /** The corners at a plot; 0 off the grid, so that it sums over any set. */
  function CornerCount(g: Grid<char>): Coord -> nat {
    c => if Garden(g) && g.InBounds(c) then CornersUpTo(g, c, 4) else 0
  }

  /** The rotation test as the source writes the inward case: the diagonal position differs from c. */
  predicate CornerAtAsWritten(g: Grid<char>, c: Coord, d: Dir)
    requires Garden(g) && g.InBounds(c)
  {
    Convex(g, c, d) || (Inward(g, c, d) && Diagonal(g, c, d) != Some(c))
  }

  /** The corners among the first i rotations, with the source's test. */
  function CornersUpToAsWritten(g: Grid<char>, c: Coord, i: nat): (n: nat)
    requires Garden(g) && g.InBounds(c) && i <= 4
    ensures n <= i
  {
    if i == 0 then 0
    else CornersUpToAsWritten(g, c, i - 1) + (if CornerAtAsWritten(g, c, CornerDirs[i - 1]) then 1 else 0)
  }

  /** The corners at a plot with the source's test; 0 off the grid. */
  function CornerCountAsWritten(g: Grid<char>): Coord -> nat {
    c => if Garden(g) && g.InBounds(c) then CornersUpToAsWritten(g, c, 4) else 0
  }

  /** The source's test accepts every rotation the corrected one does, so it never counts fewer. */
  lemma {:induction false} AsWrittenNeverFewer(g: Grid<char>, c: Coord, i: nat)
    requires Garden(g) && g.InBounds(c) && i <= 4
    ensures CornersUpTo(g, c, i) <= CornersUpToAsWritten(g, c, i)
  {
    if i > 0 {
      AsWrittenNeverFewer(g, c, i - 1);
      AsWrittenCountsEveryInward(g, c, CornerDirs[i - 1]);
    }
  }

  /** Summed over any plots, the source's sides are never fewer than the region's sides. */
  lemma {:induction false} SidesAsWrittenNeverFewer(g: Grid<char>, P: set<Coord>)
    ensures SidesOf(g, P) <= SidesOfAsWritten(g, P)
  {
    forall c | c in P
      ensures CornerCount(g)(c) <= CornerCountAsWritten(g)(c)
    {
      if Garden(g) && g.InBounds(c) {
        AsWrittenNeverFewer(g, c, 4);
      }
    }
    SumOverMono(P, CornerCount(g), CornerCountAsWritten(g));
  }

  /** A diagonal step never lands where it started. */
  lemma {:induction false} DiagonalNeverSelf(g: Grid<char>, c: Coord, d: Dir)
    requires Garden(g) && g.InBounds(c)
    ensures Diagonal(g, c, d) != Some(c)
  {
    TurnProperties(d);
  }

  /** Hence the source's test holds on every inward rotation, whatever the diagonal cell grows. */
  lemma {:induction false} AsWrittenCountsEveryInward(g: Grid<char>, c: Coord, d: Dir)
    requires Garden(g) && g.InBounds(c)
    ensures CornerAtAsWritten(g, c, d) <==> Convex(g, c, d) || Inward(g, c, d)
  {
    DiagonalNeverSelf(g, c, d);
  }

  /** On an inward rotation the diagonal cell is inside the grid. */
  lemma {:induction false} InwardDiagonal(g: Grid<char>, c: Coord, d: Dir)
    requires Garden(g) && g.InBounds(c) && Inward(g, c, d)
    ensures Diagonal(g, c, d).Some?
  {
    match d
    case Up =>
    case Right =>
    case Down =>
    case Left =>
  }

  /** A plot whose four neighbours all grow other plants (or are off the grid) has four corners. */
  lemma {:induction false} CornersIsolated(g: Grid<char>, c: Coord)
    requires Garden(g) && g.InBounds(c)
    requires forall d :: Neighbour(g, c, d) != Some(g.At(c))
    ensures CornerCount(g)(c) == 4
  {
    assert Convex(g, c, Up) && Convex(g, c, Right) && Convex(g, c, Down) && Convex(g, c, Left);
    assert CornersUpTo(g, c, 1) == 1;
    assert CornersUpTo(g, c, 2) == 2;
    assert CornersUpTo(g, c, 3) == 3;
    assert CornersUpTo(g, c, 4) == 4;
  }

  /** The number of sides of a region: the corners of its plots. */
  ghost function SidesOf(g: Grid<char>, P: set<Coord>): nat {
    SumOver(P, CornerCount(g))
  }

  /** The same sum with the source's corner test. */
  ghost function SidesOfAsWritten(g: Grid<char>, P: set<Coord>): nat {
    SumOver(P, CornerCountAsWritten(g))
  }

  /** A 2 by 2 field of one plant: a square with four sides. */
  predicate Square(g: Grid<char>) {
    Uniform(g) && g.width == 2 && g.height == 2
  }

  const SquarePlots: set<Coord> := {Coord(0, 0), Coord(0, 1), Coord(1, 0), Coord(1, 1)}

  /** The step along d stays inside the grid. */
  predicate Inside(g: Grid<char>, c: Coord, d: Dir) {
    InDir(c, d).Some? && g.InBounds(InDir(c, d).value)
  }

  /** Every cell grows the same plant. */
  predicate Uniform(g: Grid<char>) {
    Garden(g) && forall i :: 0 <= i < |g.data| ==> g.data[i] == g.data[0]
  }

  /**
   * In a field of one plant only the grid's edge makes corners: the
   * rotation is a corner exactly when both its steps leave the grid, and
   * the source's test also counts it when both stay inside.
   */
  lemma {:induction false} UniformCorner(g: Grid<char>, c: Coord, d: Dir)
    requires Uniform(g) && g.InBounds(c)
    ensures CornerAt(g, c, d) <==> !Inside(g, c, d) && !Inside(g, c, TurnRight(d))
    ensures CornerAtAsWritten(g, c, d) <==>
      (!Inside(g, c, d) && !Inside(g, c, TurnRight(d))) || (Inside(g, c, d) && Inside(g, c, TurnRight(d)))
  {
    assert forall p :: g.InBounds(p) ==> g.At(p) == g.data[0];
    AsWrittenCountsEveryInward(g, c, d);
  }

  /** The corner count spelled out rotation by rotation. */
  lemma {:induction false} CornersSum(g: Grid<char>, c: Coord)
    requires Garden(g) && g.InBounds(c)
    ensures CornerCount(g)(c) ==
      (if CornerAt(g, c, Up) then 1 else 0) + (if CornerAt(g, c, Right) then 1 else 0) +
      (if CornerAt(g, c, Down) then 1 else 0) + (if CornerAt(g, c, Left) then 1 else 0)
  {
    assert CornersUpTo(g, c, 4) == CornersUpTo(g, c, 3) + (if CornerAt(g, c, Left) then 1 else 0);
    assert CornersUpTo(g, c, 3) == CornersUpTo(g, c, 2) + (if CornerAt(g, c, Down) then 1 else 0);
    assert CornersUpTo(g, c, 2) == CornersUpTo(g, c, 1) + (if CornerAt(g, c, Right) then 1 else 0);
  }

  /** In the square a step stays inside exactly when it moves towards the other row or column. */
  lemma {:induction false} SquareInside(g: Grid<char>, c: Coord)
    requires Square(g) && c in SquarePlots
    ensures g.InBounds(c)
    ensures Inside(g, c, Up) == (c.row == 1) && Inside(g, c, Down) == (c.row == 0)
    ensures Inside(g, c, Left) == (c.col == 1) && Inside(g, c, Right) == (c.col == 0)
  {
  }

  /** Every plot of the square has one corner. */
  lemma {:induction false} SquareCorners(g: Grid<char>, c: Coord)
    requires Square(g) && c in SquarePlots
    ensures g.InBounds(c) && CornerCount(g)(c) == 1
  {
    SquareInside(g, c);
    UniformCorner(g, c, Up);
    UniformCorner(g, c, Right);
    UniformCorner(g, c, Down);
    UniformCorner(g, c, Left);
    CornersSum(g, c);
  }

  /** The source's corner count spelled out rotation by rotation. */
  lemma {:induction false} CornersSumAsWritten(g: Grid<char>, c: Coord)
    requires Garden(g) && g.InBounds(c)
    ensures CornerCountAsWritten(g)(c) ==
      (if CornerAtAsWritten(g, c, Up) then 1 else 0) + (if CornerAtAsWritten(g, c, Right) then 1 else 0) +
      (if CornerAtAsWritten(g, c, Down) then 1 else 0) + (if CornerAtAsWritten(g, c, Left) then 1 else 0)
  {
    assert CornersUpToAsWritten(g, c, 4) == CornersUpToAsWritten(g, c, 3) + (if CornerAtAsWritten(g, c, Left) then 1 else 0);
    assert CornersUpToAsWritten(g, c, 3) == CornersUpToAsWritten(g, c, 2) + (if CornerAtAsWritten(g, c, Down) then 1 else 0);
    assert CornersUpToAsWritten(g, c, 2) == CornersUpToAsWritten(g, c, 1) + (if CornerAtAsWritten(g, c, Right) then 1 else 0);
  }

  /** The source's test credits every plot of the square with two corners. */
  lemma {:induction false} SquareCornersAsWritten(g: Grid<char>, c: Coord)
    requires Square(g) && c in SquarePlots
    ensures g.InBounds(c) && CornerCountAsWritten(g)(c) == 2
  {
    SquareInside(g, c);
    UniformCorner(g, c, Up);
    UniformCorner(g, c, Right);
    UniformCorner(g, c, Down);
    UniformCorner(g, c, Left);
    CornersSumAsWritten(g, c);
  }

  /** A sum over the four plots of the square. */
  lemma {:induction false} SumOverSquare(f: Coord -> nat)
    ensures SumOver(SquarePlots, f) == f(Coord(0, 0)) + f(Coord(0, 1)) + f(Coord(1, 0)) + f(Coord(1, 1))
  {
    var a, b, c, d := Coord(0, 0), Coord(0, 1), Coord(1, 0), Coord(1, 1);
    var s1, s2, s3 := SquarePlots - {a}, SquarePlots - {a} - {b}, SquarePlots - {a} - {b} - {c};
    assert s3 == {d} && s3 - {d} == {};
    SumOverRemove(SquarePlots, f, a);
    SumOverRemove(s1, f, b);
    SumOverRemove(s2, f, c);
    SumOverRemove(s3, f, d);
  }

  /** Over the whole square: 4 sides. */
  lemma {:induction false} SquareSides(g: Grid<char>)
    requires Square(g)
    ensures SidesOf(g, SquarePlots) == 4
  {
    SquareCorners(g, Coord(0, 0));
    SquareCorners(g, Coord(0, 1));
    SquareCorners(g, Coord(1, 0));
    SquareCorners(g, Coord(1, 1));
    SumOverSquare(CornerCount(g));
  }

  /** With the source's test the square has 8 sides. */
  lemma {:induction false} SquareSidesAsWritten(g: Grid<char>)
    requires Square(g)
    ensures SidesOfAsWritten(g, SquarePlots) == 8
  {
    SquareCornersAsWritten(g, Coord(0, 0));
    SquareCornersAsWritten(g, Coord(0, 1));
    SquareCornersAsWritten(g, Coord(1, 0));
    SquareCornersAsWritten(g, Coord(1, 1));
    SumOverSquare(CornerCountAsWritten(g));
  }

  /** The grid "AA" over "AA" is such a square. */
  lemma {:induction false} SquareExample()
    ensures Square(Grid("AAAA", 2, 2))
  {
  }

  /** corners, with the inward case testing the diagonal cell's plant. */
  method Corners(c: Coord, g: Grid<char>) returns (cnt: nat)
    requires Garden(g) && g.InBounds(c)
    ensures cnt == CornerCount(g)(c) && cnt <= 4
  {
    cnt := 0;
    for i := 0 to 4
      invariant cnt == CornersUpTo(g, c, i)
    {
      var d1, d2 := CornerDirs[i], TurnRight(CornerDirs[i]);
      if g.Get(c, d1, 1) != Some(g.At(c)) && g.Get(c, d2, 1) != Some(g.At(c)) {
        cnt := cnt + 1;
      } else if g.Get(c, d1, 1) == Some(g.At(c)) && g.Get(c, d2, 1) == Some(g.At(c)) {
        var x := match g.NextPos(c, d1) case None => None case Some(x) => g.NextPos(x, d2);
        if x.Some? && g.At(x.value) != g.At(c) {
          cnt := cnt + 1;
        }
      }
    }
  }

  /** corners as written: the inward case tests the diagonal position against c. */
  method CornersAsWritten(c: Coord, g: Grid<char>) returns (cnt: nat)
    requires Garden(g) && g.InBounds(c)
    ensures cnt == CornerCountAsWritten(g)(c) && cnt <= 4
  {
    cnt := 0;
    for i := 0 to 4
      invariant cnt == CornersUpToAsWritten(g, c, i)
    {
      var d1, d2 := CornerDirs[i], TurnRight(CornerDirs[i]);
      if g.Get(c, d1, 1) != Some(g.At(c)) && g.Get(c, d2, 1) != Some(g.At(c)) {
        cnt := cnt + 1;
      } else if g.Get(c, d1, 1) == Some(g.At(c)) && g.Get(c, d2, 1) == Some(g.At(c)) {
        var x := match g.NextPos(c, d1) case None => None case Some(x) => g.NextPos(x, d2);
        if x != Some(c) {
          cnt := cnt + 1;
        }
      }
    }
  }

  // ---------------------------------------------------------------------
  // Regions
  // ---------------------------------------------------------------------

  /** remove_some: take out whichever root the set yields first. */
  method RemoveSome(roots: set<Coord>) returns (e: Option<Coord>, rest: set<Coord>)
    ensures e.None? <==> roots == {}
    ensures e.None? ==> rest == roots
    ensures e.Some? ==> e.value in roots && rest == roots - {e.value}
    ensures Taken(roots, e, rest)
  {
    if roots == {} {
      e, rest := None, roots;
    } else {
      var x :| x in roots;
      e, rest := Some(x), roots - {x};
    }
  }

  class Region {
    const code: char
    var plots: set<Coord>

    constructor (c: Coord, code: char)
      ensures this.code == code && plots == {c}
    {
      this.code := code;
      plots := {c};
    }

    method AddTo(c: Coord)
      modifies this
      ensures plots == old(plots) + {c}
    {
      plots := plots + {c};
    }

    function Contains(c: Coord): (b: bool)
      reads this
      ensures b <==> c in plots
    {
      c in plots
    }

    function Area(): (n: nat)
      reads this
      ensures n == |plots|
    {
      |plots|
    }

    /** perieter: one per side of a plot that faces no plot of the region. */
    method Perimeter() returns (sz: nat)
      ensures sz == PerimeterOf(plots)
    {
      ghost var f := FencesOf(plots);
      sz := 0;
      var rest := plots;
      while rest != {}
        invariant rest <= plots
        invariant sz + SumOver(rest, f) == SumOver(plots, f)
        decreases |rest|
      {
        var p :| p in rest;
        ghost var sz0 := sz;
        for i := 0 to 4
          invariant sz == sz0 + FencesUpTo(plots, p, i)
        {
          match InDir(p, Dirs[i])
          case Some(c) =>
            if !Contains(c) {
              sz := sz + 1;
            }
          case None =>
            sz := sz + 1;
        }
        SumOverRemove(rest, f, p);
        rest := rest - {p};
      }
    }

    method Price() returns (r: nat)
      ensures r == PriceOf(plots)
    {
      var p := Perimeter();
      r := Area() * p;
    }

    /** sides: the corners of its plots, summed. */
    method Sides(g: Grid<char>) returns (n: nat)
      requires Garden(g) && forall p :: p in plots ==> g.InBounds(p)
      ensures n == SidesOf(g, plots)
    {
      ghost var f := CornerCount(g);
      n := 0;
      var rest := plots;
      while rest != {}
        invariant rest <= plots
        invariant n + SumOver(rest, f) == SumOver(plots, f)
        decreases |rest|
      {
        var c :| c in rest;
        var k := Corners(c, g);
        SumOverRemove(rest, f, c);
        n := n + k;
        rest := rest - {c};
      }
    }

    /** sides as written: the source's corner counts of its plots, summed. */
    method SidesAsWritten(g: Grid<char>) returns (n: nat)
      requires Garden(g) && forall p :: p in plots ==> g.InBounds(p)
      ensures n == SidesOfAsWritten(g, plots)
    {
      ghost var f := CornerCountAsWritten(g);
      n := 0;
      var rest := plots;
      while rest != {}
        invariant rest <= plots
        invariant n + SumOver(rest, f) == SumOver(plots, f)
        decreases |rest|
      {
        var c :| c in rest;
        var k := CornersAsWritten(c, g);
        SumOverRemove(rest, f, c);
        n := n + k;
        rest := rest - {c};
      }
    }
  }

  // ---------------------------------------------------------------------
  // build_regions: the flood fill
  // ---------------------------------------------------------------------

  /** The plots of each region, in order. */
  function Plots(regions: seq<Region>): (r: seq<set<Coord>>)
    reads regions
    ensures |r| == |regions| && forall k :: 0 <= k < |regions| ==> r[k] == regions[k].plots
  {
    seq(|regions|, k reads regions requires 0 <= k < |regions| => regions[k].plots)
  }

  /**
   * The state of one region's flood fill from e0: the plots found so far
   * all grow e0's plant and are reached from e0, the stack holds found
   * plots, a found plot with a same-plant neighbour not yet found is on
   * the stack (or is one of extra, the plot being looked around), no
   * found plot belongs to an earlier region, and the roots left are the
   * ones not found.
   */
  ghost predicate Exploring(g: Grid<char>, e0: Coord, roots: set<Coord>, done: set<Coord>,
                            P: set<Coord>, stack: seq<Coord>, rest: set<Coord>, extra: set<Coord>) {
    Garden(g) && g.InBounds(e0) && e0 in P &&
    (forall p :: p in P ==> g.InBounds(p) && g.At(p) == g.At(e0) && Connected(g, e0, p)) &&
    (forall i :: 0 <= i < |stack| ==> stack[i] in P) &&
    (forall p, q :: p in P && Same(g, p, q) && q !in P ==> p in stack || p in extra) &&
    P !! done && rest == roots - P
  }

  /** What the flood fill of one region may assume about the earlier ones. */
  ghost predicate Seeded(g: Grid<char>, e0: Coord, roots: set<Coord>, done: set<Coord>) {
    Garden(g) && g.InBounds(e0) && e0 !in roots && e0 !in done && roots !! done &&
    Closed(g, done) &&
    (forall p :: p in roots ==> g.InBounds(p)) &&
    (forall p :: g.InBounds(p) ==> p in roots || p in done || p == e0)
  }

  /** The same-plant neighbours of e along the first i directions of Dirs. */
  function AroundUpTo(g: Grid<char>, e: Coord, i: nat): set<Coord>
    requires Garden(g) && g.InBounds(e) && i <= 4
  {
    if i == 0 then {} else AroundUpTo(g, e, i - 1) + Neighbours(g, e, Dirs[i - 1])
  }

  /** The same-plant neighbour along d, as a set of at most one plot. */
  function Neighbours(g: Grid<char>, e: Coord, d: Dir): (r: set<Coord>)
    requires Garden(g) && g.InBounds(e)
    ensures forall q :: q in r <==> SameAlong(g, e, d) == Some(q)
  {
    match SameAlong(g, e, d)
    case None => {}
    case Some(q) => {q}
  }

  lemma {:induction false} AroundContains(g: Grid<char>, e: Coord, i: nat, j: nat)
    requires Garden(g) && g.InBounds(e) && j < i <= 4
    ensures Neighbours(g, e, Dirs[j]) <= AroundUpTo(g, e, i)
  {
    if j < i - 1 {
      AroundContains(g, e, i - 1, j);
    }
  }

  /** One direction around e: a same-plant neighbour not yet in the region joins it and the stack. */
  method Visit(g: Grid<char>, region: Region, e: Coord, dir: Dir, stack: seq<Coord>, rest: set<Coord>,
               ghost e0: Coord, ghost roots: set<Coord>, ghost done: set<Coord>)
    returns (stack': seq<Coord>, rest': set<Coord>)
    requires Seeded(g, e0, roots, done)
    requires Exploring(g, e0, roots, done, region.plots, stack, rest, {e}) && e in region.plots
    modifies region
    ensures Exploring(g, e0, roots, done, region.plots, stack', rest', {e})
    ensures old(region.plots) <= region.plots && Neighbours(g, e, dir) <= region.plots
    ensures (stack' == stack && rest' == rest) || |rest'| < |rest|
  {
    stack', rest' := stack, rest;
    AheadOneIsInDir(e, dir);
    var up := g.Get(e, dir, 1);
    if up.Some? && up.value == g.At(e) {
      var c := InDir(e, dir).value;
      if !region.Contains(c) {
        assert Same(g, e, c);
        ExploringAdd(g, e0, roots, done, region.plots, stack, rest, e, c);
        rest' := rest - {c};
        region.AddTo(c);
        stack' := stack + [c];
      }
    }
  }

  /** Adding a same-plant neighbour c of e to the region and the stack keeps the flood fill's invariant. */
  lemma {:induction false} ExploringAdd(g: Grid<char>, e0: Coord, roots: set<Coord>, done: set<Coord>,
                     P: set<Coord>, stack: seq<Coord>, rest: set<Coord>, e: Coord, c: Coord)
    requires Seeded(g, e0, roots, done)
    requires Exploring(g, e0, roots, done, P, stack, rest, {e}) && e in P
    requires Same(g, e, c) && c !in P
    ensures Exploring(g, e0, roots, done, P + {c}, stack + [c], rest - {c}, {e})
    ensures c in rest && |rest - {c}| < |rest|
  {
    assert Same(g, c, e);
    assert c !in done;
    assert c in rest;
    ConnectedStep(g, e0, e, c);
    var P', stack' := P + {c}, stack + [c];
    forall p, q | p in P' && Same(g, p, q) && q !in P'
      ensures p in stack' || p == e
    {
      if p != c {
        assert p in P && q !in P;
      }
    }
  }

  /** The inner loop of build_regions: the region grown from e0 by a stack of plots to look around. */
  method Explore(g: Grid<char>, e0: Coord, roots: set<Coord>, ghost done: set<Coord>)
    returns (region: Region, rest: set<Coord>)
    requires Seeded(g, e0, roots, done)
    ensures fresh(region)
    ensures region.code == g.At(e0) && e0 in region.plots
    ensures IsRegion(g, region.plots) && Coded(g, region.plots, region.code)
    ensures region.plots !! done
    ensures rest == roots - region.plots
  {
    var stack := [e0];
    region := new Region(e0, g.At(e0));
    rest := roots;
    ConnectedRefl(g, e0);
    while |stack| > 0
      invariant fresh(region) && region.code == g.At(e0)
      invariant Exploring(g, e0, roots, done, region.plots, stack, rest, {})
      decreases |rest|, |stack|
    {
      stack, rest := Pop(g, region, stack, rest, e0, roots, done);
    }
    RegionFound(g, e0, region.plots);
  }

  /** One pass of the inner loop: pop a plot and look in every direction around it. */
  method Pop(g: Grid<char>, region: Region, stack: seq<Coord>, rest: set<Coord>,
             ghost e0: Coord, ghost roots: set<Coord>, ghost done: set<Coord>)
    returns (stack': seq<Coord>, rest': set<Coord>)
    requires Seeded(g, e0, roots, done) && |stack| > 0
    requires Exploring(g, e0, roots, done, region.plots, stack, rest, {})
    modifies region
    ensures Exploring(g, e0, roots, done, region.plots, stack', rest', {})
    ensures |rest'| < |rest| || (rest' == rest && |stack'| < |stack|)
  {
    var e := stack[|stack| - 1];
    stack' := stack[..|stack| - 1];
    assert stack == stack' + [e];
    rest' := rest;
    ghost var stack0 := stack';
    for i := 0 to 4
      invariant Exploring(g, e0, roots, done, region.plots, stack', rest', {e}) && e in region.plots
      invariant AroundUpTo(g, e, i) <= region.plots
      invariant (stack' == stack0 && rest' == rest) || |rest'| < |rest|
    {
      stack', rest' := Visit(g, region, e, Dirs[i], stack', rest', e0, roots, done);
    }
    LookedAround(g, e0, roots, done, region.plots, stack', rest', e);
  }

  /** Once every direction around e is looked at, e no longer needs to be on the stack. */
  lemma {:induction false} LookedAround(g: Grid<char>, e0: Coord, roots: set<Coord>, done: set<Coord>,
                     P: set<Coord>, stack: seq<Coord>, rest: set<Coord>, e: Coord)
    requires Exploring(g, e0, roots, done, P, stack, rest, {e}) && e in P
    requires AroundUpTo(g, e, 4) <= P
    ensures Exploring(g, e0, roots, done, P, stack, rest, {})
  {
    AroundContains(g, e, 4, 0);
    AroundContains(g, e, 4, 1);
    AroundContains(g, e, 4, 2);
    AroundContains(g, e, 4, 3);
    forall q | Same(g, e, q) ensures q in P {
      SameDirs(g, e, q);
    }
  }

  /** With the stack empty the plots found form a region. */
  lemma {:induction false} RegionFound(g: Grid<char>, e0: Coord, P: set<Coord>)
    requires Garden(g) && g.InBounds(e0) && e0 in P
    requires forall p :: p in P ==> g.InBounds(p) && g.At(p) == g.At(e0) && Connected(g, e0, p)
    requires forall p, q :: p in P && Same(g, p, q) ==> q in P
    ensures IsRegion(g, P) && Coded(g, P, g.At(e0))
  {
    forall p, q | p in P && q in P ensures Connected(g, p, q) {
      ConnectedSymmetric(g, e0, p);
      ConnectedTransitive(g, p, e0, q);
    }
  }

  /** Every cell of the grid, row by row. */
  function Cells(g: Grid<char>): (r: set<Coord>)
    ensures forall p :: p in r <==> g.InBounds(p)
  {
    set r: nat, c: nat | r < g.height && c < g.width :: Coord(r, c)
  }

  /**
   * build_regions: take roots out one at a time and flood-fill the region
   * of each; every cell of the garden ends up in exactly one region, and
   * every region is closed, connected and of one plant, its code.
   */
  method BuildRegions(g: Grid<char>) returns (regions: seq<Region>)
    requires Garden(g)
    ensures Partition(g, Plots(regions))
    ensures forall k, p :: 0 <= k < |regions| && p in regions[k].plots ==>
      g.InBounds(p) && g.At(p) == regions[k].code
  {
    var roots := Cells(g);
    regions := [];
    ghost var parts: seq<set<Coord>> := [];
    var e: Option<Coord>;
    ghost var all := roots;
    e, roots := RemoveSome(roots);
    BuildingStart(g, all, e, roots);
    while e.Some?
      invariant Mirrors(g, regions, parts)
      invariant Building(g, parts, roots, e)
      decreases |roots| + if e.Some? then 1 else 0
    {
      regions, parts, roots, e := Round(g, regions, parts, roots, e.value);
    }
    BuildingDone(g, regions, parts, roots);
  }

  /** When no root is left, the regions found partition the garden. */
  lemma {:induction false} BuildingDone(g: Grid<char>, regions: seq<Region>, parts: seq<set<Coord>>, roots: set<Coord>)
    requires Mirrors(g, regions, parts) && Building(g, parts, roots, None)
    ensures Partition(g, Plots(regions))
    ensures forall k, p :: 0 <= k < |regions| && p in regions[k].plots ==>
      g.InBounds(p) && g.At(p) == regions[k].code
  {
    forall k: nat | k < |regions|
      ensures Plots(regions)[k] == parts[k] && Coded(g, parts[k], regions[k].code)
    {
      assert MirrorAt(g, regions, parts, k);
    }
    assert Plots(regions) == parts;
  }

  /** One pass of build_regions' outer loop: the region of root e, then the next root. */
  method Round(g: Grid<char>, regions: seq<Region>, ghost parts: seq<set<Coord>>, roots: set<Coord>, e: Coord)
    returns (regions': seq<Region>, ghost parts': seq<set<Coord>>, roots': set<Coord>, e': Option<Coord>)
    requires Mirrors(g, regions, parts) && Building(g, parts, roots, Some(e))
    ensures Mirrors(g, regions', parts') && Building(g, parts', roots', e')
    ensures |roots'| + (if e'.Some? then 1 else 0) < |roots| + 1
  {
    var region, rest := Explore(g, e, roots, Union(parts));
    regions' := regions + [region];
    parts' := parts + [region.plots];
    e', roots' := RemoveSome(rest);
    BuildingStep(g, parts, roots, e, region.plots, rest, e', roots');
    SubsetSize(rest, roots);
    MirrorsAppend(g, regions, parts, region);
  }

  /** A subset is no larger than its superset. */
  lemma {:induction false} SubsetSize(A: set<Coord>, B: set<Coord>)
    requires A <= B
    ensures |A| <= |B|
  {
    assert B == A + (B - A);
  }

  /** The regions' plots are parts, and each region's plots grow its code. */
  ghost predicate Mirrors(g: Grid<char>, regions: seq<Region>, parts: seq<set<Coord>>)
    reads regions
  {
    |parts| == |regions| &&
    forall k: nat {:trigger MirrorAt(g, regions, parts, k)} :: k < |regions| ==> MirrorAt(g, regions, parts, k)
  }

  /** Region k's plots are part k, all growing its code. */
  ghost predicate MirrorAt(g: Grid<char>, regions: seq<Region>, parts: seq<set<Coord>>, k: nat)
    reads regions
    requires k < |regions| && |parts| == |regions|
  {
    regions[k].plots == parts[k] && Coded(g, parts[k], regions[k].code)
  }

  lemma {:induction false} MirrorsAppend(g: Grid<char>, regions: seq<Region>, parts: seq<set<Coord>>, region: Region)
    requires Mirrors(g, regions, parts) && Coded(g, region.plots, region.code)
    ensures Mirrors(g, regions + [region], parts + [region.plots])
  {
    var regions', parts' := regions + [region], parts + [region.plots];
    forall k: nat | k < |regions'|
      ensures MirrorAt(g, regions', parts', k)
    {
      if k < |regions| {
        assert regions'[k] == regions[k] && parts'[k] == parts[k] && MirrorAt(g, regions, parts, k);
      }
    }
  }

  /** Every plot is inside the garden and grows the region's code. */
  ghost predicate Coded(g: Grid<char>, P: set<Coord>, code: char) {
    Garden(g) && forall p :: p in P ==> g.InBounds(p) && g.At(p) == code
  }

  /** Every part is a region. */
  ghost predicate AllRegions(g: Grid<char>, parts: seq<set<Coord>>) {
    forall k :: 0 <= k < |parts| ==> IsRegion(g, parts[k])
  }

  /** No two parts share a plot. */
  ghost predicate Disjoint(parts: seq<set<Coord>>) {
    forall k, l :: 0 <= k < l < |parts| ==> parts[k] !! parts[l]
  }

  /**
   * The outer loop of build_regions: the regions so far are disjoint
   * regions, the roots left are the cells in none of them, and e, the
   * root just taken out, is in none of them either.
   */
  ghost predicate Building(g: Grid<char>, parts: seq<set<Coord>>, roots: set<Coord>, e: Option<Coord>) {
    Garden(g) && AllRegions(g, parts) && Disjoint(parts) && Closed(g, Union(parts)) &&
    (e.Some? ==> Seeded(g, e.value, roots, Union(parts))) &&
    (e.None? ==> roots == {} && forall p :: g.InBounds(p) ==> p in Union(parts))
  }

  /** One more region found and the next root taken out keep the outer loop's invariant. */
  lemma {:induction false} BuildingStep(g: Grid<char>, parts: seq<set<Coord>>, roots: set<Coord>, e0: Coord,
                     P: set<Coord>, rest: set<Coord>, e: Option<Coord>, roots': set<Coord>)
    requires Building(g, parts, roots, Some(e0))
    requires IsRegion(g, P) && e0 in P && P !! Union(parts) && rest == roots - P
    requires Taken(rest, e, roots')
    ensures Building(g, parts + [P], roots', e)
  {
    UnionAppend(parts, P);
    AllRegionsAppend(g, parts, P);
    DisjointAppend(parts, P);
    ClosedUnion(g, Union(parts), P);
    if e.Some? {
      SeededNext(g, e0, roots, Union(parts), P, rest, e.value, roots');
    } else {
      SeededLast(g, e0, roots, Union(parts), P);
    }
  }

  lemma {:induction false} AllRegionsAppend(g: Grid<char>, parts: seq<set<Coord>>, P: set<Coord>)
    requires AllRegions(g, parts) && IsRegion(g, P)
    ensures AllRegions(g, parts + [P])
  {
    var parts' := parts + [P];
    forall k | 0 <= k < |parts'| ensures IsRegion(g, parts'[k]) {
      if k < |parts| {
        assert parts'[k] == parts[k];
      }
    }
  }

  lemma {:induction false} DisjointAppend(parts: seq<set<Coord>>, P: set<Coord>)
    requires Disjoint(parts) && P !! Union(parts)
    ensures Disjoint(parts + [P])
  {
    var parts' := parts + [P];
    UnionBounds(parts);
    forall k, l | 0 <= k < l < |parts'| ensures parts'[k] !! parts'[l] {
      assert parts'[k] == parts[k] && parts[k] <= Union(parts);
      if l < |parts| {
        assert parts'[l] == parts[l];
      }
    }
  }

  lemma {:induction false} ClosedUnion(g: Grid<char>, A: set<Coord>, B: set<Coord>)
    requires Closed(g, A) && Closed(g, B)
    ensures Closed(g, A + B)
  {
  }

  /** The next root taken out is in none of the regions, the new one included. */
  lemma {:induction false} SeededNext(g: Grid<char>, e0: Coord, roots: set<Coord>, done: set<Coord>,
                   P: set<Coord>, rest: set<Coord>, e: Coord, roots': set<Coord>)
    requires Seeded(g, e0, roots, done) && Closed(g, done + P)
    requires IsRegion(g, P) && e0 in P && P !! done && rest == roots - P
    requires e in rest && roots' == rest - {e}
    ensures Seeded(g, e, roots', done + P)
  {
  }

  /** With no root left every cell is in some region. */
  lemma {:induction false} SeededLast(g: Grid<char>, e0: Coord, roots: set<Coord>, done: set<Coord>, P: set<Coord>)
    requires Seeded(g, e0, roots, done) && e0 in P && roots - P == {}
    ensures forall p :: g.InBounds(p) ==> p in done + P
  {
    forall p | g.InBounds(p) ensures p in done + P {
      if p !in P {
        assert p !in roots - P;
      }
    }
  }

  /** remove_some's promise: e is None on an empty set, else a member taken out. */
  predicate Taken(roots: set<Coord>, e: Option<Coord>, rest: set<Coord>) {
    (e.None? <==> roots == {}) && (e.None? ==> rest == roots) &&
    (e.Some? ==> e.value in roots && rest == roots - {e.value})
  }

  /** Before the first region: the roots are all cells, less the one taken out. */
  lemma {:induction false} BuildingStart(g: Grid<char>, all: set<Coord>, e: Option<Coord>, roots: set<Coord>)
    requires Garden(g)
    requires forall p :: p in all <==> g.InBounds(p)
    requires Taken(all, e, roots)
    ensures Building(g, [], roots, e)
  {
  }

  /** A region's price: its area times its perimeter. */
  ghost function PriceOf(P: set<Coord>): nat {
    |P| * PerimeterOf(P)
  }

  /** The prices of the first n regions, summed. */
  ghost function PriceSum(parts: seq<set<Coord>>, n: nat): nat
    requires n <= |parts|
  {
    if n == 0 then 0 else PriceSum(parts, n - 1) + PriceOf(parts[n - 1])
  }

  /** The sides of the first n regions, summed. */
  ghost function SidesSum(g: Grid<char>, parts: seq<set<Coord>>, n: nat): nat
    requires n <= |parts|
  {
    if n == 0 then 0 else SidesSum(g, parts, n - 1) + SidesOf(g, parts[n - 1])
  }

  /** The source's sides of the first n regions, summed. */
  ghost function SidesSumAsWritten(g: Grid<char>, parts: seq<set<Coord>>, n: nat): nat
    requires n <= |parts|
  {
    if n == 0 then 0 else SidesSumAsWritten(g, parts, n - 1) + SidesOfAsWritten(g, parts[n - 1])
  }

  /** Region by region, the source's total is never below the corrected one. */
  lemma {:induction false} SidesSumNeverFewer(g: Grid<char>, parts: seq<set<Coord>>, n: nat)
    requires n <= |parts|
    ensures SidesSum(g, parts, n) <= SidesSumAsWritten(g, parts, n)
  {
    if n > 0 {
      SidesSumNeverFewer(g, parts, n - 1);
      SidesAsWrittenNeverFewer(g, parts[n - 1]);
    }
  }

  /** part1: the total price of the garden's regions. */
  method TotalPrice(g: Grid<char>) returns (total: nat, ghost parts: seq<set<Coord>>)
    requires Garden(g)
    ensures Partition(g, parts) && total == PriceSum(parts, |parts|)
  {
    var regions := BuildRegions(g);
    parts := Plots(regions);
    total := SumPrices(regions);
  }

  /** The sum of regions.iter().map(price). */
  method SumPrices(regions: seq<Region>) returns (total: nat)
    ensures total == PriceSum(Plots(regions), |regions|)
  {
    total := 0;
    ghost var parts := Plots(regions);
    for i := 0 to |regions|
      invariant total == PriceSum(parts, i)
    {
      var p := regions[i].Price();
      total := total + p;
    }
  }

  /** part2: the total number of sides of the garden's regions. */
  method TotalSides(g: Grid<char>) returns (total: nat, ghost parts: seq<set<Coord>>)
    requires Garden(g)
    ensures Partition(g, parts) && total == SidesSum(g, parts, |parts|)
  {
    var regions := BuildRegions(g);
    parts := Plots(regions);
    total := SumSides(g, regions);
  }

  /** The sum of regions.iter().map(sides). */
  method SumSides(g: Grid<char>, regions: seq<Region>) returns (total: nat)
    requires Garden(g) && forall k, p :: 0 <= k < |regions| && p in regions[k].plots ==> g.InBounds(p)
    ensures total == SidesSum(g, Plots(regions), |regions|)
  {
    total := 0;
    ghost var parts := Plots(regions);
    for i := 0 to |regions|
      invariant total == SidesSum(g, parts, i)
    {
      var s := regions[i].Sides(g);
      total := total + s;
    }
  }

  /** part2 as written: the total of the source's sides over the garden's regions. */
  method TotalSidesAsWritten(g: Grid<char>) returns (total: nat, ghost parts: seq<set<Coord>>)
    requires Garden(g)
    ensures Partition(g, parts) && total == SidesSumAsWritten(g, parts, |parts|)
  {
    var regions := BuildRegions(g);
    parts := Plots(regions);
    total := SumSidesAsWritten(g, regions);
  }

  /** The sum of regions.iter().map(sides), with the source's corner test. */
  method SumSidesAsWritten(g: Grid<char>, regions: seq<Region>) returns (total: nat)
    requires Garden(g) && forall k, p :: 0 <= k < |regions| && p in regions[k].plots ==> g.InBounds(p)
    ensures total == SidesSumAsWritten(g, Plots(regions), |regions|)
  {
    total := 0;
    ghost var parts := Plots(regions);
    for i := 0 to |regions|
      invariant total == SidesSumAsWritten(g, parts, i)
    {
      var s := regions[i].SidesAsWritten(g);
      total := total + s;
    }
  }
}
