/**
 * Day 14: the bathroom robots. Every second each robot moves by its
 * velocity and wraps around the edges of a 101 x 103 floor. After 100
 * seconds the robots are counted per quadrant, the middle column and the
 * middle row belonging to none, and the counts are multiplied together.
 *
 * The robots are a vector updated in place, so move_bots works on an
 * array and is proved against the function that moves every robot once.
 */
module Day14 {
  import opened Wrappers

  const Width: int := 101
  const Height: int := 103

  datatype Pos = Pos(x: int, y: int)

  /** A robot: its position p and velocity v. */
  datatype Bot = Bot(p: Pos, v: Pos)

  /** A quadrant: (left of the middle column, above the middle row). */
  type Quad = (bool, bool)

  /** One second of one robot: rem_euclid keeps it on the floor; its velocity stays. */
  function Step(b: Bot, w: int, h: int): (r: Bot)
    requires w > 0 && h > 0
    ensures 0 <= r.p.x < w && 0 <= r.p.y < h && r.v == b.v
  {
    Bot(Pos((b.p.x + b.v.x) % w, (b.p.y + b.v.y) % h), b.v)
  }

  /** One second of every robot. */
  function Move(s: seq<Bot>, w: int, h: int): (r: seq<Bot>)
    requires w > 0 && h > 0
    ensures |r| == |s| && forall i :: 0 <= i < |s| ==> r[i] == Step(s[i], w, h)
  {
    seq(|s|, i requires 0 <= i < |s| => Step(s[i], w, h))
  }

  /** n seconds of every robot. */
  function MoveN(s: seq<Bot>, n: nat, w: int, h: int): (r: seq<Bot>)
    requires w > 0 && h > 0
    ensures |r| == |s|
  {
    if n == 0 then s else Move(MoveN(s, n - 1, w, h), w, h)
  }

  /** move_bots: every robot takes one step, in place. */
  method MoveBots(bots: array<Bot>, w: int, h: int)
    requires w > 0 && h > 0
    modifies bots
    ensures bots[..] == Move(old(bots[..]), w, h)
  {
    for i := 0 to bots.Length
      invariant forall k :: 0 <= k < i ==> bots[k] == Step(old(bots[k]), w, h)
      invariant forall k :: i <= k < bots.Length ==> bots[k] == old(bots[k])
    {
      bots[i] := Step(bots[i], w, h);
    }
  }

  /** Wrapping before adding the velocity changes nothing: (a mod w + v) mod w = (a + v) mod w. */
  lemma {:induction false} ModAdd(a: int, v: int, w: int)
    requires w > 0
    ensures (a % w + v) % w == (a + v) % w
  {
    var b := a % w + v;
    assert a + v == (a / w + b / w) * w + b % w;
    ModUnique(a + v, a / w + b / w, b % w, w);
  }

  /** The remainder is the only r in [0, w) with b = k w + r. */
  lemma {:induction false} ModUnique(b: int, k: int, r: int, w: int)
    requires w > 0 && 0 <= r < w && b == k * w + r
    ensures b % w == r
  {
    var d := k - b / w;
    assert d * w == b % w - r;
  }

  /** After n >= 1 seconds a robot is at (p + n v) mod the floor's size, with its velocity unchanged. */
  lemma {:induction false} MoveNClosedForm(s: seq<Bot>, n: nat, w: int, h: int, i: nat)
    requires w > 0 && h > 0 && n >= 1 && i < |s|
    ensures MoveN(s, n, w, h)[i] ==
      Bot(Pos((s[i].p.x + n * s[i].v.x) % w, (s[i].p.y + n * s[i].v.y) % h), s[i].v)
  {
    if n > 1 {
      MoveNClosedForm(s, n - 1, w, h, i);
      var b := s[i];
      ModAdd(b.p.x + (n - 1) * b.v.x, b.v.x, w);
      ModAdd(b.p.y + (n - 1) * b.v.y, b.v.y, h);
      assert b.p.x + (n - 1) * b.v.x + b.v.x == b.p.x + n * b.v.x;
      assert b.p.y + (n - 1) * b.v.y + b.v.y == b.p.y + n * b.v.y;
    }
  }

  /** The quadrant of a position; the middle column and row are in none. */
  function Quadrant(x: int, y: int, halfW: int, halfH: int): (q: Option<Quad>)
    ensures q.None? <==> x == halfW || y == halfH
    ensures q.Some? ==> q.value == (x < halfW, y < halfH)
  {
    if x < halfW then
      if y < halfH then Some((true, true))
      else if y > halfH then Some((true, false))
      else None
    else if x > halfW then
      if y < halfH then Some((false, true))
      else if y > halfH then Some((false, false))
      else None
    else None
  }

  /** The quadrant of a robot on a w x h floor. */
  function QuadrantOf(b: Bot, w: int, h: int): Option<Quad> {
    Quadrant(b.p.x, b.p.y, w / 2, h / 2)
  }

  /** The number of robots in quadrant q. */
  function Count(s: seq<Bot>, q: Quad, w: int, h: int): nat {
    if |s| == 0 then 0
    else Count(s[..|s| - 1], q, w, h) + if QuadrantOf(s[|s| - 1], w, h) == Some(q) then 1 else 0
  }

  /** The number of robots on the middle column or row. */
  function Middle(s: seq<Bot>, w: int, h: int): nat {
    if |s| == 0 then 0
    else Middle(s[..|s| - 1], w, h) + if QuadrantOf(s[|s| - 1], w, h).None? then 1 else 0
  }

  const Quads: seq<Quad> := [(true, true), (true, false), (false, true), (false, false)]

  /** Every robot is in exactly one quadrant or on a middle line. */
  lemma {:induction false} CountsAddUp(s: seq<Bot>, w: int, h: int)
    ensures Count(s, Quads[0], w, h) + Count(s, Quads[1], w, h) + Count(s, Quads[2], w, h) +
            Count(s, Quads[3], w, h) + Middle(s, w, h) == |s|
  {
    if |s| > 0 {
      CountsAddUp(s[..|s| - 1], w, h);
      var q := QuadrantOf(s[|s| - 1], w, h);
      if q.Some? {
        assert q.value in Quads;
      }
    }
  }

  /** The counting loop of part1: the map holds a count for every quadrant with a robot in it. */
  method CountQuadrants(bots: seq<Bot>, w: int, h: int) returns (m: map<Quad, nat>)
    ensures forall q :: q in m <==> Count(bots, q, w, h) > 0
    ensures forall q :: q in m ==> m[q] == Count(bots, q, w, h)
  {
    m := map[];
    for i := 0 to |bots|
      invariant forall q :: q in m <==> Count(bots[..i], q, w, h) > 0
      invariant forall q :: q in m ==> m[q] == Count(bots[..i], q, w, h)
    {
      assert bots[..i + 1][..i] == bots[..i];
      var quad := QuadrantOf(bots[i], w, h);
      if quad.Some? {
        var q := quad.value;
        m := m[q := (if q in m then m[q] else 0) + 1];
      }
    }
    assert bots[..|bots|] == bots;
  }

  /** The fold of the map's values by multiplication, starting from 1. */
  function Product(m: map<Quad, nat>, n: nat): nat
    requires n <= |Quads|
  {
    if n == 0 then 1
    else Product(m, n - 1) * if Quads[n - 1] in m then m[Quads[n - 1]] else 1
  }

  /** The safety factor of part1: the product of the robots per quadrant, over the quadrants that have one. */
  function SafetyFactor(s: seq<Bot>, w: int, h: int, n: nat): nat
    requires n <= |Quads|
  {
    if n == 0 then 1
    else SafetyFactor(s, w, h, n - 1) * if Count(s, Quads[n - 1], w, h) > 0 then Count(s, Quads[n - 1], w, h) else 1
  }

  /** An empty quadrant is left out of the product, not a factor 0: the factor is never 0. */
  lemma {:induction false} SafetyPositive(s: seq<Bot>, w: int, h: int, n: nat)
    requires n <= |Quads|
    ensures SafetyFactor(s, w, h, n) >= 1
  {
    if n > 0 {
      SafetyPositive(s, w, h, n - 1);
      var c := if Count(s, Quads[n - 1], w, h) > 0 then Count(s, Quads[n - 1], w, h) else 1;
      assert c >= 1;
      assert SafetyFactor(s, w, h, n) == SafetyFactor(s, w, h, n - 1) * c;
    }
  }

  /** The fold over the counting loop's map is the safety factor. */
  lemma {:induction false} ProductIsSafety(m: map<Quad, nat>, s: seq<Bot>, w: int, h: int, n: nat)
    requires n <= |Quads|
    requires forall q :: q in m <==> Count(s, q, w, h) > 0
    requires forall q :: q in m ==> m[q] == Count(s, q, w, h)
    ensures Product(m, n) == SafetyFactor(s, w, h, n)
  {
    if n > 0 {
      ProductIsSafety(m, s, w, h, n - 1);
    }
  }

  /** part1: 100 seconds of moves, then the safety factor of the 101 x 103 floor. */
  method Part1(bots: array<Bot>) returns (r: nat)
    modifies bots
    ensures bots[..] == MoveN(old(bots[..]), 100, Width, Height)
    ensures r == SafetyFactor(bots[..], Width, Height, 4) && r >= 1
  {
    ghost var orig := bots[..];
    for j := 0 to 100
      invariant bots[..] == MoveN(orig, j, Width, Height)
    {
      MoveBots(bots, Width, Height);
    }
    var m := CountQuadrants(bots[..], Width, Height);
    r := Product(m, 4);
    ProductIsSafety(m, bots[..], Width, Height, 4);
    SafetyPositive(bots[..], Width, Height, 4);
  }
}
