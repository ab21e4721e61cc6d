/**
 * The shared grid layer: coordinates, the four compass directions and the
 * row-major grid that every grid puzzle builds from its input lines.
 */
module Utils {
  import opened Wrappers

  /** A cell position; row 0 is the top line, column 0 the left edge. */
  datatype Coord = Coord(row: nat, col: nat)

  datatype Dir = Up | Down | Left | Right

  /** The row offset of one step in a direction (rows grow downwards). */
  function DeltaRow(d: Dir): int {
    match d
    case Up => -1
    case Down => 1
    case Left => 0
    case Right => 0
  }

  /** The column offset of one step in a direction. */
  function DeltaCol(d: Dir): int {
    match d
    case Up => 0
    case Down => 0
    case Left => -1
    case Right => 1
  }

  /** The neighbour one step away; only the top and left edges can fail. */
  function InDir(c: Coord, d: Dir): (r: Option<Coord>)
    ensures r.None? <==> (d == Up && c.row == 0) || (d == Left && c.col == 0)
    ensures r.Some? ==> r.value.row == c.row + DeltaRow(d) && r.value.col == c.col + DeltaCol(d)
  {
    match d
    case Down => Some(Coord(c.row + 1, c.col))
    case Up => if c.row > 0 then Some(Coord(c.row - 1, c.col)) else None
    case Left => if c.col > 0 then Some(Coord(c.row, c.col - 1)) else None
    case Right => Some(Coord(c.row, c.col + 1))
  }

  /** A quarter turn clockwise: the step (dr, dc) becomes (dc, -dr). */
  function TurnRight(d: Dir): (r: Dir)
    ensures DeltaRow(r) == DeltaCol(d) && DeltaCol(r) == -DeltaRow(d)
  {
    match d
    case Up => Right
    case Down => Left
    case Left => Up
    case Right => Down
  }

  /** A quarter turn anticlockwise, the inverse of TurnRight. */
  function TurnLeft(d: Dir): (r: Dir)
    ensures TurnRight(r) == d
  {
    match d
    case Up => Left
    case Down => Right
    case Left => Down
    case Right => Up
  }

  /** Two right turns reverse the step; four bring the direction back. */
  lemma {:induction false} TurnProperties(d: Dir)
    ensures TurnLeft(TurnRight(d)) == d
    ensures DeltaRow(TurnRight(TurnRight(d))) == -DeltaRow(d)
    ensures DeltaCol(TurnRight(TurnRight(d))) == -DeltaCol(d)
    ensures TurnRight(TurnRight(TurnRight(TurnRight(d)))) == d
  {
  }

  /** The arrow a guard facing this way is drawn with; never an obstacle. */
  function AsAsciiByte(d: Dir): (r: char)
    ensures r != '#' && r != '.'
  {
    match d
    case Up => '^'
    case Down => 'v'
    case Left => '<'
    case Right => '>'
  }

  /** Distinct directions are drawn differently. */
  lemma {:induction false} AsAsciiByteInjective(d: Dir, e: Dir)
    requires AsAsciiByte(d) == AsAsciiByte(e)
    ensures d == e
  {
  }

  /**
   * The coordinate k steps from p along d, when it has no negative
   * component; the reference for the grid's index arithmetic.
   */
  function Ahead(p: Coord, d: Dir, k: nat): Option<Coord> {
    match d
    case Up => if p.row >= k then Some(Coord(p.row - k, p.col)) else None
    case Down => Some(Coord(p.row + k, p.col))
    case Left => if p.col >= k then Some(Coord(p.row, p.col - k)) else None
    case Right => Some(Coord(p.row, p.col + k))
  }

  lemma {:induction false} AheadOneIsInDir(p: Coord, d: Dir)
    ensures Ahead(p, d, 1) == InDir(p, d)
  {
  }

  /** Orthogonal neighbours: one coordinate equal, the other one apart. */
  predicate Adjacent(p: Coord, q: Coord) {
    (p.row == q.row && (p.col + 1 == q.col || q.col + 1 == p.col)) ||
    (p.col == q.col && (p.row + 1 == q.row || q.row + 1 == p.row))
  }

  /** The neighbours of p are the cells one step away in some direction. */
  lemma {:induction false} AdjacentDirs(p: Coord, q: Coord)
    ensures Adjacent(p, q) <==>
      InDir(p, Up) == Some(q) || InDir(p, Down) == Some(q) ||
      InDir(p, Left) == Some(q) || InDir(p, Right) == Some(q)
  {
  }

  /** The row-major position of a cell in a grid of the given width. */
  function Index(p: Coord, width: nat): nat {
    p.row * width + p.col
  }

  lemma {:induction false} IndexBelow(p: Coord, width: nat, height: nat)
    requires p.row < height && p.col < width
    ensures Index(p, width) < width * height
    ensures Index(p, width) + width - p.col <= width * height
  {
    assert p.row * width <= (height - 1) * width by {
      MulLeq(p.row, height - 1, width);
    }
  }

  lemma {:induction false} MulLeq(a: nat, b: nat, c: nat)
    requires a <= b
    ensures a * c <= b * c
  {
  }

  /** Division by the width undoes Index for an in-range column. */
  lemma {:induction false} DivModIndex(p: Coord, width: nat)
    requires p.col < width
    ensures Index(p, width) / width == p.row && Index(p, width) % width == p.col
  {
    var i := Index(p, width);
    var q, m := i / width, i % width;
    var d := q - p.row;
    assert width * d == p.col - m;
    if d >= 1 {
      MulLeqInt(1, d, width);
    } else if d <= -1 {
      MulLeqInt(1, -d, width);
    }
  }

  lemma {:induction false} MulLeqInt(a: int, b: int, c: nat)
    requires a <= b
    ensures a * c <= b * c
  {
  }

  /** Index is one-to-one on the cells of a grid. */
  lemma {:induction false} IndexInjective(p: Coord, q: Coord, width: nat)
    requires p.col < width && q.col < width
    requires Index(p, width) == Index(q, width)
    ensures p == q
  {
    DivModIndex(p, width);
    DivModIndex(q, width);
  }

  /**
   * The contents of a BasicGrid: the cells in row-major order, the width
   * of the first input line and the number of lines.
   */
  datatype Grid<T> = Grid(data: seq<T>, width: nat, height: nat) {
    /** Every line had the width of the first one. */
    predicate Valid() {
      |data| == width * height
    }

    predicate InBounds(p: Coord) {
      p.row < height && p.col < width
    }

    /** idx_to_pos: the cell at a row-major position. */
    function IdxToPos(i: nat): (p: Coord)
      requires width > 0
      ensures p.col < width && Index(p, width) == i
      ensures i < |data| && Valid() ==> InBounds(p)
    {
      var p := Coord(i / width, i % width);
      assert i < |data| && Valid() ==> p.row < height by {
        if i < |data| && Valid() && p.row >= height { MulLeq(height, p.row, width); }
      }
      p
    }

    /** pos_to_idx (and idx_for, the same arithmetic). */
    function PosToIdx(p: Coord): (i: nat)
      ensures Valid() && InBounds(p) ==> i < |data|
    {
      assert Valid() && InBounds(p) ==> Index(p, width) < |data| by {
        if Valid() && InBounds(p) {
          IndexBelow(p, width, height);
        }
      }
      Index(p, width)
    }

    /** idx_to_pos undoes pos_to_idx on a column inside the grid. */
    lemma {:induction false} PosIdxRoundTrip(p: Coord)
      requires p.col < width
      ensures IdxToPos(PosToIdx(p)) == p
    {
      DivModIndex(p, width);
    }

    /**
     * next_pos: the neighbour inside the grid, if any. Only the moving
     * coordinate is checked against the edge it moves towards.
     */
    function NextPos(p: Coord, d: Dir): (r: Option<Coord>)
      requires d == Down ==> height > 0
      requires d == Right ==> width > 0
      ensures r.Some? ==> r == InDir(p, d)
      ensures InBounds(p) ==> (r.Some? <==> InDir(p, d).Some? && InBounds(InDir(p, d).value))
    {
      match d
      case Up => if p.row > 0 then Some(Coord(p.row - 1, p.col)) else None
      case Down => if p.row < height - 1 then Some(Coord(p.row + 1, p.col)) else None
      case Left => if p.col > 0 then Some(Coord(p.row, p.col - 1)) else None
      case Right => if p.col < width - 1 then Some(Coord(p.row, p.col + 1)) else None
    }

    /** at, and indexing the grid by a Coord. */
    function At(p: Coord): T
      requires PosToIdx(p) < |data|
    {
      data[PosToIdx(p)]
    }

    /**
     * get: the value cnt steps along d. The start is re-derived from its
     * row-major index, and the bounds test is made on that row and column.
     */
    function Get(from: Coord, d: Dir, cnt: nat): (r: Option<T>)
      requires Valid() && width > 0 && PosToIdx(from) < |data|
      requires d == Up ==> cnt >= 1
      ensures InBounds(from) ==>
        r == (if Ahead(from, d, cnt).Some? && InBounds(Ahead(from, d, cnt).value)
              then Some(At(Ahead(from, d, cnt).value)) else None)
    {
      var p := IdxToPos(PosToIdx(from));
      assert InBounds(p) && (InBounds(from) ==> p == from) by {
        if InBounds(from) { PosIdxRoundTrip(from); }
      }
      match d
      case Up => GetUp(p, cnt)
      case Down => GetDown(p, cnt)
      case Left => GetLeft(p, cnt)
      case Right => GetRight(p, cnt)
    }

    /** The value the cell that is cnt rows above p holds, if there is one. */
    function GetUp(p: Coord, cnt: nat): (r: Option<T>)
      requires Valid() && InBounds(p) && cnt >= 1
      ensures r == (if Ahead(p, Up, cnt).Some? && InBounds(Ahead(p, Up, cnt).value)
                    then Some(At(Ahead(p, Up, cnt).value)) else None)
    {
      var i := PosToIdx(p);
      if p.row > cnt - 1 then
        UpIndex(p, width, height, cnt);
        Some(data[i - width * cnt])
      else None
    }

    /** The value the cell that is cnt rows below p holds, if there is one. */
    function GetDown(p: Coord, cnt: nat): (r: Option<T>)
      requires Valid() && InBounds(p)
      ensures r == (if Ahead(p, Down, cnt).Some? && InBounds(Ahead(p, Down, cnt).value)
                    then Some(At(Ahead(p, Down, cnt).value)) else None)
    {
      var i := PosToIdx(p);
      if p.row + cnt < height then
        DownIndex(p, width, height, cnt);
        Some(data[i + width * cnt])
      else None
    }

    /** The value the cell that is cnt columns left of p holds, if there is one. */
    function GetLeft(p: Coord, cnt: nat): (r: Option<T>)
      requires Valid() && InBounds(p)
      ensures r == (if Ahead(p, Left, cnt).Some? && InBounds(Ahead(p, Left, cnt).value)
                    then Some(At(Ahead(p, Left, cnt).value)) else None)
    {
      var i := PosToIdx(p);
      if p.col >= cnt then Some(data[i - cnt]) else None
    }

    /** The value the cell that is cnt columns right of p holds, if there is one. */
    function GetRight(p: Coord, cnt: nat): (r: Option<T>)
      requires Valid() && InBounds(p)
      ensures r == (if Ahead(p, Right, cnt).Some? && InBounds(Ahead(p, Right, cnt).value)
                    then Some(At(Ahead(p, Right, cnt).value)) else None)
    {
      var i := PosToIdx(p);
      if p.col + cnt < width then
        IndexBelow(p, width, height);
        Some(data[i + cnt])
      else None
    }

    /** Writing one cell (IndexMut), as a value. */
    function Set(p: Coord, v: T): (g: Grid<T>)
      requires PosToIdx(p) < |data|
      ensures g.width == width && g.height == height && |g.data| == |data|
      ensures g.At(p) == v
      ensures forall q :: InBounds(q) && InBounds(p) && Valid() && q != p ==> g.At(q) == At(q)
    {
      var g := Grid(data[PosToIdx(p) := v], width, height);
      assert forall q :: InBounds(q) && InBounds(p) && Valid() && q != p ==> PosToIdx(q) != PosToIdx(p) by {
        forall q | InBounds(q) && InBounds(p) && Valid() && q != p
          ensures PosToIdx(q) != PosToIdx(p)
        {
          if PosToIdx(q) == PosToIdx(p) { IndexInjective(p, q, width); }
        }
      }
      g
    }
  }

  lemma {:induction false} UpIndex(p: Coord, width: nat, height: nat, cnt: nat)
    requires p.row < height && p.col < width && p.row >= cnt
    ensures Index(p, width) >= width * cnt
    ensures Index(p, width) - width * cnt == Index(Coord(p.row - cnt, p.col), width)
  {
    assert Index(p, width) == (p.row - cnt) * width + p.col + width * cnt;
  }

  lemma {:induction false} DownIndex(p: Coord, width: nat, height: nat, cnt: nat)
    requires p.row + cnt < height && p.col < width
    ensures Index(p, width) + width * cnt == Index(Coord(p.row + cnt, p.col), width)
    ensures Index(p, width) + width * cnt < width * height
  {
    IndexBelow(Coord(p.row + cnt, p.col), width, height);
    assert (p.row + cnt) * width == p.row * width + width * cnt;
  }

  /** The position of the first occurrence of x in s. */
  function FirstIndex<T(==)>(s: seq<T>, x: T): (r: Option<nat>)
    ensures r.None? <==> x !in s
    ensures r.Some? ==> r.value < |s| && s[r.value] == x && x !in s[..r.value]
  {
    if |s| == 0 then None
    else if s[0] == x then Some(0)
    else
      match FirstIndex(s[1..], x)
      case None => None
      case Some(k) =>
        assert s[..k + 1] == [s[0]] + s[1..][..k];
        Some(k + 1)
  }

  /** find: the cell of the first value equal to val, in row-major order. */
  function Find<T(==)>(g: Grid<T>, val: T): (r: Option<Coord>)
    requires val in g.data ==> g.width > 0
    ensures r.None? <==> val !in g.data
    ensures r.Some? ==> g.PosToIdx(r.value) < |g.data| && g.At(r.value) == val
    ensures r.Some? ==> val !in g.data[..g.PosToIdx(r.value)]
    ensures r.Some? && g.Valid() ==> g.InBounds(r.value)
  {
    match FirstIndex(g.data, val)
    case None => None
    case Some(i) => Some(g.IdxToPos(i))
  }

  /** The positions of the values satisfying pred, in increasing order. */
  function Matching<T>(s: seq<T>, pred: T -> bool): (r: seq<nat>)
    ensures forall k :: 0 <= k < |r| ==> r[k] < |s| && pred(s[r[k]])
    ensures forall k, l :: 0 <= k < l < |r| ==> r[k] < r[l]
    ensures forall i :: 0 <= i < |s| && pred(s[i]) ==> i in r
  {
    if |s| == 0 then []
    else
      var front := Matching(s[..|s| - 1], pred);
      assert forall i :: 0 <= i < |s| - 1 ==> s[..|s| - 1][i] == s[i];
      if pred(s[|s| - 1]) then front + [|s| - 1] else front
  }

  /** find_with: every cell whose value satisfies pred, in row-major order. */
  function FindWith<T>(g: Grid<T>, pred: T -> bool): (r: seq<Coord>)
    requires g.width > 0 || forall i :: 0 <= i < |g.data| ==> !pred(g.data[i])
    ensures forall k :: 0 <= k < |r| ==> g.PosToIdx(r[k]) < |g.data| && pred(g.At(r[k]))
    ensures g.Valid() ==> forall k :: 0 <= k < |r| ==> g.InBounds(r[k])
    ensures forall k, l :: 0 <= k < l < |r| ==> g.PosToIdx(r[k]) < g.PosToIdx(r[l])
    ensures g.width > 0 ==> forall i :: 0 <= i < |g.data| && pred(g.data[i]) ==> g.IdxToPos(i) in r
  {
    var m := Matching(g.data, pred);
    var r := seq(|m|, k requires 0 <= k < |m| => g.IdxToPos(m[k]));
    if g.width > 0 then
      PositionsComplete(g, pred, m, r);
      r
    else r
  }

  /** Every matching index is in m, so its position is in the positions r of m. */
  lemma {:induction false} PositionsComplete<T>(g: Grid<T>, pred: T -> bool, m: seq<nat>, r: seq<Coord>)
    requires g.width > 0 && |r| == |m| && forall k :: 0 <= k < |m| ==> r[k] == g.IdxToPos(m[k])
    requires forall i :: 0 <= i < |g.data| && pred(g.data[i]) ==> i in m
    ensures forall i :: 0 <= i < |g.data| && pred(g.data[i]) ==> g.IdxToPos(i) in r
  {
    forall i | 0 <= i < |g.data| && pred(g.data[i]) ensures g.IdxToPos(i) in r {
      var k :| 0 <= k < |m| && m[k] == i;
      assert r[k] == g.IdxToPos(i);
    }
  }

  /** The first cell find_with reports for an equality test is the cell find reports. */
  lemma {:induction false} FindWithFirst<T>(g: Grid<T>, pred: T -> bool, val: T)
    requires g.Valid() && g.width > 0 && val in g.data
    requires forall x :: pred(x) <==> x == val
    ensures |FindWith(g, pred)| > 0 && FindWith(g, pred)[0] == Find(g, val).value
  {
    var r := FindWith(g, pred);
    var f := Find(g, val).value;
    var i := g.PosToIdx(f);
    assert g.data[i] == val;
    assert g.IdxToPos(i) == f;
    assert f in r;
    var k :| 0 <= k < |r| && r[k] == f;
  }

  /** Every byte of every line is one that conv accepts (From<u8> panics on the others). */
  ghost predicate Converts<T>(lines: seq<string>, conv: char --> T) {
    forall k :: 0 <= k < |lines| ==> LineConverts(lines[k], conv)
  }

  ghost predicate LineConverts<T>(line: string, conv: char --> T) {
    forall i :: 0 <= i < |line| ==> conv.requires(line[i])
  }

  /** The converted bytes of one input line. */
  function Convert<T>(line: string, conv: char --> T): (r: seq<T>)
    requires LineConverts(line, conv)
    ensures |r| == |line| && forall i :: 0 <= i < |line| ==> r[i] == conv(line[i])
  {
    seq(|line|, i requires 0 <= i < |line| => conv(line[i]))
  }

  /** The converted bytes of all input lines, one line after another. */
  function Flatten<T>(lines: seq<string>, conv: char --> T): seq<T>
    requires Converts(lines, conv)
  {
    if |lines| == 0 then []
    else
      assert LineConverts(lines[|lines| - 1], conv);
      Flatten(lines[..|lines| - 1], conv) + Convert(lines[|lines| - 1], conv)
  }

  /**
   * When every line is as wide as the first, BasicGrid::new lays the
   * lines out row-major: the cell (r, c) holds byte c of line r.
   */
  lemma {:induction false} FlattenLayout<T>(lines: seq<string>, conv: char --> T, w: nat)
    requires Converts(lines, conv)
    requires forall k :: 0 <= k < |lines| ==> |lines[k]| == w
    ensures |Flatten(lines, conv)| == w * |lines|
    ensures forall r, c :: 0 <= r < |lines| && 0 <= c < w ==>
      Index(Coord(r, c), w) < w * |lines| && Flatten(lines, conv)[Index(Coord(r, c), w)] == conv(lines[r][c])
  {
    if |lines| > 0 {
      var n := |lines| - 1;
      var front := lines[..n];
      assert forall k :: 0 <= k < n ==> front[k] == lines[k];
      FlattenLayout(front, conv, w);
      assert Flatten(lines, conv) == Flatten(front, conv) + Convert(lines[n], conv);
      AppendLayout(Flatten(front, conv), Convert(lines[n], conv), front, lines[n], conv, w);
      assert lines == front + [lines[n]];
    }
  }

  /** Appending one more row of w cells to a row-major layout keeps it row-major. */
  lemma {:induction false} AppendLayout<T>(F: seq<T>, L: seq<T>, front: seq<string>, last: string, conv: char --> T, w: nat)
    requires |F| == w * |front| && |L| == w && |last| == w
    requires forall k :: 0 <= k < |front| ==> |front[k]| == w
    requires forall c :: 0 <= c < w ==> conv.requires(last[c]) && L[c] == conv(last[c])
    requires forall r, c :: 0 <= r < |front| && 0 <= c < w ==>
      conv.requires(front[r][c]) && Index(Coord(r, c), w) < w * |front| && F[Index(Coord(r, c), w)] == conv(front[r][c])
    ensures |F + L| == w * |front + [last]|
    ensures forall r, c :: 0 <= r < |front + [last]| && 0 <= c < w ==>
      Index(Coord(r, c), w) < w * |front + [last]| && (F + L)[Index(Coord(r, c), w)] == conv((front + [last])[r][c])
  {
    var n := |front|;
    var lines := front + [last];
    assert w * |lines| == w * n + w;
    forall r, c | 0 <= r < |lines| && 0 <= c < w
      ensures Index(Coord(r, c), w) < w * |lines| && (F + L)[Index(Coord(r, c), w)] == conv(lines[r][c])
    {
      var i := Index(Coord(r, c), w);
      IndexBelow(Coord(r, c), w, |lines|);
      if r < n {
        assert lines[r] == front[r];
        assert (F + L)[i] == F[i];
      } else {
        assert i == w * n + c;
        assert (F + L)[i] == L[c];
      }
    }
  }

  /** The grid BasicGrid::new builds from equally wide lines. */
  lemma {:induction false} NewLayout<T>(lines: seq<string>, conv: char --> T)
    requires Converts(lines, conv)
    requires |lines| > 0 && forall k :: 0 <= k < |lines| ==> |lines[k]| == |lines[0]|
    ensures var g := Grid(Flatten(lines, conv), |lines[0]|, |lines|);
      g.Valid() && forall p :: g.InBounds(p) ==> g.At(p) == conv(lines[p.row][p.col])
  {
    FlattenLayout(lines, conv, |lines[0]|);
  }

  /**
   * A BasicGrid: the cells live in a fixed-size buffer that IndexMut
   * and swap update in place.
   */
  class BasicGrid<T> {
    const data: array<T>
    const width: nat
    const height: nat

    /** The grid's current contents as a value. */
    function Value(): (g: Grid<T>)
      reads data
      ensures g.width == width && g.height == height && |g.data| == data.Length
    {
      Grid(data[..], width, height)
    }

    /** new: push the converted bytes of every line, row after row. */
    constructor New(lines: seq<string>, conv: char --> T)
      requires |lines| > 0 && Converts(lines, conv)
      ensures Value() == Grid(Flatten(lines, conv), |lines[0]|, |lines|)
      ensures fresh(data)
    {
      var v: seq<T> := [];
      var li := 0;
      while li < |lines|
        invariant 0 <= li <= |lines|
        invariant Converts(lines[..li], conv)
        invariant v == Flatten(lines[..li], conv)
      {
        var bi := 0;
        while bi < |lines[li]|
          invariant 0 <= bi <= |lines[li]|
          invariant v == Flatten(lines[..li], conv) + Convert(lines[li][..bi], conv)
        {
          v := v + [conv(lines[li][bi])];
          bi := bi + 1;
          assert Convert(lines[li][..bi], conv) == Convert(lines[li][..bi - 1], conv) + [conv(lines[li][bi - 1])];
        }
        assert lines[li][..bi] == lines[li];
        assert lines[..li + 1][..li] == lines[..li];
        li := li + 1;
      }
      assert lines[..li] == lines;
      width := |lines[0]|;
      height := |lines|;
      data := new T[|v|](i requires 0 <= i < |v| => v[i]);
    }

    /** clone: a fresh buffer with the same contents. */
    constructor Clone(from: BasicGrid<T>)
      ensures Value() == from.Value() && fresh(data)
    {
      var v := from.data[..];
      width := from.width;
      height := from.height;
      data := new T[|v|](i requires 0 <= i < |v| => v[i]);
    }

    /** index_mut: overwrite the cell at p. */
    method Set(p: Coord, v: T)
      requires Value().PosToIdx(p) < data.Length
      modifies data
      ensures Value() == old(Value()).Set(p, v)
    {
      data[Index(p, width)] := v;
    }

    /** swap: exchange the contents of two cells. */
    method Swap(a: Coord, b: Coord)
      requires Value().PosToIdx(a) < data.Length && Value().PosToIdx(b) < data.Length
      modifies data
      ensures Value() == old(Value()).Set(a, old(Value()).At(b)).Set(b, old(Value()).At(a))
      ensures multiset(data[..]) == old(multiset(data[..]))
    {
      var i, j := Index(a, width), Index(b, width);
      data[i], data[j] := data[j], data[i];
    }
  }

  /** The cells of row r from column 0 up to, not including, column c. */
  function RowPrefix(r: nat, c: nat): (s: seq<Coord>)
    ensures |s| == c && forall k :: 0 <= k < c ==> s[k] == Coord(r, k)
  {
    seq(c, k requires 0 <= k < c => Coord(r, k))
  }

  /** What the row-major iterator yields before reaching row r, column c. */
  function Produced(width: nat, r: nat, c: nat): seq<Coord> {
    if r == 0 then RowPrefix(0, c) else Produced(width, r - 1, width + 1) + RowPrefix(r, c)
  }

  /**
   * The whole iteration over a grid of height h > 0: every cell, and also
   * the column-`width` position at the end of each row but the last.
   */
  lemma {:induction false} ProducedContents(width: nat, r: nat, c: nat, x: Coord)
    requires c <= width + 1
    ensures x in Produced(width, r, c) <==> (x.row < r && x.col <= width) || (x.row == r && x.col < c)
  {
    if r > 0 {
      ProducedContents(width, r - 1, width + 1, x);
    }
  }

  /** Each position comes strictly before the next in row-major order. */
  ghost predicate RowMajorOrdered(s: seq<Coord>) {
    forall i, j :: 0 <= i < j < |s| ==> s[i].row < s[j].row || (s[i].row == s[j].row && s[i].col < s[j].col)
  }

  /** The iteration never repeats a position and goes strictly row-major. */
  lemma {:induction false} ProducedOrdered(width: nat, r: nat, c: nat)
    requires c <= width + 1
    ensures RowMajorOrdered(Produced(width, r, c))
  {
    if r > 0 {
      ProducedOrdered(width, r - 1, width + 1);
      var front := Produced(width, r - 1, width + 1);
      var s := Produced(width, r, c);
      assert s == front + RowPrefix(r, c);
      forall i | 0 <= i < |front| ensures front[i].row < r {
        ProducedContents(width, r - 1, width + 1, front[i]);
      }
      forall i, j | 0 <= i < j < |s|
        ensures s[i].row < s[j].row || (s[i].row == s[j].row && s[i].col < s[j].col)
      {
        var row := RowPrefix(r, c);
        if j < |front| {
          assert s[i] == front[i] && s[j] == front[j];
        } else if i < |front| {
          assert s[j] == row[j - |front|];
          assert s[i] == front[i] && s[j] == Coord(r, j - |front|);
        } else {
          assert s[i] == row[i - |front|] && s[j] == row[j - |front|];
        }
      }
    }
  }

  /** The state of row_major_iter. */
  class GridIterator {
    const width: nat
    const height: nat
    var atRow: nat
    var atCol: nat
    /** The positions yielded so far. */
    ghost var produced: seq<Coord>

    ghost predicate Valid()
      reads this
    {
      atCol <= width && (height > 0 ==> atRow < height) &&
      produced == Produced(width, atRow, atCol)
    }

    /** row_major_iter: start at the top-left cell. */
    constructor <T>(g: Grid<T>)
      ensures Valid() && width == g.width && height == g.height && produced == []
    {
      width := g.width;
      height := g.height;
      atRow := 0;
      atCol := 0;
      produced := [];
    }
  
    /** next: yield the current position and advance along the row. */
    method Next() returns (r: Option<Coord>)
      requires Valid() && height > 0
      modifies this
      ensures Valid()
      ensures r.None? <==> old(atCol) == width && old(atRow) == height - 1
      ensures r.Some? ==> produced == old(produced) + [r.value]
      ensures r.None? ==> produced == old(produced) == Produced(width, height - 1, width)
    {
      var c := Coord(atRow, atCol);
      assert RowPrefix(atRow, atCol + 1) == RowPrefix(atRow, atCol) + [c];
      if atCol == width {
        if atRow == height - 1 {
          r := None;
        } else {
          assert Produced(width, atRow + 1, 0) == Produced(width, atRow, width + 1);
          atRow := atRow + 1;
          atCol := 0;
          r := Some(c);
          produced := produced + [c];
        }
      } else {
        atCol := atCol + 1;
        r := Some(c);
        produced := produced + [c];
      }
    }
  }
}
