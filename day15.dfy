/**
 * src/bin/d15.rs: a robot pushing boxes around a warehouse. A move along
 * a direction succeeds when the cells ahead hold a run of boxes followed
 * by an empty cell; the robot and the run then shift one cell along it,
 * by swapping cells from the empty end back to the robot.
 */
module Day15 {
  import opened Wrappers
  import opened Utils
  import Text

  datatype State = Wall | Box | Empty | Robot

  /** The bytes From<u8> for State accepts; any other one panics. */
  predicate IsStateByte(c: char) {
    c == '#' || c == '.' || c == '@' || c == 'O'
  }

  /** From<u8> for State. */
  function StateOf(c: char): (s: State)
    requires IsStateByte(c)
    ensures Glyph(s) == c
  {
    if c == '#' then Wall
    else if c == '.' then Empty
    else if c == '@' then Robot
    else Box
  }

  /** The Display impl for State: the byte each cell is drawn with. */
  function Glyph(s: State): (c: char)
    ensures IsStateByte(c)
  {
    match s
    case Wall => '#'
    case Box => 'O'
    case Empty => '.'
    case Robot => '@'
  }

  /** Reading back a drawn cell gives the cell. */
  lemma {:induction false} StateOfGlyph(s: State)
    ensures StateOf(Glyph(s)) == s
  {
  }

  /** From<u8> for Dir15: the arrows; None is the panic on any other byte. */
  function Dir15Of(c: char): (r: Option<Dir>)
    ensures r.Some? ==> AsAsciiByte(r.value) == c
  {
    if c == '<' then Some(Left)
    else if c == '>' then Some(Right)
    else if c == '^' then Some(Up)
    else if c == 'v' then Some(Down)
    else None
  }

  /** Every direction's arrow reads back as that direction. */
  lemma {:induction false} Dir15OfArrow(d: Dir)
    ensures Dir15Of(AsAsciiByte(d)) == Some(d)
  {
  }

  /** The move list: the arrows in order, the bytes `is_ascii_whitespace` accepts skipped; None, the panic of From<u8>, when another byte appears. */
  function ParseMoves(s: string): (r: Option<seq<Dir>>)
    ensures r.None? <==> exists i :: 0 <= i < |s| && !Text.IsAsciiWhitespace(s[i]) && Dir15Of(s[i]).None?
    ensures r.Some? ==> |r.value| <= |s|
  {
    if |s| == 0 then Some([])
    else
      assert forall i :: 0 <= i < |s| - 1 ==> s[..|s| - 1][i] == s[i];
      match ParseMoves(s[..|s| - 1])
      case None => None
      case Some(front) =>
        if Text.IsAsciiWhitespace(s[|s| - 1]) then Some(front)
        else
          match Dir15Of(s[|s| - 1])
          case None => None
          case Some(d) => Some(front + [d])
  }

  /** The arrows of a move list. */
  function Arrows(ds: seq<Dir>): (s: string)
    ensures |s| == |ds|
  {
    if |ds| == 0 then [] else Arrows(ds[..|ds| - 1]) + [AsAsciiByte(ds[|ds| - 1])]
  }

  /** Parsing the arrows of a move list gives the move list back. */
  lemma {:induction false} ParseArrows(ds: seq<Dir>)
    ensures ParseMoves(Arrows(ds)) == Some(ds)
  {
    if |ds| > 0 {
      var s := Arrows(ds);
      assert s[..|s| - 1] == Arrows(ds[..|ds| - 1]);
      ParseArrows(ds[..|ds| - 1]);
      Dir15OfArrow(ds[|ds| - 1]);
      assert ds[..|ds| - 1] + [ds[|ds| - 1]] == ds;
    }
  }

  /** The moves parsed are the input's arrows, in order, with the whitespace bytes skipped. */
  lemma {:induction false} ParseMovesArrows(s: string)
    requires ParseMoves(s).Some?
    ensures Arrows(ParseMoves(s).value) == Text.RemoveWhitespace(Text.Ascii, s)
  {
    if |s| > 0 {
      var init, c := s[..|s| - 1], s[|s| - 1];
      var front := ParseMoves(init).value;
      ParseMovesArrows(init);
      assert init + [c] == s;
      Text.RemoveWhitespaceAppend(Text.Ascii, init, [c]);
      assert [c][1..] == [];
      if !Text.IsAsciiWhitespace(c) {
        var d := Dir15Of(c).value;
        assert ParseMoves(s).value == front + [d];
        assert (front + [d])[..|front|] == front;
      }
    }
  }

  /** A move: the robot's cell, the empty cell the run ends in, and the direction. */
  datatype MoveState = MoveState(start: Coord, end: Coord, dir: Dir)

  /** The cell j steps from p along d. */
  function Along(p: Coord, d: Dir, j: nat): Coord
    requires Ahead(p, d, j).Some?
  {
    Ahead(p, d, j).value
  }

  /** The cells 0..k steps from p along d all lie inside the grid. */
  ghost predicate Span(g: Grid<State>, p: Coord, d: Dir, k: nat) {
    forall j :: 0 <= j <= k ==> Ahead(p, d, j).Some? && g.InBounds(Ahead(p, d, j).value)
  }

  /** q lies on the ray from p along d. */
  predicate OnRay(p: Coord, d: Dir, q: Coord) {
    match d
    case Up => q.col == p.col && q.row <= p.row
    case Down => q.col == p.col && p.row <= q.row
    case Left => q.row == p.row && q.col <= p.col
    case Right => q.row == p.row && p.col <= q.col
  }

  /** How many steps along d from p the cell q lies. */
  function Offset(p: Coord, d: Dir, q: Coord): (j: nat)
    requires OnRay(p, d, q)
    ensures Ahead(p, d, j) == Some(q)
  {
    match d
    case Up => p.row - q.row
    case Down => q.row - p.row
    case Left => p.col - q.col
    case Right => q.col - p.col
  }

  /** q is one of the cells 0..k steps from p along d. */
  predicate OnLine(p: Coord, d: Dir, k: nat, q: Coord) {
    OnRay(p, d, q) && Offset(p, d, q) <= k
  }

  /** The cells along a line are exactly the cells OnLine, and distinct steps give distinct cells. */
  lemma {:induction false} AlongOnLine(p: Coord, d: Dir, k: nat, j: nat)
    requires j <= k && Ahead(p, d, j).Some?
    ensures OnLine(p, d, k, Along(p, d, j)) && Offset(p, d, Along(p, d, j)) == j
  {
  }

  /** One step back along d from the cell j steps out is the cell j - 1 steps out. */
  lemma {:induction false} AlongBack(g: Grid<State>, p: Coord, d: Dir, k: nat, j: nat)
    requires Span(g, p, d, k) && 1 <= j <= k
    ensures g.NextPos(Along(p, d, j), TurnRight(TurnRight(d))) == Some(Along(p, d, j - 1))
  {
    assert Ahead(p, d, j).Some? && g.InBounds(Ahead(p, d, j).value);
    assert Ahead(p, d, j - 1).Some? && g.InBounds(Ahead(p, d, j - 1).value);
  }

  /** Both robot-free ends of a push: check_movable's success condition. */
  ghost predicate Pushable(g: Grid<State>, p: Coord, d: Dir, k: nat) {
    g.Valid() && k >= 1 && Span(g, p, d, k) &&
    (forall j :: 1 <= j < k ==> g.At(Along(p, d, j)) == Box) &&
    g.At(Along(p, d, k)) == Empty
  }

  /** A push, when there is one, has one length. */
  lemma {:induction false} PushableUnique(g: Grid<State>, p: Coord, d: Dir, k: nat, k': nat)
    requires Pushable(g, p, d, k) && Pushable(g, p, d, k')
    ensures k == k'
  {
  }

  /** The robot stands at p and nowhere else. */
  ghost predicate RobotOnlyAt(g: Grid<State>, p: Coord) {
    g.Valid() && g.InBounds(p) && g.At(p) == Robot &&
    forall q :: g.InBounds(q) && g.At(q) == Robot ==> q == p
  }

  /** How far p may still move along d inside the grid. */
  function Room(g: Grid<State>, p: Coord, d: Dir): nat
    requires g.InBounds(p)
  {
    match d
    case Up => p.row
    case Down => g.height - p.row
    case Left => p.col
    case Right => g.width - p.col
  }

  /** A run of j boxes that ends at the edge, or before a cell neither empty nor a box, cannot be pushed. */
  lemma {:induction false} Unpushable(g: Grid<State>, p: Coord, d: Dir, j: nat)
    requires g.Valid() && Span(g, p, d, j)
    requires forall i :: 1 <= i <= j ==> g.At(Along(p, d, i)) == Box
    requires Ahead(p, d, j + 1).None? || !g.InBounds(Ahead(p, d, j + 1).value) ||
             (g.At(Along(p, d, j + 1)) != Box && g.At(Along(p, d, j + 1)) != Empty)
    ensures forall k :: !Pushable(g, p, d, k)
  {
  }

  /** A found push, as check_movable reports it. */
  ghost predicate Reported(g: Grid<State>, start: Coord, dir: Dir, r: Option<MoveState>) {
    (r.Some? ==>
      r.value.start == start && r.value.dir == dir &&
      exists k :: Pushable(g, start, dir, k) && r.value.end == Along(start, dir, k)) &&
    (r.None? ==> forall k :: !Pushable(g, start, dir, k))
  }

  /**
   * What the probe finds one step further: the edge or a wall rules out
   * every push, an empty cell completes one, and the robot is not there.
   */
  lemma {:induction false} ProbeNext(g: Grid<State>, start: Coord, dir: Dir, j: nat, probe: Coord)
    requires RobotOnlyAt(g, start) && 1 <= j && Span(g, start, dir, j) && probe == Along(start, dir, j)
    requires forall i :: 1 <= i <= j ==> g.At(Along(start, dir, i)) == Box
    ensures g.NextPos(probe, dir).None? ==> forall k :: !Pushable(g, start, dir, k)
    ensures g.NextPos(probe, dir).Some? ==>
      var next := g.NextPos(probe, dir).value;
      Span(g, start, dir, j + 1) && next == Along(start, dir, j + 1) && g.InBounds(next) &&
      g.At(next) != Robot &&
      (g.At(next) == Empty ==> Pushable(g, start, dir, j + 1)) &&
      (g.At(next) == Wall ==> forall k :: !Pushable(g, start, dir, k)) &&
      Room(g, next, dir) < Room(g, probe, dir)
  {
    var next := g.NextPos(probe, dir);
    assert g.InBounds(probe);
    if next.None? {
      Unpushable(g, start, dir, j);
    } else {
      assert Span(g, start, dir, j + 1);
      if g.At(next.value) == Wall {
        Unpushable(g, start, dir, j);
      }
    }
  }

  /**
   * The `loop` of check_movable's Box case: probe walks along the run of
   * boxes that starts one step from start.
   */
  method ScanBoxes(g: Grid<State>, start: Coord, dir: Dir, c: Coord) returns (r: Option<MoveState>)
    requires RobotOnlyAt(g, start) && Span(g, start, dir, 1) && c == Along(start, dir, 1) && g.At(c) == Box
    ensures Reported(g, start, dir, r)
  {
    var probe := c;
    ghost var j: nat := 1;
    while true
      invariant 1 <= j && Span(g, start, dir, j) && probe == Along(start, dir, j)
      invariant forall i :: 1 <= i <= j ==> g.At(Along(start, dir, i)) == Box
      decreases Room(g, probe, dir)
    {
      ProbeNext(g, start, dir, j, probe);
      var next := g.NextPos(probe, dir);
      if next.None? {
        return None;
      }
      match g.At(next.value)
      case Empty =>
        return Some(MoveState(start, next.value, dir));
      case Box =>
        probe := next.value;
        j := j + 1;
      case Wall =>
        return None;
      case Robot =>
        assert false;
    }
  }

  /**
   * check_movable: the cell ahead of start must be empty, or begin a run
   * of boxes that ends in an empty cell; a wall or the grid's edge ends
   * the move. The robot is never met again on the way, so the source's
   * Robot panics cannot fire.
   */
  method CheckMovable(g: Grid<State>, start: Coord, dir: Dir) returns (r: Option<MoveState>)
    requires RobotOnlyAt(g, start)
    ensures Reported(g, start, dir, r)
  {
    var c := g.NextPos(start, dir);
    if c.None? {
      Unpushable(g, start, dir, 0);
      return None;
    }
    assert Span(g, start, dir, 1);
    match g.At(c.value)
    case Wall =>
      Unpushable(g, start, dir, 0);
      return None;
    case Empty =>
      assert Pushable(g, start, dir, 1);
      return Some(MoveState(start, c.value, dir));
    case Robot =>
      assert false;
    case Box =>
      r := ScanBoxes(g, start, dir, c.value);
  }

  /** The cells m+1..k hold their predecessors' old contents, m the end's, and 0..m-1 their own. */
  ghost predicate LineShifted(g: Grid<State>, g': Grid<State>, p: Coord, d: Dir, k: nat, m: nat) {
    g.Valid() && Span(g, p, d, k) && m <= k &&
    g'.width == g.width && g'.height == g.height && |g'.data| == |g.data| &&
    g'.At(Along(p, d, m)) == g.At(Along(p, d, k)) &&
    (forall j :: m < j <= k ==> g'.At(Along(p, d, j)) == g.At(Along(p, d, j - 1))) &&
    (forall j :: 0 <= j < m ==> g'.At(Along(p, d, j)) == g.At(Along(p, d, j)))
  }

  /** Every cell off the line is as it was. */
  ghost predicate OffLineSame(g: Grid<State>, g': Grid<State>, p: Coord, d: Dir, k: nat) {
    g.Valid() && g'.width == g.width && g'.height == g.height && |g'.data| == |g.data| &&
    forall q :: g.InBounds(q) && !OnLine(p, d, k, q) ==> g'.At(q) == g.At(q)
  }

  /**
   * While move_items walks back from the end: the cells m+1..k already
   * hold their predecessors' old contents, the cell m holds the old
   * content of the end, and every other cell is as it was.
   */
  ghost predicate PartlyShifted(g: Grid<State>, g': Grid<State>, p: Coord, d: Dir, k: nat, m: nat) {
    LineShifted(g, g', p, d, k, m) && OffLineSame(g, g', p, d, k)
  }

  /**
   * A move's effect: each of the cells 1..k steps from p takes its
   * predecessor's old content, p takes the old content of the end, and no
   * other cell changes.
   */
  ghost predicate Shifted(g: Grid<State>, g': Grid<State>, p: Coord, d: Dir, k: nat) {
    PartlyShifted(g, g', p, d, k, 0)
  }

  /** After swapping the cells a and b, a holds b's old content, b holds a's, and every other cell is as it was. */
  lemma {:induction false} SwapCellAt(cur: Grid<State>, next: Grid<State>, a: Coord, b: Coord, q: Coord)
    requires cur.Valid() && cur.InBounds(a) && cur.InBounds(b) && cur.InBounds(q) && a != b
    requires next == cur.Set(a, cur.At(b)).Set(b, cur.At(a))
    ensures next.At(q) == if q == a then cur.At(b) else if q == b then cur.At(a) else cur.At(q)
  {
    var mid := cur.Set(a, cur.At(b));
    assert mid.Valid() && mid.InBounds(q) && mid.InBounds(b);
  }

  /** Swapping the cells m and m - 1 steps out of a line shifted up to m: the cell j steps out afterwards. */
  lemma {:induction false} SwapLineCell(g: Grid<State>, cur: Grid<State>, next: Grid<State>, p: Coord, d: Dir, k: nat, m: nat,
                                        j: nat)
    requires LineShifted(g, cur, p, d, k, m) && 1 <= m && j <= k
    requires next == cur.Set(Along(p, d, m), cur.At(Along(p, d, m - 1))).Set(Along(p, d, m - 1), cur.At(Along(p, d, m)))
    ensures j == m - 1 ==> next.At(Along(p, d, j)) == g.At(Along(p, d, k))
    ensures m - 1 < j ==> next.At(Along(p, d, j)) == g.At(Along(p, d, j - 1))
    ensures j < m - 1 ==> next.At(Along(p, d, j)) == g.At(Along(p, d, j))
  {
    var a, b := Along(p, d, m), Along(p, d, m - 1);
    AlongOnLine(p, d, k, m);
    AlongOnLine(p, d, k, m - 1);
    AlongOnLine(p, d, k, j);
    SwapCellAt(cur, next, a, b, Along(p, d, j));
  }

  /** Swapping the cells m and m - 1 steps out shifts the line by one more cell. */
  lemma {:induction false} SwapStepLine(g: Grid<State>, cur: Grid<State>, next: Grid<State>, p: Coord, d: Dir, k: nat, m: nat)
    requires LineShifted(g, cur, p, d, k, m) && 1 <= m
    requires next == cur.Set(Along(p, d, m), cur.At(Along(p, d, m - 1))).Set(Along(p, d, m - 1), cur.At(Along(p, d, m)))
    ensures LineShifted(g, next, p, d, k, m - 1)
  {
    forall j | 0 <= j <= k
      ensures j == m - 1 ==> next.At(Along(p, d, j)) == g.At(Along(p, d, k))
      ensures m - 1 < j ==> next.At(Along(p, d, j)) == g.At(Along(p, d, j - 1))
      ensures j < m - 1 ==> next.At(Along(p, d, j)) == g.At(Along(p, d, j))
    {
      SwapLineCell(g, cur, next, p, d, k, m, j);
    }
  }

  /** Swapping two cells of the line changes no cell off it. */
  lemma {:induction false} SwapStepOff(g: Grid<State>, cur: Grid<State>, next: Grid<State>, p: Coord, d: Dir, k: nat, m: nat)
    requires OffLineSame(g, cur, p, d, k) && Span(g, p, d, k) && 1 <= m <= k
    requires next == cur.Set(Along(p, d, m), cur.At(Along(p, d, m - 1))).Set(Along(p, d, m - 1), cur.At(Along(p, d, m)))
    ensures OffLineSame(g, next, p, d, k)
  {
    var a, b := Along(p, d, m), Along(p, d, m - 1);
    AlongOnLine(p, d, k, m);
    AlongOnLine(p, d, k, m - 1);
    assert cur.Valid() && cur.InBounds(a) && cur.InBounds(b);
    var mid := cur.Set(a, cur.At(b));
    assert mid.Valid();
  }

  lemma {:induction false} SwapStep(g: Grid<State>, cur: Grid<State>, next: Grid<State>, p: Coord, d: Dir, k: nat, m: nat)
    requires PartlyShifted(g, cur, p, d, k, m) && 1 <= m
    requires next == cur.Set(Along(p, d, m), cur.At(Along(p, d, m - 1))).Set(Along(p, d, m - 1), cur.At(Along(p, d, m)))
    ensures PartlyShifted(g, next, p, d, k, m - 1)
  {
    SwapStepLine(g, cur, next, p, d, k, m);
    SwapStepOff(g, cur, next, p, d, k, m);
  }

  /**
   * The state of move_items' loop: to is m steps out, from one step
   * behind it, both inside the grid, and the cells beyond to already
   * shifted.
   */
  ghost predicate MoveLoop(g: Grid<State>, cur: Grid<State>, ms: MoveState, k: nat, m: nat, to: Coord, from: Coord) {
    Pushable(g, ms.start, ms.dir, k) && 1 <= m <= k &&
    Ahead(ms.start, ms.dir, m) == Some(to) && Ahead(ms.start, ms.dir, m - 1) == Some(from) &&
    PartlyShifted(g, cur, ms.start, ms.dir, k, m) &&
    cur.PosToIdx(to) < |cur.data| && cur.PosToIdx(from) < |cur.data|
  }

  /** Where move_items starts: to at the end, from one step behind it. */
  lemma {:induction false} MoveLoopStart(g: Grid<State>, ms: MoveState, k: nat)
    requires Pushable(g, ms.start, ms.dir, k) && ms.end == Along(ms.start, ms.dir, k)
    ensures g.NextPos(ms.end, TurnRight(TurnRight(ms.dir))).Some?
    ensures MoveLoop(g, g, ms, k, k, ms.end, g.NextPos(ms.end, TurnRight(TurnRight(ms.dir))).value)
  {
    AlongBack(g, ms.start, ms.dir, k, k);
    assert g.InBounds(Along(ms.start, ms.dir, k - 1));
  }

  /**
   * One round of move_items: after swapping to and from, the cells from
   * m - 1 on are shifted; the loop stops exactly when from is the start,
   * and otherwise the next from is one step further back.
   */
  lemma {:induction false} AfterSwap(g: Grid<State>, cur: Grid<State>, next: Grid<State>, ms: MoveState, k: nat, m: nat,
                  to: Coord, from: Coord)
    requires MoveLoop(g, cur, ms, k, m, to, from)
    requires next == cur.Set(to, cur.At(from)).Set(from, cur.At(to))
    ensures PartlyShifted(g, next, ms.start, ms.dir, k, m - 1)
    ensures from == ms.start <==> m == 1
    ensures m > 1 ==>
      next.NextPos(from, TurnRight(TurnRight(ms.dir))).Some? &&
      MoveLoop(g, next, ms, k, m - 1, from, next.NextPos(from, TurnRight(TurnRight(ms.dir))).value)
  {
    SwapStep(g, cur, next, ms.start, ms.dir, k, m);
    AlongOnLine(ms.start, ms.dir, k, m - 1);
    AlongOnLine(ms.start, ms.dir, k, 0);
    if m > 1 {
      AlongBack(g, ms.start, ms.dir, k, m - 1);
      assert g.InBounds(Along(ms.start, ms.dir, m - 2));
    }
  }

  /**
   * move_items: from the empty end, swap each cell with the one behind it
   * (the direction turned right twice) until the robot's cell has been
   * swapped; the robot's new cell, one step along the direction, is the
   * result.
   */
  method MoveItems(grid: BasicGrid<State>, ms: MoveState, ghost k: nat) returns (r: Coord)
    requires Pushable(grid.Value(), ms.start, ms.dir, k) && ms.end == Along(ms.start, ms.dir, k)
    modifies grid.data
    ensures Shifted(old(grid.Value()), grid.Value(), ms.start, ms.dir, k)
    ensures r == Along(ms.start, ms.dir, 1)
    ensures multiset(grid.data[..]) == old(multiset(grid.data[..]))
  {
    ghost var g := grid.Value();
    var to := ms.end;
    var backDir := TurnRight(TurnRight(ms.dir));
    MoveLoopStart(g, ms, k);
    var from := grid.Value().NextPos(to, backDir).value;
    ghost var m := k;
    while true
      invariant MoveLoop(g, grid.Value(), ms, k, m, to, from)
      invariant multiset(grid.data[..]) == multiset(g.data)
      decreases m
    {
      ghost var before := grid.Value();
      grid.Swap(to, from);
      AfterSwap(g, before, grid.Value(), ms, k, m, to, from);
      if from == ms.start {
        break;
      }
      to := from;
      from := grid.Value().NextPos(from, backDir).value;
      m := m - 1;
    }
    return to;
  }

  /** What apply_dir does to the warehouse: shift a pushable line, or leave everything alone. */
  ghost predicate Moved(g: Grid<State>, g': Grid<State>, p: Coord, d: Dir, r: Coord) {
    ((forall k :: !Pushable(g, p, d, k)) && g' == g && r == p) ||
    (exists k :: Pushable(g, p, d, k) && Shifted(g, g', p, d, k) && r == Along(p, d, 1))
  }

  /** What the cell q holds once the line 0..k from p along d is shifted. */
  ghost function ShiftedCell(g: Grid<State>, p: Coord, d: Dir, k: nat, q: Coord): State
    requires g.Valid() && Span(g, p, d, k) && g.InBounds(q)
  {
    if OnLine(p, d, k, q) then
      var j := Offset(p, d, q);
      if j == 0 then g.At(Along(p, d, k)) else g.At(Along(p, d, j - 1))
    else g.At(q)
  }

  /** The warehouse once the line 0..k from p along d is shifted one cell along d. */
  ghost function ShiftLine(g: Grid<State>, p: Coord, d: Dir, k: nat): Grid<State>
    requires Pushable(g, p, d, k)
  {
    assert g.InBounds(Along(p, d, 0));
    Grid(seq(|g.data|, i requires 0 <= i < |g.data| => ShiftedCell(g, p, d, k, g.IdxToPos(i))), g.width, g.height)
  }

  /** A shift is determined: the warehouse after it is ShiftLine's. */
  lemma {:induction false} ShiftedIsShiftLine(g: Grid<State>, g': Grid<State>, p: Coord, d: Dir, k: nat)
    requires Pushable(g, p, d, k) && Shifted(g, g', p, d, k)
    ensures g' == ShiftLine(g, p, d, k)
  {
    var s := ShiftLine(g, p, d, k);
    assert g.InBounds(Along(p, d, 0));
    forall i | 0 <= i < |g.data| ensures g'.data[i] == s.data[i] {
      var q := g.IdxToPos(i);
      assert g.PosToIdx(q) == i;
      if OnLine(p, d, k, q) {
        var j := Offset(p, d, q);
        AlongOnLine(p, d, k, j);
        assert Along(p, d, j) == q;
      }
    }
  }

  /**
   * apply_dir's effect on the warehouse and the robot: the line is
   * shifted and the robot steps ahead when a push exists, otherwise
   * nothing changes.
   */
  ghost function Move(g: Grid<State>, p: Coord, d: Dir): (Grid<State>, Coord) {
    if exists k :: Pushable(g, p, d, k) then
      var k :| Pushable(g, p, d, k);
      (ShiftLine(g, p, d, k), Along(p, d, 1))
    else (g, p)
  }

  /** Moved describes one outcome only, Move's. */
  lemma {:induction false} MovedIsMove(g: Grid<State>, g': Grid<State>, p: Coord, d: Dir, r: Coord)
    requires Moved(g, g', p, d, r)
    ensures (g', r) == Move(g, p, d)
  {
    if exists k :: Pushable(g, p, d, k) {
      var k :| Pushable(g, p, d, k) && Shifted(g, g', p, d, k) && r == Along(p, d, 1);
      ShiftedIsShiftLine(g, g', p, d, k);
      MoveIs(g, p, d, k);
    }
  }

  /** Where a push of length k exists, Move shifts that line. */
  lemma {:induction false} MoveIs(g: Grid<State>, p: Coord, d: Dir, k: nat)
    requires Pushable(g, p, d, k)
    ensures Move(g, p, d) == (ShiftLine(g, p, d, k), Along(p, d, 1))
  {
    forall k' | Pushable(g, p, d, k') ensures k' == k {
      PushableUnique(g, p, d, k, k');
    }
  }

  /** apply_dir: move when check_movable allows it; the robot's new position. */
  method ApplyDir(grid: BasicGrid<State>, robot: Coord, dir: Dir) returns (r: Coord)
    requires RobotOnlyAt(grid.Value(), robot)
    modifies grid.data
    ensures Moved(old(grid.Value()), grid.Value(), robot, dir, r)
    ensures (grid.Value(), r) == Move(old(grid.Value()), robot, dir)
    ensures multiset(grid.data[..]) == old(multiset(grid.data[..]))
  {
    r := robot;
    var ms := CheckMovable(grid.Value(), robot, dir);
    if ms.Some? {
      ghost var k :| Pushable(grid.Value(), robot, dir, k) && ms.value.end == Along(robot, dir, k);
      r := MoveItems(grid, ms.value, k);
    }
    MovedIsMove(old(grid.Value()), grid.Value(), robot, dir, r);
  }

  /** The warehouse and the robot after the moves, one apply_dir each, in order. */
  ghost function Moves(g: Grid<State>, p: Coord, moves: seq<Dir>): (Grid<State>, Coord)
    decreases |moves|
  {
    if |moves| == 0 then (g, p)
    else
      var (g1, p1) := Moves(g, p, moves[..|moves| - 1]);
      Move(g1, p1, moves[|moves| - 1])
  }

  /** One move keeps the one robot and the walls. */
  lemma {:induction false} MoveKeeps(g: Grid<State>, p: Coord, d: Dir)
    requires RobotOnlyAt(g, p)
    ensures RobotOnlyAt(Move(g, p, d).0, Move(g, p, d).1)
    ensures Move(g, p, d).0.width == g.width && Move(g, p, d).0.height == g.height
    ensures forall q :: g.InBounds(q) ==> (Move(g, p, d).0.At(q) == Wall <==> g.At(q) == Wall)
  {
    var (g2, p2) := Move(g, p, d);
    if exists k :: Pushable(g, p, d, k) {
      var k :| Pushable(g, p, d, k);
      ShiftLineShifted(g, p, d, k);
      assert Moved(g, g2, p, d, p2);
    }
    MoveKeepsWarehouse(g, g2, p, d, p2);
  }

  /** The moves keep the one robot: it stands alone where the fold leaves it, and the walls stay put. */
  lemma {:induction false} MovesKeepWarehouse(g: Grid<State>, p: Coord, moves: seq<Dir>)
    requires RobotOnlyAt(g, p)
    ensures RobotOnlyAt(Moves(g, p, moves).0, Moves(g, p, moves).1)
    ensures Moves(g, p, moves).0.width == g.width && Moves(g, p, moves).0.height == g.height
    ensures forall q :: g.InBounds(q) ==> (Moves(g, p, moves).0.At(q) == Wall <==> g.At(q) == Wall)
    decreases |moves|
  {
    if |moves| > 0 {
      var front := moves[..|moves| - 1];
      MovesKeepWarehouse(g, p, front);
      var gp := Moves(g, p, front);
      MoveKeeps(gp.0, gp.1, moves[|moves| - 1]);
    }
  }

  /** ShiftLine is a shift of the line. */
  lemma {:induction false} ShiftLineShifted(g: Grid<State>, p: Coord, d: Dir, k: nat)
    requires Pushable(g, p, d, k)
    ensures Shifted(g, ShiftLine(g, p, d, k), p, d, k)
  {
    var s := ShiftLine(g, p, d, k);
    assert g.InBounds(Along(p, d, 0));
    forall q | g.InBounds(q) ensures s.At(q) == ShiftedCell(g, p, d, k, q) {
      g.PosIdxRoundTrip(q);
      IndexBelow(q, g.width, g.height);
    }
    forall j | 0 <= j <= k ensures OnLine(p, d, k, Along(p, d, j)) && Offset(p, d, Along(p, d, j)) == j {
      AlongOnLine(p, d, k, j);
    }
  }

  /**
   * A move keeps the warehouse well formed: walls stay where they are and
   * the robot stands, alone, at the returned cell.
   */
  lemma {:induction false} MoveKeepsWarehouse(g: Grid<State>, g': Grid<State>, p: Coord, d: Dir, r: Coord)
    requires RobotOnlyAt(g, p) && Moved(g, g', p, d, r)
    ensures RobotOnlyAt(g', r)
    ensures forall q :: g.InBounds(q) ==> (g'.At(q) == Wall <==> g.At(q) == Wall)
  {
    if !(forall k :: !Pushable(g, p, d, k)) || g' != g || r != p {
      var k :| Pushable(g, p, d, k) && Shifted(g, g', p, d, k) && r == Along(p, d, 1);
      forall q | g.InBounds(q) && OnLine(p, d, k, q)
        ensures g.At(q) != Wall && g'.At(q) != Wall && (g'.At(q) == Robot <==> q == r)
      {
        OnLineCell(g, g', p, d, k, q);
      }
      assert g'.Valid();
    }
  }

  /** What a cell on a shifted line held before the move and holds after it. */
  lemma {:induction false} OnLineCell(g: Grid<State>, g': Grid<State>, p: Coord, d: Dir, k: nat, q: Coord)
    requires RobotOnlyAt(g, p) && Pushable(g, p, d, k) && Shifted(g, g', p, d, k)
    requires g.InBounds(q) && OnLine(p, d, k, q)
    ensures g.At(q) != Wall && g'.At(q) != Wall && (g'.At(q) == Robot <==> q == Along(p, d, 1))
  {
    var j := Offset(p, d, q);
    AlongOnLine(p, d, k, j);
    AlongOnLine(p, d, k, 1);
    assert Along(p, d, 0) == p;
    if j >= 2 {
      AlongOnLine(p, d, k, j - 1);
      assert g'.At(q) == g.At(Along(p, d, j - 1));
    }
  }

  /** The GPS coordinate of a cell. */
  function Score(c: Coord): nat {
    100 * c.row + c.col
  }

  function SumScores(cs: seq<Coord>): nat {
    if |cs| == 0 then 0 else SumScores(cs[..|cs| - 1]) + Score(cs[|cs| - 1])
  }

  predicate IsBox(s: State) {
    s == Box
  }

  /** The answer: the sum of the GPS coordinates find_with reports for the box cells. */
  function Gps(g: Grid<State>): nat
    requires g.width > 0
  {
    SumScores(FindWith(g, IsBox))
  }

  /** The GPS sum taken cell by cell from the row-major index. */
  function BoxScore(data: seq<State>, width: nat): nat
    requires width > 0
  {
    if |data| == 0 then 0
    else
      var i := |data| - 1;
      BoxScore(data[..i], width) + (if data[i] == Box then 100 * (i / width) + i % width else 0)
  }

  /** The cells of the given row-major positions, in order. */
  function Coords(g: Grid<State>, m: seq<nat>): (cs: seq<Coord>)
    requires g.width > 0
    ensures |cs| == |m| && forall k :: 0 <= k < |m| ==> cs[k] == g.IdxToPos(m[k])
  {
    if |m| == 0 then [] else Coords(g, m[..|m| - 1]) + [g.IdxToPos(m[|m| - 1])]
  }

  /** The GPS coordinates of the given row-major positions, summed from the index arithmetic. */
  function SumIdx(m: seq<nat>, width: nat): nat
    requires width > 0
  {
    if |m| == 0 then 0 else SumIdx(m[..|m| - 1], width) + 100 * (m[|m| - 1] / width) + m[|m| - 1] % width
  }

  lemma {:induction false} SumScoresCoords(g: Grid<State>, m: seq<nat>)
    requires g.width > 0
    ensures SumScores(Coords(g, m)) == SumIdx(m, g.width)
  {
    if |m| > 0 {
      var cs := Coords(g, m);
      assert cs[..|cs| - 1] == Coords(g, m[..|m| - 1]);
      SumScoresCoords(g, m[..|m| - 1]);
    }
  }

  lemma {:induction false} SumIdxSnoc(m: seq<nat>, x: nat, width: nat)
    requires width > 0
    ensures SumIdx(m + [x], width) == SumIdx(m, width) + 100 * (x / width) + x % width
  {
    assert (m + [x])[..|m|] == m;
  }

  lemma {:induction false} SumIdxMatching(t: seq<State>, width: nat)
    requires width > 0
    ensures SumIdx(Matching(t, IsBox), width) == BoxScore(t, width)
  {
    if |t| > 0 {
      var i := |t| - 1;
      SumIdxMatching(t[..i], width);
      if t[i] == Box {
        SumIdxSnoc(Matching(t[..i], IsBox), i, width);
      }
    }
  }

  /** The GPS sum is, cell by cell, 100 times the row plus the column of every box. */
  lemma {:induction false} GpsIsBoxScore(g: Grid<State>)
    requires g.width > 0
    ensures Gps(g) == BoxScore(g.data, g.width)
  {
    var m := Matching(g.data, IsBox);
    assert FindWith(g, IsBox) == Coords(g, m);
    SumScoresCoords(g, m);
    SumIdxMatching(g.data, g.width);
  }

  predicate IsRobot(s: State) {
    s == Robot
  }

  /** At most one cell holds the robot. */
  ghost predicate OneRobotAtMost(g: Grid<State>) {
    g.Valid() && forall p, q :: g.InBounds(p) && g.InBounds(q) && g.At(p) == Robot && g.At(q) == Robot ==> p == q
  }

  /** find_with reports no robot only when no cell holds one. */
  lemma {:induction false} NoRobot(g: Grid<State>)
    requires g.width > 0 && FindWith(g, IsRobot) == []
    ensures Robot !in g.data
  {
  }

  /** With at most one robot, the last cell find_with reports is the only robot. */
  lemma {:induction false} LastRobotOnly(g: Grid<State>, robots: seq<Coord>)
    requires g.width > 0 && OneRobotAtMost(g) && robots == FindWith(g, IsRobot) && |robots| > 0
    ensures RobotOnlyAt(g, robots[|robots| - 1])
  {
    var r := robots[|robots| - 1];
    assert g.InBounds(r) && IsRobot(g.At(r));
  }

  /** The fold over one more move is that move applied to the fold so far. */
  lemma {:induction false} MovesStep(g: Grid<State>, p: Coord, moves: seq<Dir>, i: nat)
    requires i < |moves|
    ensures Moves(g, p, moves[..i + 1]) == Move(Moves(g, p, moves[..i]).0, Moves(g, p, moves[..i]).1, moves[i])
  {
    assert moves[..i + 1][..i] == moves[..i];
  }

  /**
   * main: find the robot (the last cell find_with reports, None where the
   * source's unwrap panics), apply every move in order, and take the GPS
   * sum of the boxes.
   */
  method Part1(grid: BasicGrid<State>, moves: seq<Dir>) returns (r: Option<nat>)
    requires grid.Value().Valid() && grid.width > 0 && OneRobotAtMost(grid.Value())
    modifies grid.data
    ensures r.None? <==> Robot !in old(grid.data[..])
    ensures r.Some? ==>
      var robots := FindWith(old(grid.Value()), IsRobot);
      |robots| > 0 &&
      grid.Value() == Moves(old(grid.Value()), robots[|robots| - 1], moves).0 &&
      r.value == Gps(grid.Value())
    ensures multiset(grid.data[..]) == old(multiset(grid.data[..]))
  {
    var robots := FindWith(grid.Value(), IsRobot);
    if |robots| == 0 {
      NoRobot(grid.Value());
      return None;
    }
    var robot := robots[|robots| - 1];
    LastRobotOnly(grid.Value(), robots);
    ghost var g0 := grid.Value();
    ghost var p0 := robot;
    for i := 0 to |moves|
      invariant RobotOnlyAt(grid.Value(), robot)
      invariant (grid.Value(), robot) == Moves(g0, p0, moves[..i])
      invariant multiset(grid.data[..]) == multiset(g0.data)
    {
      ghost var before := grid.Value();
      ghost var prev := robot;
      robot := ApplyDir(grid, robot, moves[i]);
      MovesStep(g0, p0, moves, i);
      MoveKeeps(before, prev, moves[i]);
    }
    assert moves[..|moves|] == moves;
    return Some(Gps(grid.Value()));
  }
}
