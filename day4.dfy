/**
 * src/d4.rs: the word search. The letters lie row-major in one buffer;
 * an occurrence of XMAS reads X, M, A, S from an X in one of eight
 * directions, and the answer counts the occurrences from every cell.
 */
module Day4 {
  import opened Wrappers
  import opened Utils

  /** A byte of an input line, kept as it is. */
  function Byte(c: char): char {
    c
  }

  /** Grid::new: the lines one after another, as wide as the first line, as high as there are lines. */
  function New(lines: seq<string>): (g: Grid<char>)
    requires |lines| > 0
    ensures g.width == |lines[0]| && g.height == |lines|
    ensures (forall k :: 0 <= k < |lines| ==> |lines[k]| == |lines[0]|) ==>
      g.Valid() && forall r, c :: 0 <= r < |lines| && 0 <= c < |lines[0]| ==>
        Index(Coord(r, c), g.width) < |g.data| && g.data[Index(Coord(r, c), g.width)] == lines[r][c]
  {
    if forall k :: 0 <= k < |lines| ==> |lines[k]| == |lines[0]| then
      FlattenLayout(lines, Byte, |lines[0]|);
      Grid(Flatten(lines, Byte), |lines[0]|, |lines|)
    else Grid(Flatten(lines, Byte), |lines[0]|, |lines|)
  }

  /** A cell the search may start from: the grid is rectangular and i lies inside it. */
  predicate Inside(g: Grid<char>, i: nat) {
    g.Valid() && g.width > 0 && i < |g.data|
  }

  /** The letter at row r and column c, or None off the grid. */
  function Cell(g: Grid<char>, r: int, c: int): (x: Option<char>)
    requires g.Valid()
    ensures x.Some? <==> 0 <= r < g.height && 0 <= c < g.width
  {
    if 0 <= r < g.height && 0 <= c < g.width then
      IndexBelow(Coord(r, c), g.width, g.height);
      Some(g.data[Index(Coord(r, c), g.width)])
    else None
  }

  /** Cell i lies on a row of the grid. */
  lemma {:induction false} RowInside(g: Grid<char>, i: nat)
    requires Inside(g, i)
    ensures i / g.width < g.height
  {
    if i / g.width >= g.height {
      MulLeq(g.height, i / g.width, g.width);
    }
  }

  /**
   * A cell a rows and b columns away from cell i, when it lies inside the
   * grid, sits a * width + b positions after i in the buffer.
   */
  lemma {:induction false} Offset(g: Grid<char>, i: nat, a: int, b: int)
    requires Inside(g, i)
    requires 0 <= i / g.width + a < g.height && 0 <= i % g.width + b < g.width
    ensures 0 <= i + g.width * a + b < |g.data|
    ensures Cell(g, i / g.width + a, i % g.width + b) == Some(g.data[i + g.width * a + b])
  {
    var w := g.width;
    var p := Coord(i / w + a, i % w + b);
    assert i == (i / w) * w + i % w;
    assert (i / w + a) * w == (i / w) * w + a * w;
    assert Index(p, w) == i + w * a + b;
    IndexBelow(p, w, g.height);
  }

  /** The cell n rows up and b columns across from cell i. */
  lemma {:induction false} Above(g: Grid<char>, i: nat, n: nat, b: int)
    requires Inside(g, i)
    requires n <= i / g.width && 0 <= i % g.width + b < g.width
    ensures 0 <= i - g.width * n + b < |g.data|
    ensures Cell(g, i / g.width - n, i % g.width + b) == Some(g.data[i - g.width * n + b])
  {
    RowInside(g, i);
    assert g.width * -(n as int) == -(g.width * n);
    Offset(g, i, -(n as int), b);
  }

  /** The cell n rows down and b columns across from cell i. */
  lemma {:induction false} Below(g: Grid<char>, i: nat, n: nat, b: int)
    requires Inside(g, i)
    requires i / g.width + n < g.height && 0 <= i % g.width + b < g.width
    ensures 0 <= i + g.width * n + b < |g.data|
    ensures Cell(g, i / g.width + n, i % g.width + b) == Some(g.data[i + g.width * n + b])
  {
    Offset(g, i, n, b);
  }

  /** up: the letter cnt rows above cell i is c. */
  predicate Up(g: Grid<char>, i: nat, cnt: nat, c: char)
    requires Inside(g, i) && cnt >= 1
  {
    var row := i / g.width;
    row > cnt - 1 && (Above(g, i, cnt, 0); g.data[i - g.width * cnt] == c)
  }

  /** down: the letter cnt rows below cell i is c. */
  predicate Down(g: Grid<char>, i: nat, cnt: nat, c: char)
    requires Inside(g, i)
  {
    var row := i / g.width;
    row + cnt < g.height && (Below(g, i, cnt, 0); g.data[i + g.width * cnt] == c)
  }

  /** ur: the letter cnt rows up and cnt columns right of cell i is c. */
  predicate UpRight(g: Grid<char>, i: nat, cnt: nat, c: char)
    requires Inside(g, i) && cnt >= 1
  {
    var (row, col) := (i / g.width, i % g.width);
    row > cnt - 1 && col < g.width as int - cnt && (Above(g, i, cnt, cnt); g.data[i - g.width * cnt + cnt] == c)
  }

  /** ul: the letter cnt rows up and cnt columns left of cell i is c. */
  predicate UpLeft(g: Grid<char>, i: nat, cnt: nat, c: char)
    requires Inside(g, i) && cnt >= 1
  {
    var (row, col) := (i / g.width, i % g.width);
    row > cnt - 1 && col >= cnt && (Above(g, i, cnt, -(cnt as int)); g.data[i - g.width * cnt - cnt] == c)
  }

  /** lr: the letter cnt rows down and cnt columns right of cell i is c. */
  predicate DownRight(g: Grid<char>, i: nat, cnt: nat, c: char)
    requires Inside(g, i)
  {
    var (row, col) := (i / g.width, i % g.width);
    row + cnt < g.height && col < g.width as int - cnt && (Below(g, i, cnt, cnt); g.data[i + g.width * cnt + cnt] == c)
  }

  /** ll: the letter cnt rows down and cnt columns left of cell i is c. */
  predicate DownLeft(g: Grid<char>, i: nat, cnt: nat, c: char)
    requires Inside(g, i)
  {
    var (row, col) := (i / g.width, i % g.width);
    row + cnt < g.height && col >= cnt && (Below(g, i, cnt, -(cnt as int)); g.data[i + g.width * cnt - cnt] == c)
  }

  predicate MatchesRight(g: Grid<char>, i: nat)
    requires Inside(g, i)
  {
    var col := i % g.width;
    col + 3 < g.width && (RowInside(g, i); Below(g, i, 0, 3);
      g.data[i] == 'X' && g.data[i + 1] == 'M' && g.data[i + 2] == 'A' && g.data[i + 3] == 'S')
  }

  predicate MatchesLeft(g: Grid<char>, i: nat)
    requires Inside(g, i)
  {
    var col := i % g.width;
    col > 2 && (RowInside(g, i); Below(g, i, 0, -3);
      g.data[i] == 'X' && g.data[i - 1] == 'M' && g.data[i - 2] == 'A' && g.data[i - 3] == 'S')
  }

  predicate MatchesUp(g: Grid<char>, i: nat)
    requires Inside(g, i)
  {
    g.data[i] == 'X' && Up(g, i, 3, 'S') && Up(g, i, 2, 'A') && Up(g, i, 1, 'M')
  }

  predicate MatchesDown(g: Grid<char>, i: nat)
    requires Inside(g, i)
  {
    g.data[i] == 'X' && Down(g, i, 3, 'S') && Down(g, i, 2, 'A') && Down(g, i, 1, 'M')
  }

  predicate MatchesUpRight(g: Grid<char>, i: nat)
    requires Inside(g, i)
  {
    g.data[i] == 'X' && UpRight(g, i, 3, 'S') && UpRight(g, i, 2, 'A') && UpRight(g, i, 1, 'M')
  }

  predicate MatchesUpLeft(g: Grid<char>, i: nat)
    requires Inside(g, i)
  {
    g.data[i] == 'X' && UpLeft(g, i, 3, 'S') && UpLeft(g, i, 2, 'A') && UpLeft(g, i, 1, 'M')
  }

  predicate MatchesDownRight(g: Grid<char>, i: nat)
    requires Inside(g, i)
  {
    g.data[i] == 'X' && DownRight(g, i, 3, 'S') && DownRight(g, i, 2, 'A') && DownRight(g, i, 1, 'M')
  }

  predicate MatchesDownLeft(g: Grid<char>, i: nat)
    requires Inside(g, i)
  {
    g.data[i] == 'X' && DownLeft(g, i, 3, 'S') && DownLeft(g, i, 2, 'A') && DownLeft(g, i, 1, 'M')
  }

  /**
   * The eight directions as (row step, column step), in the order
   * count_matches_at tries them: right, left, up, down, ur, ul, lr, ll.
   */
  const Directions: seq<(int, int)> := [(0, 1), (0, -1), (-1, 0), (1, 0), (-1, 1), (-1, -1), (1, 1), (1, -1)]

  /** XMAS reads from row r, column c, stepping (dr, dc) from one letter to the next. */
  predicate Xmas(g: Grid<char>, r: int, c: int, dr: int, dc: int)
    requires g.Valid()
  {
    Cell(g, r, c) == Some('X') && Cell(g, r + dr, c + dc) == Some('M') &&
    Cell(g, r + 2 * dr, c + 2 * dc) == Some('A') && Cell(g, r + 3 * dr, c + 3 * dc) == Some('S')
  }

  /** The matcher count_matches_at tries k-th. */
  predicate Matches(g: Grid<char>, i: nat, k: nat)
    requires Inside(g, i) && k < 8
  {
    match k
    case 0 => MatchesRight(g, i)
    case 1 => MatchesLeft(g, i)
    case 2 => MatchesUp(g, i)
    case 3 => MatchesDown(g, i)
    case 4 => MatchesUpRight(g, i)
    case 5 => MatchesUpLeft(g, i)
    case 6 => MatchesDownRight(g, i)
    case _ => MatchesDownLeft(g, i)
  }

  /** Each step predicate, as the letter of the cell it looks at. */
  lemma {:induction false} UpMeans(g: Grid<char>, i: nat, cnt: nat, c: char)
    requires Inside(g, i) && cnt >= 1
    ensures Up(g, i, cnt, c) <==> Cell(g, i / g.width - cnt, i % g.width) == Some(c)
  {
    if cnt <= i / g.width { Above(g, i, cnt, 0); }
  }

  lemma {:induction false} DownMeans(g: Grid<char>, i: nat, cnt: nat, c: char)
    requires Inside(g, i)
    ensures Down(g, i, cnt, c) <==> Cell(g, i / g.width + cnt, i % g.width) == Some(c)
  {
    if i / g.width + cnt < g.height { Below(g, i, cnt, 0); }
  }

  lemma {:induction false} UpRightMeans(g: Grid<char>, i: nat, cnt: nat, c: char)
    requires Inside(g, i) && cnt >= 1
    ensures UpRight(g, i, cnt, c) <==> Cell(g, i / g.width - cnt, i % g.width + cnt) == Some(c)
  {
    if cnt <= i / g.width && i % g.width + cnt < g.width { Above(g, i, cnt, cnt); }
  }

  lemma {:induction false} UpLeftMeans(g: Grid<char>, i: nat, cnt: nat, c: char)
    requires Inside(g, i) && cnt >= 1
    ensures UpLeft(g, i, cnt, c) <==> Cell(g, i / g.width - cnt, i % g.width - cnt) == Some(c)
  {
    if cnt <= i / g.width && cnt <= i % g.width { Above(g, i, cnt, -(cnt as int)); }
  }

  lemma {:induction false} DownRightMeans(g: Grid<char>, i: nat, cnt: nat, c: char)
    requires Inside(g, i)
    ensures DownRight(g, i, cnt, c) <==> Cell(g, i / g.width + cnt, i % g.width + cnt) == Some(c)
  {
    if i / g.width + cnt < g.height && i % g.width + cnt < g.width { Below(g, i, cnt, cnt); }
  }

  lemma {:induction false} DownLeftMeans(g: Grid<char>, i: nat, cnt: nat, c: char)
    requires Inside(g, i)
    ensures DownLeft(g, i, cnt, c) <==> Cell(g, i / g.width + cnt, i % g.width - cnt) == Some(c)
  {
    if i / g.width + cnt < g.height && cnt <= i % g.width { Below(g, i, cnt, -(cnt as int)); }
  }

  /** The matcher to the right, as letters of cells. */
  lemma {:induction false} RightMeans(g: Grid<char>, i: nat)
    requires Inside(g, i)
    ensures MatchesRight(g, i) <==> Xmas(g, i / g.width, i % g.width, 0, 1)
  {
    RowInside(g, i);
    Below(g, i, 0, 0);
    if i % g.width + 3 < g.width {
      Below(g, i, 0, 1);
      Below(g, i, 0, 2);
      Below(g, i, 0, 3);
    }
  }

  /** The matcher to the left, as letters of cells. */
  lemma {:induction false} LeftMeans(g: Grid<char>, i: nat)
    requires Inside(g, i)
    ensures MatchesLeft(g, i) <==> Xmas(g, i / g.width, i % g.width, 0, -1)
  {
    RowInside(g, i);
    Below(g, i, 0, 0);
    if i % g.width > 2 {
      Below(g, i, 0, -1);
      Below(g, i, 0, -2);
      Below(g, i, 0, -3);
    }
  }

  /** Each matcher finds exactly XMAS read from cell i in its direction. */
  lemma {:induction false} MatchesMeans(g: Grid<char>, i: nat, k: nat)
    requires Inside(g, i) && k < 8
    ensures Matches(g, i, k) <==> Xmas(g, i / g.width, i % g.width, Directions[k].0, Directions[k].1)
  {
    RowInside(g, i);
    Below(g, i, 0, 0);
    match k
    case 0 => RightMeans(g, i);
    case 1 => LeftMeans(g, i);
    case 2 => UpMeans(g, i, 1, 'M'); UpMeans(g, i, 2, 'A'); UpMeans(g, i, 3, 'S');
    case 3 => DownMeans(g, i, 1, 'M'); DownMeans(g, i, 2, 'A'); DownMeans(g, i, 3, 'S');
    case 4 => UpRightMeans(g, i, 1, 'M'); UpRightMeans(g, i, 2, 'A'); UpRightMeans(g, i, 3, 'S');
    case 5 => UpLeftMeans(g, i, 1, 'M'); UpLeftMeans(g, i, 2, 'A'); UpLeftMeans(g, i, 3, 'S');
    case 6 => DownRightMeans(g, i, 1, 'M'); DownRightMeans(g, i, 2, 'A'); DownRightMeans(g, i, 3, 'S');
    case _ => DownLeftMeans(g, i, 1, 'M'); DownLeftMeans(g, i, 2, 'A'); DownLeftMeans(g, i, 3, 'S');
  }

  function Indicator(b: bool): nat {
    if b then 1 else 0
  }

  /**
   * count_matches_at: from an X, one for each of the eight matchers that
   * succeeds, tried in turn; nothing from any other letter.
   */
  function CountMatchesAt(g: Grid<char>, i: nat): (n: nat)
    requires Inside(g, i)
    ensures n <= 8
    ensures g.data[i] != 'X' ==> n == 0
  {
    if g.data[i] == 'X' then CountMatchers(g, i, 8) else 0
  }

  /** The matchers among the first k that succeed from cell i. */
  function CountMatchers(g: Grid<char>, i: nat, k: nat): (n: nat)
    requires Inside(g, i) && k <= 8
    ensures n <= k
  {
    if k == 0 then 0 else CountMatchers(g, i, k - 1) + Indicator(Matches(g, i, k - 1))
  }

  /** The directions among the first k in which XMAS reads from row r, column c. */
  function CountDirections(g: Grid<char>, r: int, c: int, k: nat): (n: nat)
    requires g.Valid() && k <= 8
  {
    if k == 0 then 0
    else CountDirections(g, r, c, k - 1) + Indicator(Xmas(g, r, c, Directions[k - 1].0, Directions[k - 1].1))
  }

  lemma {:induction false} CountMatchersMeans(g: Grid<char>, i: nat, k: nat)
    requires Inside(g, i) && k <= 8
    ensures CountMatchers(g, i, k) == CountDirections(g, i / g.width, i % g.width, k)
  {
    if k > 0 {
      CountMatchersMeans(g, i, k - 1);
      MatchesMeans(g, i, k - 1);
    }
  }

  /** No direction reads XMAS from a cell that does not hold an X. */
  lemma {:induction false} CountDirectionsNoX(g: Grid<char>, r: int, c: int, k: nat)
    requires g.Valid() && k <= 8 && Cell(g, r, c) != Some('X')
    ensures CountDirections(g, r, c, k) == 0
  {
    if k > 0 {
      CountDirectionsNoX(g, r, c, k - 1);
    }
  }

  /** count_matches_at counts the directions in which XMAS reads from cell i. */
  lemma {:induction false} CountMatchesAtMeans(g: Grid<char>, i: nat)
    requires Inside(g, i)
    ensures CountMatchesAt(g, i) == CountDirections(g, i / g.width, i % g.width, 8)
  {
    CountMatchersMeans(g, i, 8);
    RowInside(g, i);
    Below(g, i, 0, 0);
    if g.data[i] != 'X' {
      CountDirectionsNoX(g, i / g.width, i % g.width, 8);
    }
  }

  /** The matches from the first n cells. */
  function CountMatchesBelow(g: Grid<char>, n: nat): (m: nat)
    requires g.Valid() && g.width > 0 && n <= |g.data|
    ensures m <= 8 * n
  {
    if n == 0 then 0 else CountMatchesBelow(g, n - 1) + CountMatchesAt(g, n - 1)
  }

  /** count_matches: the matches from every cell. */
  function CountMatches(g: Grid<char>): nat
    requires g.Valid() && g.width > 0
  {
    CountMatchesBelow(g, |g.data|)
  }

  /** The X cells among the first n. */
  function CountX(s: string, n: nat): nat
    requires n <= |s|
  {
    if n == 0 then 0 else CountX(s, n - 1) + Indicator(s[n - 1] == 'X')
  }

  /** Every occurrence starts at an X, and one X starts at most eight. */
  lemma {:induction false} CountMatchesAtX(g: Grid<char>, n: nat)
    requires g.Valid() && g.width > 0 && n <= |g.data|
    ensures CountMatchesBelow(g, n) <= 8 * CountX(g.data, n)
  {
    if n > 0 {
      CountMatchesAtX(g, n - 1);
    }
  }

  /** With a single X in the grid, every match starts from it. */
  lemma {:induction false} OnlyX(g: Grid<char>, x: nat, n: nat)
    requires g.Valid() && g.width > 0 && n <= |g.data| && x < |g.data|
    requires forall j :: 0 <= j < |g.data| && j != x ==> g.data[j] != 'X'
    ensures CountMatchesBelow(g, n) == if x < n then CountMatchesAt(g, x) else 0
  {
    if n > 0 {
      OnlyX(g, x, n - 1);
    }
  }

  /** The first grid of test_basic, XMAS read downwards, holds one match. */
  lemma {:induction false} TestBasicDown(g: Grid<char>)
    requires g.data == "....X....M....A....S" && g.width == 5 && g.height == 4
    ensures CountMatches(g) == 1
  {
    OnlyX(g, 4, 20);
    CountMatchesAtMeans(g, 4);
    assert Cell(g, 0, 4) == Some('X');
    assert Cell(g, 1, 4) == Some('M');
    assert Cell(g, 2, 4) == Some('A');
    assert Cell(g, 3, 4) == Some('S');
    assert CountDirections(g, 0, 4, 1) == 0;
    assert CountDirections(g, 0, 4, 2) == 0;
    assert CountDirections(g, 0, 4, 3) == 0;
    assert CountDirections(g, 0, 4, 4) == 1;
    assert CountDirections(g, 0, 4, 5) == 1;
    assert CountDirections(g, 0, 4, 6) == 1;
    assert CountDirections(g, 0, 4, 7) == 1;
  }

  /** The seventh grid of test_basic, XMAS read to the right, holds one match. */
  lemma {:induction false} TestBasicRight(g: Grid<char>)
    requires g.data == "...........XMAS....." && g.width == 5 && g.height == 4
    ensures CountMatches(g) == 1
  {
    OnlyX(g, 11, 20);
    CountMatchesAtMeans(g, 11);
    RightDirections(g);
  }

  lemma {:induction false} RightDirections(g: Grid<char>)
    requires g.data == "...........XMAS....." && g.width == 5 && g.height == 4
    ensures CountDirections(g, 2, 1, 8) == 1
  {
    assert Cell(g, 2, 1) == Some('X');
    assert Cell(g, 2, 2) == Some('M');
    assert Cell(g, 2, 3) == Some('A');
    assert Cell(g, 2, 4) == Some('S');
    assert CountDirections(g, 2, 1, 1) == 1;
    assert CountDirections(g, 2, 1, 2) == 1;
    assert CountDirections(g, 2, 1, 3) == 1;
    assert CountDirections(g, 2, 1, 4) == 1;
    assert CountDirections(g, 2, 1, 5) == 1;
    assert CountDirections(g, 2, 1, 6) == 1;
    assert CountDirections(g, 2, 1, 7) == 1;
  }
}
