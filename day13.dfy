/**
 * Day 13: the claw machines. Button A moves the claw by (aX, aY) and costs
 * 3 tokens, button B moves it by (bX, bY) and costs 1; the prize is at
 * (tX, tY). play_game solves the two linear equations exactly with
 * rationals, by eliminating with R = aX / aY, and pays out only when both
 * press counts are whole numbers.
 *
 * Ratio<i64> is modelled by Dafny's exact `real`; every panic of the
 * source (a u64 input above i64::MAX, a division by zero, a negative
 * press count, a token count above u64::MAX) is an error value.
 */
module Day13 {
  import opened Wrappers

  const I64Max: int := 0x7FFF_FFFF_FFFF_FFFF
  const U64Max: int := 0xFFFF_FFFF_FFFF_FFFF

  /** The increase of both prize coordinates in part2. */
  const Factor: nat := 10_000_000_000_000

  /** A machine: the moves of buttons A and B and the prize's position. */
  datatype Game = Game(aX: nat, aY: nat, bX: nat, bY: nat, tX: nat, tY: nat)

  /** Why play_game panics. */
  datatype Panic =
    | TooLarge      // an input does not fit an i64
    | DivideByZero  // a_y is 0, or the elimination's denominator is
    | NotInteger    // the panic!() after the closeness test
    | Negative      // a press count does not convert to u64
    | Overflow      // a u64 addition or multiplication overflows

  /** Every input of the game converts to an i64. */
  predicate Fits(g: Game) {
    g.aX <= I64Max && g.aY <= I64Max && g.bX <= I64Max &&
    g.bY <= I64Max && g.tX <= I64Max && g.tY <= I64Max
  }

  /** The rational is a whole number. */
  predicate IsInteger(x: real) {
    x == x.Floor as real
  }

  /** Ratio::round: the nearest whole number, halves away from zero. */
  function Round(x: real): (r: int)
    ensures r as real - 0.5 <= x <= r as real + 0.5
  {
    if x >= 0.0 then (x + 0.5).Floor else -((-x + 0.5).Floor)
  }

  /** close_enough on Ratio is equality, so a value is close to its rounding exactly when it is whole. */
  lemma {:induction false} RoundedIsInteger(x: real)
    ensures (x == Round(x) as real) <==> IsInteger(x)
  {
    if IsInteger(x) {
      var n := x.Floor;
      if x >= 0.0 {
        assert n as real <= x + 0.5 < (n + 1) as real;
        assert (x + 0.5).Floor == n;
      } else {
        assert (-n) as real <= -x + 0.5 < (-n + 1) as real;
        assert (-x + 0.5).Floor == -n;
      }
    }
  }

  /** The determinant of the two equations. */
  function Det(g: Game): int {
    g.aX * g.bY - g.aY * g.bX
  }

  /** Pressing A x times and B y times lands the claw on the prize. */
  predicate Presses(g: Game, x: int, y: int) {
    g.aX * x + g.bX * y == g.tX && g.aY * x + g.bY * y == g.tY
  }

  /** The same two equations over the rationals. */
  predicate RealPresses(g: Game, x: real, y: real) {
    g.aX as real * x + g.bX as real * y == g.tX as real &&
    g.aY as real * x + g.bY as real * y == g.tY as real
  }

  /** The elimination's denominator b_x - R * b_y. */
  function Denominator(g: Game): (d: real)
    requires g.aY != 0
    ensures d * g.aY as real == -(Det(g) as real)
    ensures d == 0.0 <==> Det(g) == 0
  {
    var R := g.aX as real / g.aY as real;
    assert R * g.aY as real == g.aX as real;
    Scaled(g.bX as real - R * g.bY as real, g.aY as real, -(Det(g) as real));
    g.bX as real - R * g.bY as real
  }

  lemma {:induction false} Scaled(d: real, a: real, e: real)
    requires a != 0.0 && d * a == e
    ensures d == 0.0 <==> e == 0.0
  {
  }

  /** The press count of B, as line 74 computes it. */
  function PressesB(g: Game): real
    requires g.aY != 0 && Det(g) != 0
  {
    var R := g.aX as real / g.aY as real;
    (g.tX as real - R * g.tY as real) / Denominator(g)
  }

  /** The press count of A, as line 75 computes it. */
  function PressesA(g: Game): real
    requires g.aY != 0 && Det(g) != 0
  {
    (g.tY as real - PressesB(g) * g.bY as real) / g.aY as real
  }

  /** The elimination solves both equations. */
  lemma {:induction false} Solves(g: Game)
    requires g.aY != 0 && Det(g) != 0
    ensures RealPresses(g, PressesA(g), PressesB(g))
  {
    var R := g.aX as real / g.aY as real;
    var d := Denominator(g);
    var na, nb := PressesA(g), PressesB(g);
    assert R * g.aY as real == g.aX as real;
    assert nb * d == g.tX as real - R * g.tY as real;
    assert na * g.aY as real == g.tY as real - nb * g.bY as real;
    calc {
      g.aX as real * na + g.bX as real * nb;
      R * (na * g.aY as real) + g.bX as real * nb;
      R * (g.tY as real - nb * g.bY as real) + g.bX as real * nb;
      R * g.tY as real + nb * d;
      g.tX as real;
    }
  }

  /** With a non-zero determinant the equations have no other solution. */
  lemma {:induction false} Unique(g: Game, x: real, y: real)
    requires g.aY != 0 && Det(g) != 0 && RealPresses(g, x, y)
    ensures x == PressesA(g) && y == PressesB(g)
  {
    var R := g.aX as real / g.aY as real;
    var d := Denominator(g);
    assert R * g.aY as real == g.aX as real;
    assert x * g.aY as real == g.tY as real - g.bY as real * y;
    calc {
      y * d;
      g.bX as real * y - R * g.bY as real * y;
      g.bX as real * y - R * (g.tY as real - x * g.aY as real);
      g.bX as real * y + g.aX as real * x - R * g.tY as real;
      g.tX as real - R * g.tY as real;
    }
    assert y == PressesB(g);
  }

  /** An integer solution is a rational one. */
  lemma {:induction false} PressesReal(g: Game, x: int, y: int)
    ensures Presses(g, x, y) <==> RealPresses(g, x as real, y as real)
  {
    assert (g.aX * x) as real == g.aX as real * x as real;
    assert (g.bX * y) as real == g.bX as real * y as real;
    assert (g.aY * x) as real == g.aY as real * x as real;
    assert (g.bY * y) as real == g.bY as real * y as real;
  }

  /** play_game: the tokens spent on the prize, None when it cannot be won with whole presses. */
  function PlayGame(g: Game): (r: Result<Option<nat>, Panic>)
    ensures r == Err(TooLarge) <==> !Fits(g)
    ensures r == Err(DivideByZero) <==> Fits(g) && (g.aY == 0 || Det(g) == 0)
  {
    if !Fits(g) then Err(TooLarge)
    else if g.aY == 0 || Denominator(g) == 0.0 then Err(DivideByZero)
    else
      var na, nb := PressesA(g), PressesB(g);
      if na == Round(na) as real && nb == Round(nb) as real then
        if !(IsInteger(na) && IsInteger(nb)) then Err(NotInteger)
        else if na.Floor < 0 || nb.Floor < 0 then Err(Negative)
        else if 3 * na.Floor > U64Max || 3 * na.Floor + nb.Floor > U64Max then Err(Overflow)
        else Ok(Some(3 * na.Floor + nb.Floor))
      else Ok(None)
  }

  /** The panic!() at line 79 is unreachable: a value equal to its rounding is whole. */
  lemma {:induction false} NeverNotInteger(g: Game)
    ensures PlayGame(g) != Err(NotInteger)
  {
    if Fits(g) && g.aY != 0 && Det(g) != 0 {
      RoundedIsInteger(PressesA(g));
      RoundedIsInteger(PressesB(g));
    }
  }

  /** A payout is the cost of whole, non-negative presses that reach the prize. */
  lemma {:induction false} PrizeSolves(g: Game) returns (x: nat, y: nat)
    requires PlayGame(g).Ok? && PlayGame(g).value.Some?
    ensures Presses(g, x, y) && PlayGame(g).value.value == 3 * x + y
  {
    var na, nb := PressesA(g), PressesB(g);
    RoundedIsInteger(na);
    RoundedIsInteger(nb);
    x, y := na.Floor, nb.Floor;
    Solves(g);
    PressesReal(g, x, y);
  }

  /** Conversely, any whole solution is found and paid for by its cost, unless that overflows. */
  lemma {:induction false} PrizeFound(g: Game, x: nat, y: nat)
    requires Fits(g) && g.aY != 0 && Det(g) != 0 && Presses(g, x, y)
    requires 3 * x + y <= U64Max
    ensures PlayGame(g) == Ok(Some(3 * x + y))
  {
    PressesReal(g, x, y);
    Unique(g, x as real, y as real);
    assert (x as real).Floor == x && (y as real).Floor == y;
    RoundedIsInteger(x as real);
    RoundedIsInteger(y as real);
  }

  /** None means the prize is out of reach with any whole number of presses, negative ones included. */
  lemma {:induction false} NoneUnreachable(g: Game, x: int, y: int)
    requires PlayGame(g) == Ok(None)
    ensures !Presses(g, x, y)
  {
    if Presses(g, x, y) {
      PressesReal(g, x, y);
      Unique(g, x as real, y as real);
      RoundedIsInteger(x as real);
      RoundedIsInteger(y as real);
    }
  }

  /** The Negative panic means the only solution needs a negative number of presses. */
  lemma {:induction false} NegativeUnreachable(g: Game, x: nat, y: nat)
    requires PlayGame(g) == Err(Negative)
    ensures !Presses(g, x, y)
  {
    if Presses(g, x, y) {
      PressesReal(g, x, y);
      Unique(g, x as real, y as real);
    }
  }

  /** part2: the prize is 10^13 further along both axes. */
  function Part2(g: Game): (r: Result<Option<nat>, Panic>)
    ensures g.tX + Factor <= U64Max && g.tY + Factor <= U64Max ==>
      r == PlayGame(g.(tX := g.tX + Factor, tY := g.tY + Factor))
    ensures r == Err(Overflow) <== g.tX + Factor > U64Max || g.tY + Factor > U64Max
  {
    if g.tX + Factor > U64Max || g.tY + Factor > U64Max then Err(Overflow)
    else PlayGame(g.(tX := g.tX + Factor, tY := g.tY + Factor))
  }

  /** The tokens a game pays in main: part2's payout, or 0 when there is none. */
  function Payout(r: Result<Option<nat>, Panic>): nat
    requires r.Ok?
  {
    if r.value.Some? then r.value.value else 0
  }

  /** main's sum over the games, in order; the first game that panics stops it. */
  function Total(games: seq<Game>): (r: Result<nat, Panic>)
    ensures r.Ok? <==> forall i :: 0 <= i < |games| ==> Part2(games[i]).Ok?
    ensures r.Err? ==> exists i :: 0 <= i < |games| && Part2(games[i]) == Err(r.error)
  {
    if |games| == 0 then Ok(0)
    else
      var first := Part2(games[0]);
      if first.Err? then Err(first.error)
      else
        var rest := Total(games[1..]);
        assert forall i :: 1 <= i < |games| ==> games[i] == games[1..][i - 1];
        if rest.Err? then Err(rest.error) else Ok(Payout(first) + rest.value)
  }

  /** Total adds one game's payout after another. */
  lemma {:induction false} TotalAppend(a: seq<Game>, b: seq<Game>)
    requires Total(a).Ok? && Total(b).Ok?
    ensures Total(a + b) == Ok(Total(a).value + Total(b).value)
    decreases |a|
  {
    if |a| > 0 {
      assert (a + b)[0] == a[0] && (a + b)[1..] == a[1..] + b;
      TotalAppend(a[1..], b);
    } else {
      assert a + b == b;
    }
  }

  /** The four machines of the example: the first and third can be won, for 280 and 200 tokens. */
  lemma {:induction false} Examples()
    ensures PlayGame(Game(94, 34, 22, 67, 8400, 5400)) == Ok(Some(280))
    ensures PlayGame(Game(17, 86, 84, 37, 7870, 6450)) == Ok(Some(200))
  {
    PrizeFound(Game(94, 34, 22, 67, 8400, 5400), 80, 40);
    PrizeFound(Game(17, 86, 84, 37, 7870, 6450), 38, 86);
  }

  /** The second machine of the example cannot be won. */
  lemma {:induction false} SecondLost()
    ensures PlayGame(Game(26, 66, 67, 21, 12748, 12176)) == Ok(None)
  {
  }

  /** The fourth machine of the example cannot be won. */
  lemma {:induction false} FourthLost()
    ensures PlayGame(Game(69, 23, 27, 71, 18641, 10279)) == Ok(None)
  {
  }
}
