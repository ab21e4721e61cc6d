/**
 * Day 7: calibration equations. Each line is a test value and a list of
 * numbers; the line counts when the operators placed between the numbers,
 * evaluated strictly left to right, can produce the test value. Part 1
 * allows + and *, part 2 also the decimal concatenation ||.
 *
 * The checks are modelled as the backtracking searches they are, and
 * proved equal to a reference definition: there exists a sequence of
 * operators whose left-to-right evaluation reaches the total without any
 * intermediate value exceeding it.
 */
module Day7 {
  import opened Wrappers
  import opened Text

  /** One input line: the test value and the numbers to combine. */
  datatype Item = Item(total: nat, components: seq<nat>)

  const U64Max: nat := 0xFFFF_FFFF_FFFF_FFFF
  const U16Max: nat := 0xFFFF

  // ---------------------------------------------------------------------
  // Reference definition
  // ---------------------------------------------------------------------

  datatype Op = Add | Mul | Cat

  /** Decimal concatenation: the digits of a followed by the digits of x. */
  function Concat(a: nat, x: nat): nat {
    DecimalValueAppend(Digits(a), Digits(x));
    DecimalValue(Digits(a) + Digits(x))
  }

  function Apply(op: Op, a: nat, x: nat): nat {
    match op
    case Add => a + x
    case Mul => a * x
    case Cat => Concat(a, x)
  }

  /** The value after the first k operators, applied left to right from a. */
  function Partial(a: nat, xs: seq<nat>, ops: seq<Op>, k: nat): nat
    requires |ops| == |xs| && k <= |xs|
  {
    if k == 0 then a else Apply(ops[k - 1], Partial(a, xs, ops, k - 1), xs[k - 1])
  }

  /** ops take a to total over xs, and no intermediate value exceeds total. */
  predicate Reaches(total: nat, a: nat, xs: seq<nat>, ops: seq<Op>)
    requires |ops| == |xs|
  {
    (forall k :: 0 <= k <= |xs| ==> Partial(a, xs, ops, k) <= total) &&
    Partial(a, xs, ops, |xs|) == total
  }

  predicate Uses(ops: seq<Op>, allowed: set<Op>) {
    forall i :: 0 <= i < |ops| ==> ops[i] in allowed
  }

  /** Some operators drawn from allowed take a to total over xs. */
  ghost predicate Solvable(total: nat, a: nat, xs: seq<nat>, allowed: set<Op>) {
    exists ops :: |ops| == |xs| && Uses(ops, allowed) && Reaches(total, a, xs, ops)
  }

  /** Evaluating the first operator, then the rest from the value it gives. */
  lemma {:induction false} PartialShift(a: nat, xs: seq<nat>, ops: seq<Op>, k: nat)
    requires |ops| == |xs| && k < |xs|
    ensures Partial(a, xs, ops, k + 1) == Partial(Apply(ops[0], a, xs[0]), xs[1..], ops[1..], k)
  {
    if k > 0 {
      PartialShift(a, xs, ops, k - 1);
      assert ops[1..][k - 1] == ops[k] && xs[1..][k - 1] == xs[k];
    } else {
      assert Partial(a, xs, ops, 0) == a;
    }
  }

  lemma {:induction false} ReachesShift(total: nat, a: nat, xs: seq<nat>, ops: seq<Op>)
    requires |ops| == |xs| > 0
    ensures Reaches(total, a, xs, ops) <==>
      a <= total && Reaches(total, Apply(ops[0], a, xs[0]), xs[1..], ops[1..])
  {
    var b := Apply(ops[0], a, xs[0]);
    forall k | 0 <= k < |xs|
      ensures Partial(a, xs, ops, k + 1) == Partial(b, xs[1..], ops[1..], k)
    {
      PartialShift(a, xs, ops, k);
    }
    if Reaches(total, a, xs, ops) {
      forall k | 0 <= k <= |xs| - 1 ensures Partial(b, xs[1..], ops[1..], k) <= total {
        assert Partial(a, xs, ops, k + 1) <= total;
      }
      assert Partial(a, xs, ops, 0) <= total;
    }
    if a <= total && Reaches(total, b, xs[1..], ops[1..]) {
      forall k | 0 <= k <= |xs| ensures Partial(a, xs, ops, k) <= total {
        if k > 0 {
          assert Partial(b, xs[1..], ops[1..], k - 1) <= total;
        }
      }
    }
  }

  /** Nothing is reachable once the start exceeds the total. */
  lemma {:induction false} SolvableAbove(total: nat, a: nat, xs: seq<nat>, allowed: set<Op>)
    requires a > total
    ensures !Solvable(total, a, xs, allowed)
  {
    forall ops | |ops| == |xs| ensures !Reaches(total, a, xs, ops) {
      assert Partial(a, xs, ops, 0) == a;
    }
  }

  /** With no numbers left the only value is the start. */
  lemma {:induction false} SolvableEmpty(total: nat, a: nat, allowed: set<Op>)
    ensures Solvable(total, a, [], allowed) <==> a == total
  {
    if a == total {
      assert Reaches(total, a, [], []) && Uses([], allowed);
    }
  }

  /** A solution starts with an allowed operator and solves the rest from its value. */
  lemma {:induction false} SolvableFirst(total: nat, a: nat, xs: seq<nat>, allowed: set<Op>)
    requires |xs| > 0 && Solvable(total, a, xs, allowed)
    ensures exists op :: op in allowed && Solvable(total, Apply(op, a, xs[0]), xs[1..], allowed)
  {
    var ops :| |ops| == |xs| && Uses(ops, allowed) && Reaches(total, a, xs, ops);
    ReachesShift(total, a, xs, ops);
    assert Uses(ops[1..], allowed);
  }

  /** An allowed operator followed by a solution of the rest is a solution. */
  lemma {:induction false} SolvableExtend(total: nat, a: nat, xs: seq<nat>, allowed: set<Op>, op: Op)
    requires |xs| > 0 && a <= total && op in allowed
    requires Solvable(total, Apply(op, a, xs[0]), xs[1..], allowed)
    ensures Solvable(total, a, xs, allowed)
  {
    var rest :| |rest| == |xs| - 1 && Uses(rest, allowed) && Reaches(total, Apply(op, a, xs[0]), xs[1..], rest);
    var ops := [op] + rest;
    assert ops[1..] == rest;
    ReachesShift(total, a, xs, ops);
  }

  /** One step of the search: the first operator is one of the allowed three. */
  lemma {:induction false} SolvableStep(total: nat, a: nat, xs: seq<nat>, allowed: set<Op>)
    requires |xs| > 0 && a <= total
    ensures Solvable(total, a, xs, allowed) <==>
      (Add in allowed && Solvable(total, a + xs[0], xs[1..], allowed)) ||
      (Mul in allowed && Solvable(total, a * xs[0], xs[1..], allowed)) ||
      (Cat in allowed && Solvable(total, Concat(a, xs[0]), xs[1..], allowed))
  {
    var x, rest := xs[0], xs[1..];
    assert Apply(Add, a, x) == a + x && Apply(Mul, a, x) == a * x && Apply(Cat, a, x) == Concat(a, x);
    if Solvable(total, a, xs, allowed) {
      SolvableFirst(total, a, xs, allowed);
      var op :| op in allowed && Solvable(total, Apply(op, a, x), rest, allowed);
      match op
      case Add => assert Solvable(total, a + x, rest, allowed);
      case Mul => assert Solvable(total, a * x, rest, allowed);
      case Cat => assert Solvable(total, Concat(a, x), rest, allowed);
    }
    if Add in allowed && Solvable(total, a + x, rest, allowed) {
      SolvableExtend(total, a, xs, allowed, Add);
    }
    if Mul in allowed && Solvable(total, a * x, rest, allowed) {
      SolvableExtend(total, a, xs, allowed, Mul);
    }
    if Cat in allowed && Solvable(total, Concat(a, x), rest, allowed) {
      SolvableExtend(total, a, xs, allowed, Cat);
    }
  }

  /** Allowing more operators keeps every solution. */
  lemma {:induction false} SolvableWiden(total: nat, a: nat, xs: seq<nat>, small: set<Op>, large: set<Op>)
    requires small <= large && Solvable(total, a, xs, small)
    ensures Solvable(total, a, xs, large)
  {
    var ops :| |ops| == |xs| && Uses(ops, small) && Reaches(total, a, xs, ops);
    assert Uses(ops, large);
  }

  // ---------------------------------------------------------------------
  // Part 1
  // ---------------------------------------------------------------------

  /** check_part1: try + then *, giving up once the accumulator passes the total. */
  function CheckPart1(total: nat, acc: nat, items: seq<nat>): bool
    decreases |items|
  {
    if acc > total then false
    else if |items| == 0 then total == acc
    else CheckPart1(total, acc + items[0], items[1..]) || CheckPart1(total, acc * items[0], items[1..])
  }

  /** The search succeeds exactly when some choice of + and * reaches the total. */
  lemma {:induction false} CheckPart1Means(total: nat, acc: nat, items: seq<nat>)
    ensures CheckPart1(total, acc, items) <==> Solvable(total, acc, items, {Add, Mul})
    decreases |items|
  {
    if acc > total {
      SolvableAbove(total, acc, items, {Add, Mul});
    } else if |items| == 0 {
      SolvableEmpty(total, acc, {Add, Mul});
    } else {
      CheckPart1Means(total, acc + items[0], items[1..]);
      CheckPart1Means(total, acc * items[0], items[1..]);
      SolvableStep(total, acc, items, {Add, Mul});
    }
  }

  // ---------------------------------------------------------------------
  // Part 2
  // ---------------------------------------------------------------------

  /** The concatenation check_part2 computes: acc * 10^(ilog10(x) + 1) + x. */
  function ShiftIn(acc: nat, x: nat): nat
    requires x > 0
  {
    acc * Pow10(Ilog10(x) + 1) + x
  }

  /** Shifting x in is decimal concatenation. */
  lemma {:induction false} ShiftInIsConcat(acc: nat, x: nat)
    requires x > 0
    ensures ShiftIn(acc, x) == Concat(acc, x)
  {
    DigitsLength(x);
    DecimalValueAppend(Digits(acc), Digits(x));
  }

  /**
   * check_part2: try +, then *, then concatenation. ilog10 of 0 panics, and
   * None stands for that panic, which ends the whole program.
   */
  function CheckPart2(total: nat, acc: nat, items: seq<nat>): Option<bool>
    decreases |items|
  {
    if acc > total then Some(false)
    else if |items| == 0 then Some(total == acc)
    else
      match CheckPart2(total, acc + items[0], items[1..])
      case None => None
      case Some(true) => Some(true)
      case Some(false) =>
        match CheckPart2(total, acc * items[0], items[1..])
        case None => None
        case Some(true) => Some(true)
        case Some(false) =>
          if items[0] == 0 then None
          else CheckPart2(total, ShiftIn(acc, items[0]), items[1..])
  }

  predicate Positive(xs: seq<nat>) {
    forall i :: 0 <= i < |xs| ==> xs[i] > 0
  }

  /** Whenever the search finishes, it says whether +, * and || can reach the total. */
  lemma {:induction false} CheckPart2Means(total: nat, acc: nat, items: seq<nat>)
    ensures CheckPart2(total, acc, items).Some? ==>
      (CheckPart2(total, acc, items).value <==> Solvable(total, acc, items, {Add, Mul, Cat}))
    decreases |items|
  {
    if acc > total {
      SolvableAbove(total, acc, items, {Add, Mul, Cat});
    } else if |items| == 0 {
      SolvableEmpty(total, acc, {Add, Mul, Cat});
    } else {
      var x := items[0];
      CheckPart2Means(total, acc + x, items[1..]);
      CheckPart2Means(total, acc * x, items[1..]);
      if x > 0 {
        CheckPart2Means(total, ShiftIn(acc, x), items[1..]);
      }
      Part2Step(total, acc, items);
    }
  }

  /** The step of CheckPart2Means: what the three branches find decides the whole search. */
  lemma {:induction false} Part2Step(total: nat, acc: nat, items: seq<nat>)
    requires acc <= total && |items| > 0
    requires Part2Answers(total, acc + items[0], items[1..])
    requires Part2Answers(total, acc * items[0], items[1..])
    requires items[0] > 0 ==> Part2Answers(total, ShiftIn(acc, items[0]), items[1..])
    ensures Part2Answers(total, acc, items)
  {
    var x := items[0];
    SolvableStep(total, acc, items, {Add, Mul, Cat});
    if x > 0 {
      ShiftInIsConcat(acc, x);
    }
  }

  /** When the search finishes, its answer is whether +, * and || can reach the total. */
  ghost predicate Part2Answers(total: nat, acc: nat, items: seq<nat>) {
    CheckPart2(total, acc, items).Some? ==>
      (CheckPart2(total, acc, items).value <==> Solvable(total, acc, items, {Add, Mul, Cat}))
  }

  /** The search only panics on a zero: with positive numbers it always finishes. */
  lemma {:induction false} CheckPart2Finishes(total: nat, acc: nat, items: seq<nat>)
    requires Positive(items)
    ensures CheckPart2(total, acc, items).Some?
    decreases |items|
  {
    if acc <= total && |items| > 0 {
      var x := items[0];
      assert Positive(items[1..]);
      CheckPart2Finishes(total, acc + x, items[1..]);
      CheckPart2Finishes(total, acc * x, items[1..]);
      CheckPart2Finishes(total, ShiftIn(acc, x), items[1..]);
    }
  }

  /**
   * A line that passes part 1 never fails part 2; with positive numbers it
   * passes part 2.
   */
  lemma {:induction false} Part1ImpliesPart2(total: nat, acc: nat, items: seq<nat>)
    requires CheckPart1(total, acc, items)
    ensures CheckPart2(total, acc, items) != Some(false)
    ensures Positive(items) ==> CheckPart2(total, acc, items) == Some(true)
  {
    CheckPart1Means(total, acc, items);
    SolvableWiden(total, acc, items, {Add, Mul}, {Add, Mul, Cat});
    CheckPart2Means(total, acc, items);
    if Positive(items) {
      CheckPart2Finishes(total, acc, items);
    }
  }

  /**
   * The zero case is real: 9: 3 3 0 passes part 1 (3 * 3 + 0), but part 2
   * first explores 3 + 3 and reaches ilog10(0).
   */
  lemma {:induction false} Part2PanicsOnZero()
    ensures CheckPart1(9, 3, [3, 0]) && CheckPart2(9, 3, [3, 0]).None?
  {
    assert CheckPart1(9, 9, [0]);
    assert CheckPart2(9, 6, [0]).None?;
  }

  // ---------------------------------------------------------------------
  // Parsing
  // ---------------------------------------------------------------------

  /**
   * Item::from_str. Some(Err(s)) is the Err it returns when there is no ':';
   * None is the panic of its unwrap when the total or a component does not
   * parse.
   */
  function ParseItem(s: string): (r: Option<Result<Item, string>>)
    ensures r == Some(Err(s)) <==> ':' !in s
  {
    FindChar(s, ':');
    match Find(s, ":")
    case None => Some(Err(s))
    case Some(i) =>
      match ParseUnsigned(s[..i], U64Max)
      case None => None
      case Some(total) =>
        match ParseAll(SplitWhitespace(Unicode, s[i + 1..]), U16Max)
        case None => None
        case Some(components) => Some(Ok(Item(total, components)))
  }

  /**
   * With i the first ':', the line parses when the text before it is a u64
   * and every whitespace-separated word after it a u16, and then those are
   * the item's total and components.
   */
  lemma {:induction false} ParseItemMeans(s: string, i: nat)
    requires i < |s| && s[i] == ':' && ':' !in s[..i]
    ensures var words := SplitWhitespace(Unicode, s[i + 1..]);
      var ok := ParseUnsigned(s[..i], U64Max).Some? && ParseAll(words, U16Max).Some?;
      (ParseItem(s).Some? <==> ok) &&
      (ok ==> ParseItem(s) == Some(Ok(Item(ParseUnsigned(s[..i], U64Max).value, ParseAll(words, U16Max).value))))
  {
    FindChar(s, ':');
  }

  // ---------------------------------------------------------------------
  // The answer
  // ---------------------------------------------------------------------

  /** Trim and parse every line, unwrapping each result; None is a panic. */
  function ParseLines(lines: seq<string>): (r: Option<seq<Item>>)
    ensures r.Some? ==> (
      |r.value| == |lines| &&
      forall k :: 0 <= k < |lines| ==> ParseItem(Trim(lines[k])) == Some(Ok(r.value[k])))
  {
    if |lines| == 0 then Some([])
    else
      var first := ParseItem(Trim(lines[0]));
      var rest := ParseLines(lines[1..]);
      if first.Some? && first.value.Ok? && rest.Some? then
        ghost var parses := (line: string, item: Item) => ParseItem(Trim(line)) == Some(Ok(item));
        ConsRelated(lines, first.value.value, rest.value, parses);
        Some([first.value.value] + rest.value)
      else None
  }

  /** rel holds pointwise of xs and [y] + ys when it holds of the heads and pointwise of the tails. */
  lemma {:induction false} ConsRelated<A, B>(xs: seq<A>, y: B, ys: seq<B>, rel: (A, B) -> bool)
    requires |xs| > 0 && rel(xs[0], y) && |ys| == |xs| - 1
    requires forall k :: 0 <= k < |ys| ==> rel(xs[1..][k], ys[k])
    ensures forall k :: 0 <= k < |xs| ==> rel(xs[k], ([y] + ys)[k])
  {
    forall k | 0 <= k < |xs| ensures rel(xs[k], ([y] + ys)[k]) {
      if k > 0 {
        assert xs[k] == xs[1..][k - 1];
      }
    }
  }

  /**
   * The filtered sum in main: an item contributes its total when the check,
   * started from its first component, accepts the rest. Indexing an empty
   * component list or a check that panics makes the whole sum None.
   */
  function CheckedSum(items: seq<Item>): Option<nat> {
    if |items| == 0 then Some(0)
    else
      var item := items[0];
      if |item.components| == 0 then None
      else
        match CheckPart2(item.total, item.components[0], item.components[1..])
        case None => None
        case Some(ok) =>
          match CheckedSum(items[1..])
          case None => None
          case Some(rest) => Some((if ok then item.total else 0) + rest)
  }

  /** The program's answer for the given lines of input. */
  function Answer(lines: seq<string>): Option<nat> {
    match ParseLines(lines)
    case None => None
    case Some(items) => CheckedSum(items)
  }

  /** Whether a line's numbers can be combined, with +, * and ||, into its total. */
  ghost predicate Calibrated(item: Item) {
    |item.components| > 0 &&
    Solvable(item.total, item.components[0], item.components[1..], {Add, Mul, Cat})
  }

  /** The sum of the totals of the lines that can be calibrated. */
  ghost function CalibratedSum(items: seq<Item>): nat {
    if |items| == 0 then 0
    else (if Calibrated(items[0]) then items[0].total else 0) + CalibratedSum(items[1..])
  }

  /** Whenever the program finishes, its sum is the sum of the calibrated totals. */
  lemma {:induction false} CheckedSumMeans(items: seq<Item>)
    ensures CheckedSum(items).Some? ==> CheckedSum(items).value == CalibratedSum(items)
  {
    if |items| > 0 && |items[0].components| > 0 {
      var item := items[0];
      CheckPart2Means(item.total, item.components[0], item.components[1..]);
      CheckedSumMeans(items[1..]);
    }
  }

  /** Every line having at least one component, all positive, the program finishes. */
  lemma {:induction false} CheckedSumFinishes(items: seq<Item>)
    requires forall k :: 0 <= k < |items| ==> |items[k].components| > 0 && Positive(items[k].components)
    ensures CheckedSum(items).Some?
  {
    if |items| > 0 {
      var item := items[0];
      assert Positive(item.components[1..]);
      CheckPart2Finishes(item.total, item.components[0], item.components[1..]);
      CheckedSumFinishes(items[1..]);
    }
  }

  /** The answer, when there is one, is the sum of the calibrated totals of the parsed lines. */
  lemma {:induction false} AnswerMeans(lines: seq<string>)
    ensures Answer(lines).Some? ==>
      ParseLines(lines).Some? && Answer(lines).value == CalibratedSum(ParseLines(lines).value)
  {
    if ParseLines(lines).Some? {
      CheckedSumMeans(ParseLines(lines).value);
    }
  }

  /** Example lines: 190 = 10 * 19 passes part 1; 156 = 15 || 6 needs part 2. */
  lemma {:induction false} ExampleLines()
    ensures CheckPart1(190, 10, [19])
    ensures !CheckPart1(156, 15, [6]) && CheckPart2(156, 15, [6]) == Some(true)
  {
    assert Ilog10(6) == 0;
    assert ShiftIn(15, 6) == 156;
  }
}
