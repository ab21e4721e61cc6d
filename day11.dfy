/**
 * Day 11: the stones that change every time you blink. One blink applies
 * the first matching rule to every stone, left to right: a 0 becomes 1, a
 * stone with an even number of digits splits into its left and right
 * halves, and any other stone is multiplied by 2024.
 *
 * The stones are a vector updated in place, so they are a class field;
 * the blink is proved against a function that maps every stone to what it
 * becomes and concatenates the results in order.
 */
module Day11 {
  import opened Wrappers
  import opened Text

  /** The stone has an even number of decimal digits. */
  predicate EvenDigits(x: nat) {
    x > 0 && |Digits(x)| % 2 == 0
  }

  /** The stone's digits cut in the middle and each half read as a number. */
  function Halves(x: nat): (r: (nat, nat))
    requires x > 0
  {
    var s := Digits(x);
    (DecimalValue(s[..|s| / 2]), DecimalValue(s[|s| / 2..]))
  }

  /** What one stone becomes in one blink. */
  function Rule(x: nat): (r: seq<nat>)
    ensures |r| == if EvenDigits(x) then 2 else 1
  {
    if x == 0 then [1]
    else if Ilog10(x) % 2 == 1 then
      DigitsLength(x);
      [Halves(x).0, Halves(x).1]
    else
      DigitsLength(x);
      [x * 2024]
  }

  /** ilog10 is odd exactly when the number of digits is even. */
  lemma {:induction false} EvenDigitsIlog10(x: nat)
    requires x > 0
    ensures EvenDigits(x) <==> Ilog10(x) % 2 == 1
  {
    DigitsLength(x);
  }

  /**
   * Splitting loses nothing: with h the half length, the left half times
   * 10^h plus the right half is the stone; the right half has at most h
   * digits and the left half exactly h, its leading digit being the
   * stone's.
   */
  lemma {:induction false} HalvesRecombine(x: nat)
    requires EvenDigits(x)
    ensures var h := |Digits(x)| / 2;
      Halves(x).0 * Pow10(h) + Halves(x).1 == x &&
      Halves(x).1 < Pow10(h) &&
      Pow10(h - 1) <= Halves(x).0 < Pow10(h)
  {
    var s := Digits(x);
    var h := |s| / 2;
    var a, b := s[..h], s[h..];
    assert s == a + b;
    DecimalValueAppend(a, b);
    DecimalValueBelow(a);
    DecimalValueBelow(b);
    LeadingDigitBound(a);
  }

  /** A digit string of length n >= 1 not starting with 0 denotes at least 10^(n-1). */
  lemma {:induction false} LeadingDigitBound(s: string)
    requires |s| >= 1 && AllDigits(s) && s[0] != '0'
    ensures DecimalValue(s) >= Pow10(|s| - 1)
  {
    if |s| > 1 {
      var t := s[..|s| - 1];
      assert t[0] == s[0];
      LeadingDigitBound(t);
    } else {
      assert DigitValue(s[0]) >= 1;
    }
  }

  /** One blink over a row of stones: each stone's result, in order. */
  function Blink(s: seq<nat>): (r: seq<nat>) {
    if |s| == 0 then [] else Blink(s[..|s| - 1]) + Rule(s[|s| - 1])
  }

  /** Each stone is handled on its own: a blink over a + b is a blink over a, then over b. */
  lemma {:induction false} BlinkAppend(a: seq<nat>, b: seq<nat>)
    ensures Blink(a + b) == Blink(a) + Blink(b)
    decreases |b|
  {
    if |b| == 0 {
      assert a + b == a;
    } else {
      var b' := b[..|b| - 1];
      assert (a + b)[..|a + b| - 1] == a + b';
      BlinkAppend(a, b');
    }
  }

  /** The number of stones with an even number of digits. */
  function CountEven(s: seq<nat>): nat {
    if |s| == 0 then 0 else CountEven(s[..|s| - 1]) + (if EvenDigits(s[|s| - 1]) then 1 else 0)
  }

  /** A blink adds one stone for every stone that splits. */
  lemma {:induction false} BlinkLength(s: seq<nat>)
    ensures |Blink(s)| == |s| + CountEven(s)
  {
    if |s| > 0 {
      BlinkLength(s[..|s| - 1]);
    }
  }

  /** n blinks in a row. */
  function Blinks(s: seq<nat>, n: nat): seq<nat>
    decreases n
  {
    if n == 0 then s else Blinks(Blink(s), n - 1)
  }

  lemma {:induction false} BlinksSplit(s: seq<nat>, n: nat)
    requires n > 0
    ensures Blinks(s, n) == Blink(Blinks(s, n - 1))
    decreases n
  {
    if n > 1 {
      BlinksSplit(Blink(s), n - 1);
    }
  }

  const U64_MAX: nat := 0xFFFF_FFFF_FFFF_FFFF

  /**
   * The stones of the input: the words between ASCII whitespace, each a
   * u64; None, the unwrap's panic, if one fails to parse.
   */
  function ParseStones(input: string): (r: Option<seq<nat>>)
    ensures r.Some? <==> forall w :: w in SplitWhitespace(Ascii, input) ==> ParseUnsigned(w, U64_MAX).Some?
    ensures r.Some? ==> (|r.value| == |SplitWhitespace(Ascii, input)| &&
      forall k :: 0 <= k < |r.value| ==> Some(r.value[k]) == ParseUnsigned(SplitWhitespace(Ascii, input)[k], U64_MAX))
  {
    var words := SplitWhitespace(Ascii, input);
    ParseAll(words, U64_MAX)
  }

  /** Spaces and newlines separate stones. */
  lemma {:induction false} ParseStonesSeparators()
    ensures ParseStones("17 0\n") == Some([17, 0])
  {
    var s := "17 0\n";
    SplitStonesExample();
    assert ParseUnsigned("17", U64_MAX) == Some(17) by {
      assert DecimalValue("17") == 17 by {
        assert "17"[..1] == "1" && "1"[..0] == "";
      }
    }
    assert ParseUnsigned("0", U64_MAX) == Some(0) by {
      assert DecimalValue("0") == 0 by {
        assert "0"[..0] == "";
      }
    }
    var r := ParseStones(s);
    assert r.Some? && |r.value| == 2;
    assert r.value[0] == 17 && r.value[1] == 0;
    assert r.value == [17, 0];
  }

  lemma {:induction false} SplitStonesExample()
    ensures SplitWhitespace(Ascii, "17 0\n") == ["17", "0"]
  {
    var s := "17 0\n";
    assert Word(Ascii, s) == "17";
    assert s[2..] == " 0\n" && s[3..] == "0\n";
    assert Word(Ascii, "0\n") == "0" && "0\n"[1..] == "\n";
  }

  /** A vertical tab does not separate stones, so "1\x0B2" is one word that fails to parse. */
  lemma {:induction false} ParseStonesVerticalTab()
    ensures ParseStones("1\U{000B}2") == None
  {
    var t := "1\U{000B}2";
    assert Word(Ascii, t) == t;
    assert SplitWhitespace(Ascii, t) == [t];
  }

  /** The blink of one more stone. */
  lemma {:induction false} BlinkSnoc(s: seq<nat>, k: nat)
    requires k < |s|
    ensures Blink(s[..k + 1]) == Blink(s[..k]) + Rule(s[k])
  {
    assert s[..k + 1][..k] == s[..k];
  }

  lemma {:induction false} RestSplit(s: seq<nat>, k: nat)
    requires k < |s|
    ensures s[k..] == [s[k]] + s[k + 1..]
  {
  }

  /** Overwriting the stone after done. */
  lemma {:induction false} Rewritten(done: seq<nat>, x: nat, rest: seq<nat>, v: nat)
    ensures (done + ([x] + rest))[|done| := v] == done + [v] + rest
  {
  }

  /** Inserting l before the stone after done. */
  lemma {:induction false} Inserted(done: seq<nat>, u: nat, rest: seq<nat>, l: nat)
    ensures var s := done + [u] + rest; s[..|done|] + [l] + s[|done|..] == done + [l, u] + rest
  {
    var s := done + [u] + rest;
    assert s[..|done|] == done && s[|done|..] == [u] + rest;
  }

  class Stones {
    var stones: seq<nat>

    constructor (initial: seq<nat>)
      ensures stones == initial
    {
      stones := initial;
    }

    /**
     * apply_part1_rules: walk the vector, rewriting each stone in place;
     * a split writes the right half over the stone, inserts the left half
     * before it and steps over both.
     */
    method ApplyPart1Rules()
      modifies this
      ensures stones == Blink(old(stones))
      ensures |stones| == |old(stones)| + CountEven(old(stones))
    {
      ghost var orig := stones;
      var i := 0;
      ghost var k := 0;
      while i < |stones|
        invariant k <= |orig| && i == |Blink(orig[..k])|
        invariant stones == Blink(orig[..k]) + orig[k..]
        decreases |orig| - k
      {
        i, k := Step(i, orig, k);
      }
      assert orig[..k] == orig;
      BlinkLength(orig);
    }

    /** One pass of the loop: the stone at i, which is orig[k], is replaced by its rule. */
    method Step(i: nat, ghost orig: seq<nat>, ghost k: nat) returns (i': nat, ghost k': nat)
      requires k < |orig| && i == |Blink(orig[..k])|
      requires stones == Blink(orig[..k]) + orig[k..]
      modifies this
      ensures k' == k + 1 && i' == |Blink(orig[..k'])|
      ensures stones == Blink(orig[..k']) + orig[k'..]
    {
      ghost var done, rest := Blink(orig[..k]), orig[k + 1..];
      BlinkSnoc(orig, k);
      RestSplit(orig, k);
      var stone := stones[i];
      if stone == 0 {
        stones := stones[i := 1];
        Rewritten(done, stone, rest, 1);
        i' := i + 1;
      } else if Ilog10(stone) % 2 == 1 {
        var s := Digits(stone);
        var l, u := DecimalValue(s[..|s| / 2]), DecimalValue(s[|s| / 2..]);
        stones := stones[i := u];
        Rewritten(done, stone, rest, u);
        stones := stones[..i] + [l] + stones[i..];
        Inserted(done, u, rest, l);
        i' := i + 2;
      } else {
        stones := stones[i := stone * 2024];
        Rewritten(done, stone, rest, stone * 2024);
        i' := i + 1;
      }
      k' := k + 1;
    }
    /** main's loop: n blinks, one after the other. */
    method BlinkTimes(n: nat)
      modifies this
      ensures stones == Blinks(old(stones), n)
    {
      ghost var orig := stones;
      var j := 0;
      while j < n
        invariant j <= n && stones == Blinks(orig, j)
      {
        ApplyPart1Rules();
        BlinksSplit(orig, j + 1);
        j := j + 1;
      }
    }
  }

  /** main: parse the stones, blink 75 times and report how many there are. */
  method Answer(input: string) returns (r: Option<nat>)
    ensures r.None? <==> ParseStones(input).None?
    ensures r.Some? ==> r.value == |Blinks(ParseStones(input).value, 75)|
  {
    match ParseStones(input)
    case None => r := None;
    case Some(initial) =>
      var row := new Stones(initial);
      row.BlinkTimes(75);
      r := Some(|row.stones|);
  }

  /** The unit test of ilog10. */
  lemma {:induction false} Ilog10Examples()
    ensures Ilog10(10) == 1 && Ilog10(9) == 0 && Ilog10(1) == 0
    ensures Ilog10(100) == 2 && Ilog10(101) == 2 && Ilog10(1003) == 3
  {
  }

  /** The rules on the stones 0, 1 and 999. */
  lemma {:induction false} ExampleBlink()
    ensures Rule(0) == [1] && Rule(1) == [2024] && Rule(999) == [2021976]
  {
  }

  /** The rules on the stones 10 and 99, which split. */
  lemma {:induction false} ExampleSplit()
    ensures Rule(10) == [1, 0] && Rule(99) == [9, 9]
  {
    assert Digits(10) == "10" && Digits(99) == "99";
  }
}
