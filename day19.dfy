/**
 * Day 19: can a design be laid out with the available towel patterns?
 * try_match walks the word left to right with an explicit stack of the
 * (position, pattern) choices made so far: it tries the patterns in
 * order at the current position, pushes the first that fits and moves
 * past it, and when none fits pops the last choice and backtracks.
 *
 * The labelled loops become one state machine, one pass per pattern
 * tested or choice popped. The search need not end (an empty pattern is
 * pushed forever), so it runs on a fuel budget and answers None when the
 * budget is spent.
 */
module Day19 {
  import opened Wrappers

  /** The matcher's variables: the position i, the next pattern v and the stack of choices. */
  datatype State = State(i: nat, v: nat, stack: seq<(nat, nat)>)

  /** One pass: carry on from a new state, or return. */
  datatype Outcome = Continue(next: State) | Done(answer: bool)

  const Start := State(0, 0, [])

  /** The patterns ts laid end to end. */
  function Flat(ts: seq<string>): (r: string)
    ensures ts == [] ==> r == []
  {
    if |ts| == 0 then [] else Flat(ts[..|ts| - 1]) + ts[|ts| - 1]
  }

  /** Laying out two lists of patterns one after the other. */
  lemma {:induction false} FlatAppend(a: seq<string>, b: seq<string>)
    ensures Flat(a + b) == Flat(a) + Flat(b)
    decreases |b|
  {
    if |b| > 0 {
      var b' := b[..|b| - 1];
      assert (a + b)[..|a + b| - 1] == a + b';
      FlatAppend(a, b');
    } else {
      assert a + b == a;
    }
  }

  /** The patterns that the indices T name. */
  function Words(vocab: seq<string>, T: seq<nat>): (ts: seq<string>)
    requires forall k :: 0 <= k < |T| ==> T[k] < |vocab|
    ensures |ts| == |T| && forall k :: 0 <= k < |T| ==> ts[k] == vocab[T[k]]
  {
    seq(|T|, k requires 0 <= k < |T| => vocab[T[k]])
  }

  /** T picks patterns (by index, repeats allowed) that laid end to end make the word. */
  ghost predicate IsTiling(word: string, vocab: seq<string>, T: seq<nat>) {
    (forall k :: 0 <= k < |T| ==> T[k] < |vocab|) && Flat(Words(vocab, T)) == word
  }

  /** The word is a concatenation of patterns, each used any number of times. */
  ghost predicate Tileable(word: string, vocab: seq<string>) {
    exists T :: IsTiling(word, vocab, T)
  }

  /**
   * One pass of try_match as written. When the popped choice was the last
   * pattern it resumes one character after the popped position instead of
   * backtracking further; the usize subtractions are written out as ints.
   */
  function StepAsWritten(word: string, vocab: seq<string>, s: State): (r: Outcome)
    ensures r == Done(true) <==> s.i >= |word|
    ensures s.i < |word| && s.v >= |vocab| && |s.stack| == 0 ==> r == Done(false)
    ensures r.Continue? && |r.next.stack| > |s.stack| ==>
      s.v < |vocab| && vocab[s.v] <= word[s.i..] &&
      r.next == State(s.i + |vocab[s.v]|, 0, s.stack + [(s.i, s.v)])
  {
    if s.i >= |word| then Done(true)
    else if s.v < |vocab| then
      if vocab[s.v] <= word[s.i..] then Continue(State(s.i + |vocab[s.v]|, 0, s.stack + [(s.i, s.v)]))
      else Continue(s.(v := s.v + 1))
    else if |s.stack| == 0 then Done(false)
    else
      var (si, sv) := s.stack[|s.stack| - 1];
      var rest := s.stack[..|s.stack| - 1];
      if sv < |vocab| - 1 then Continue(State(si, sv + 1, rest))
      else if si < |word| - 1 then Continue(State(si + 1, 0, rest))
      else Done(false)
  }

  /** try_match as written, for at most fuel passes. */
  function RunAsWritten(word: string, vocab: seq<string>, s: State, fuel: nat): Option<bool>
    decreases fuel
  {
    if fuel == 0 then None
    else match StepAsWritten(word, vocab, s)
      case Done(b) => Some(b)
      case Continue(t) => RunAsWritten(word, vocab, t, fuel - 1)
  }

  /** Every saved choice is a position inside the word and a pattern that exists. */
  ghost predicate WellFormed(word: string, vocab: seq<string>, s: State) {
    s.i <= |word| && forall k :: 0 <= k < |s.stack| ==> s.stack[k].0 < |word| && s.stack[k].1 < |vocab|
  }

  /** The matcher starts well formed and stays so, as written as well as corrected. */
  lemma {:induction false} WellFormedSteps(word: string, vocab: seq<string>, s: State)
    requires WellFormed(word, vocab, s)
    ensures WellFormed(word, vocab, Start)
    ensures StepAsWritten(word, vocab, s).Continue? ==> WellFormed(word, vocab, StepAsWritten(word, vocab, s).next)
    ensures Step(word, vocab, s).Continue? ==> WellFormed(word, vocab, Step(word, vocab, s).next)
  {
    if s.i < |word| && s.v < |vocab| && vocab[s.v] <= word[s.i..] {
      var t := s.stack + [(s.i, s.v)];
      assert forall k :: 0 <= k < |t| ==> t[k] == if k < |s.stack| then s.stack[k] else (s.i, s.v);
    }
  }

  /** vocab.len() - 1 and word.len() - 1 never underflow: a choice is saved only when both are non-empty. */
  lemma {:induction false} BacktrackNoUnderflow(word: string, vocab: seq<string>, s: State)
    requires WellFormed(word, vocab, s) && |s.stack| > 0
    ensures |vocab| >= 1 && |word| >= 1
  {
    assert s.stack[0].0 < |word| && s.stack[0].1 < |vocab|;
  }

  /** The word "aaa" and the single pattern "aa": as written, the matcher skips the first 'a' and says yes. */
  lemma {:induction false} AsWrittenAcceptsAaa()
    ensures RunAsWritten("aaa", ["aa"], Start, 5) == Some(true)
  {
    var w, vocab := "aaa", ["aa"];
    assert vocab[0] <= w[0..];
    var s1 := State(2, 0, [(0, 0)]);
    assert StepAsWritten(w, vocab, Start) == Continue(s1);
    assert !(vocab[0] <= w[2..]);
    var s2 := State(2, 1, [(0, 0)]);
    assert StepAsWritten(w, vocab, s1) == Continue(s2);
    var s3 := State(1, 0, []);
    assert StepAsWritten(w, vocab, s2) == Continue(s3);
    assert vocab[0] <= w[1..];
    var s4 := State(3, 0, [(1, 0)]);
    assert StepAsWritten(w, vocab, s3) == Continue(s4);
  }

  /** Patterns all equal to "aa" lay out a word of even length. */
  lemma {:induction false} FlatEven(ts: seq<string>)
    requires forall k :: 0 <= k < |ts| ==> ts[k] in ["aa"]
    ensures |Flat(ts)| == 2 * |ts|
  {
    if |ts| > 0 {
      FlatEven(ts[..|ts| - 1]);
    }
  }

  /** "aaa" cannot be laid out with "aa". */
  lemma {:induction false} AaaNotTileable()
    ensures !Tileable("aaa", ["aa"])
  {
    forall T | forall k :: 0 <= k < |T| ==> T[k] < 1
      ensures Flat(Words(["aa"], T)) != "aaa"
    {
      FlatEven(Words(["aa"], T));
    }
  }

  /**
   * One pass of the matcher with backtracking as evidently intended: a
   * popped choice is always retried with the next pattern at its own
   * position, so a choice whose patterns are used up is popped in turn.
   */
  function Step(word: string, vocab: seq<string>, s: State): (r: Outcome)
    ensures r == Done(true) <==> s.i >= |word|
    ensures r == Done(false) <==> s.i < |word| && s.v >= |vocab| && |s.stack| == 0
    ensures r.Continue? && |r.next.stack| > |s.stack| ==>
      s.v < |vocab| && vocab[s.v] <= word[s.i..] &&
      r.next == State(s.i + |vocab[s.v]|, 0, s.stack + [(s.i, s.v)])
  {
    if s.i >= |word| then Done(true)
    else if s.v < |vocab| then
      if vocab[s.v] <= word[s.i..] then Continue(State(s.i + |vocab[s.v]|, 0, s.stack + [(s.i, s.v)]))
      else Continue(s.(v := s.v + 1))
    else if |s.stack| == 0 then Done(false)
    else
      var (si, sv) := s.stack[|s.stack| - 1];
      Continue(State(si, sv + 1, s.stack[..|s.stack| - 1]))
  }

  /** The corrected matcher, for at most fuel passes. */
  function Run(word: string, vocab: seq<string>, s: State, fuel: nat): Option<bool>
    decreases fuel
  {
    if fuel == 0 then None
    else match Step(word, vocab, s)
      case Done(b) => Some(b)
      case Continue(t) => Run(word, vocab, t, fuel - 1)
  }

  /** The saved choices are patterns laid end to end from the start of the word up to i. */
  ghost predicate Chain(word: string, vocab: seq<string>, stack: seq<(nat, nat)>, i: nat)
    decreases |stack|
  {
    if |stack| == 0 then i == 0
    else
      var (si, sv) := stack[|stack| - 1];
      si < |word| && sv < |vocab| && si + |vocab[sv]| == i && i <= |word| &&
      word[si..i] == vocab[sv] && Chain(word, vocab, stack[..|stack| - 1], si)
  }

  /** The pattern indices of the saved choices. */
  function Choices(stack: seq<(nat, nat)>): (T: seq<nat>)
    ensures |T| == |stack| && forall k :: 0 <= k < |stack| ==> T[k] == stack[k].1
  {
    seq(|stack|, k requires 0 <= k < |stack| => stack[k].1)
  }

  /** A chain lays out exactly the word's first i characters. */
  lemma {:induction false} ChainLaysOut(word: string, vocab: seq<string>, stack: seq<(nat, nat)>, i: nat)
    requires Chain(word, vocab, stack, i)
    ensures i <= |word| && forall k :: 0 <= k < |stack| ==> stack[k].1 < |vocab|
    ensures forall k :: 0 <= k < |stack| ==> stack[k].1 < |vocab| && Flat(Words(vocab, Choices(stack))) == word[..i]
    decreases |stack|
  {
    if |stack| > 0 {
      var (si, sv) := stack[|stack| - 1];
      var front := stack[..|stack| - 1];
      ChainLaysOut(word, vocab, front, si);
      assert forall k :: 0 <= k < |front| ==> front[k] == stack[k];
      assert Words(vocab, Choices(stack))[..|stack| - 1] == Words(vocab, Choices(front));
      assert word[..i] == word[..si] + word[si..i];
    }
  }

  /** The corrected step keeps the chain: a push extends it, a pop shortens it. */
  lemma {:induction false} StepKeepsChain(word: string, vocab: seq<string>, s: State)
    requires Chain(word, vocab, s.stack, s.i)
    requires Step(word, vocab, s).Continue?
    ensures var t := Step(word, vocab, s).next; Chain(word, vocab, t.stack, t.i)
  {
    ChainLaysOut(word, vocab, s.stack, s.i);
    if s.v < |vocab| && vocab[s.v] <= word[s.i..] {
      var t := s.stack + [(s.i, s.v)];
      assert t[..|t| - 1] == s.stack;
      assert word[s.i..s.i + |vocab[s.v]|] == vocab[s.v];
    }
  }

  /** Soundness: a yes from the corrected matcher means the word can be laid out. */
  lemma {:induction false} RunSound(word: string, vocab: seq<string>, s: State, fuel: nat)
    requires Chain(word, vocab, s.stack, s.i) && Run(word, vocab, s, fuel) == Some(true)
    ensures Tileable(word, vocab)
    decreases fuel
  {
    match Step(word, vocab, s)
    case Done(b) =>
      ChainLaysOut(word, vocab, s.stack, s.i);
      assert word[..s.i] == word;
      assert IsTiling(word, vocab, Choices(s.stack));
    case Continue(t) =>
      StepKeepsChain(word, vocab, s);
      RunSound(word, vocab, t, fuel - 1);
  }

  /** The search frontier: the saved choices followed by the next pattern to try. */
  function Front(s: State): (F: seq<nat>)
    ensures |F| == |s.stack| + 1 && F[|s.stack|] == s.v
    ensures forall k :: 0 <= k < |s.stack| ==> F[k] == s.stack[k].1
  {
    Choices(s.stack) + [s.v]
  }

  /** Up to the next pattern, the frontier is the saved choices. */
  lemma {:induction false} FrontPrefix(s: State, j: nat)
    requires j <= |s.stack|
    ensures Front(s)[..j] == Choices(s.stack)[..j]
  {
  }

  /** T is not lexicographically before the frontier F. */
  ghost predicate NotBelow(T: seq<nat>, F: seq<nat>) {
    forall j :: 0 <= j < |F| && j < |T| && T[..j] == F[..j] ==> T[j] >= F[j]
  }

  /** Every tiling before the frontier has been ruled out: none is left there. */
  ghost predicate Explored(word: string, vocab: seq<string>, s: State) {
    forall T :: IsTiling(word, vocab, T) ==> NotBelow(T, Front(s))
  }

  /** Laying out W is laying out its first k patterns, then W[k], then the rest. */
  lemma {:induction false} FlatSplit(W: seq<string>, k: nat)
    requires k < |W|
    ensures Flat(W) == Flat(W[..k]) + W[k] + Flat(W[k + 1..])
  {
    FlatAppend(W[..k + 1], W[k + 1..]);
    assert W[..k + 1] + W[k + 1..] == W;
    FlatSnoc(W[..k], W[k]);
    assert W[..k] + [W[k]] == W[..k + 1];
  }

  lemma {:induction false} FlatSnoc(a: seq<string>, x: string)
    ensures Flat(a + [x]) == Flat(a) + x
  {
    assert (a + [x])[..|a|] == a;
  }

  lemma {:induction false} WordsPrefix(vocab: seq<string>, T: seq<nat>, k: nat)
    requires (forall m :: 0 <= m < |T| ==> T[m] < |vocab|) && k <= |T|
    ensures Words(vocab, T)[..k] == Words(vocab, T[..k])
  {
  }

  lemma {:induction false} PrefixAt(word: string, a: string, b: string, c: string)
    requires word == a + b + c
    ensures b <= word[|a|..]
  {
    assert word[|a|..] == b + c;
  }

  /** A tiling that starts with the saved choices continues with a pattern that fits at i. */
  lemma {:induction false} NextFits(word: string, vocab: seq<string>, stack: seq<(nat, nat)>, i: nat, T: seq<nat>)
    requires Chain(word, vocab, stack, i) && IsTiling(word, vocab, T)
    ensures |T| > |stack| && T[..|stack|] == Choices(stack) ==> vocab[T[|stack|]] <= word[i..]
  {
    var k := |stack|;
    if |T| > k && T[..k] == Choices(stack) {
      ChainLaysOut(word, vocab, stack, i);
      var W := Words(vocab, T);
      FlatSplit(W, k);
      WordsPrefix(vocab, T, k);
      PrefixAt(word, word[..i], W[k], Flat(W[k + 1..]));
    }
  }

  /** Before the word's end, the saved choices alone are not a tiling. */
  lemma {:induction false} NotYetTiled(word: string, vocab: seq<string>, stack: seq<(nat, nat)>, i: nat, T: seq<nat>)
    requires Chain(word, vocab, stack, i) && IsTiling(word, vocab, T) && i < |word|
    ensures |T| >= |stack| && T[..|stack|] == Choices(stack) ==> |T| > |stack|
  {
    ChainLaysOut(word, vocab, stack, i);
    assert |T| == |stack| && T[..|stack|] == Choices(stack) ==> T == Choices(stack);
  }

  /** With every pattern tried at i, no tiling starts with the saved choices. */
  lemma {:induction false} Exhausted(word: string, vocab: seq<string>, s: State, T: seq<nat>)
    requires Chain(word, vocab, s.stack, s.i) && Explored(word, vocab, s)
    requires s.i < |word| && s.v >= |vocab|
    ensures IsTiling(word, vocab, T) ==> |T| < |s.stack| || T[..|s.stack|] != Choices(s.stack)
  {
    if IsTiling(word, vocab, T) {
      var k := |s.stack|;
      NotYetTiled(word, vocab, s.stack, s.i, T);
      assert Front(s)[..k] == Choices(s.stack);
    }
  }

  /** Trying the next pattern after one that does not fit rules out nothing that fits. */
  lemma {:induction false} ExploreNoFit(word: string, vocab: seq<string>, s: State, T: seq<nat>)
    requires Chain(word, vocab, s.stack, s.i) && IsTiling(word, vocab, T) && NotBelow(T, Front(s))
    requires s.i < |word| && s.v < |vocab| && !(vocab[s.v] <= word[s.i..])
    ensures NotBelow(T, Front(s.(v := s.v + 1)))
  {
    var F, F' := Front(s), Front(s.(v := s.v + 1));
    var k := |s.stack|;
    NextFits(word, vocab, s.stack, s.i, T);
    forall j | 0 <= j < |F'| && j < |T| && T[..j] == F'[..j] ensures T[j] >= F'[j] {
      FrontPrefix(s, j);
      FrontPrefix(s.(v := s.v + 1), j);
      assert T[j] >= F[j];
      if j == k {
        assert T[..k] == Choices(s.stack);
        assert T[k] != s.v;
      }
    }
  }

  /** Pushing a choice moves the frontier forward without passing any tiling. */
  lemma {:induction false} ExplorePush(word: string, vocab: seq<string>, s: State, T: seq<nat>)
    requires NotBelow(T, Front(s)) && s.v < |vocab|
    ensures NotBelow(T, Front(State(s.i + |vocab[s.v]|, 0, s.stack + [(s.i, s.v)])))
  {
    var F, F' := Front(s), Front(State(s.i + |vocab[s.v]|, 0, s.stack + [(s.i, s.v)]));
    forall j | 0 <= j < |F'| && j < |T| && T[..j] == F'[..j] ensures T[j] >= F'[j] {
      if j < |F| {
        assert F[..j] == F'[..j] && F[j] == F'[j];
      }
    }
  }

  /** The choices without the last one. */
  lemma {:induction false} ChoicesPop(stack: seq<(nat, nat)>)
    requires |stack| > 0
    ensures Choices(stack) == Choices(stack[..|stack| - 1]) + [stack[|stack| - 1].1]
  {
  }

  /**
   * On the index sequences alone: if no tiling starts with C0 + [sv] and
   * none is before C0 + [sv, v], none is before C0 + [sv + 1].
   */
  lemma {:induction false} PopFrontier(T: seq<nat>, C0: seq<nat>, sv: nat, v: nat)
    requires NotBelow(T, C0 + [sv, v])
    requires |T| <= |C0| || T[..|C0| + 1] != C0 + [sv]
    ensures NotBelow(T, C0 + [sv + 1])
  {
    var F, F' := C0 + [sv, v], C0 + [sv + 1];
    forall j | 0 <= j < |F'| && j < |T| && T[..j] == F'[..j] ensures T[j] >= F'[j] {
      assert F[..j] == F'[..j];
      if j == |C0| {
        assert T[..j + 1] == T[..j] + [T[j]];
      }
    }
  }

  /** Popping a choice whose patterns are used up moves its slot to the next pattern. */
  lemma {:induction false} ExplorePop(s: State, T: seq<nat>)
    requires |s.stack| > 0 && NotBelow(T, Front(s))
    requires |T| < |s.stack| || T[..|s.stack|] != Choices(s.stack)
    ensures var (si, sv) := s.stack[|s.stack| - 1];
      NotBelow(T, Front(State(si, sv + 1, s.stack[..|s.stack| - 1])))
  {
    var k := |s.stack|;
    var (si, sv) := s.stack[k - 1];
    var front := s.stack[..k - 1];
    ChoicesPop(s.stack);
    assert Front(s) == Choices(front) + [sv, s.v];
    PopFrontier(T, Choices(front), sv, s.v);
  }

  /** The corrected step keeps every tiling at or after the frontier. */
  lemma {:induction false} StepExplores(word: string, vocab: seq<string>, s: State)
    requires Chain(word, vocab, s.stack, s.i) && Explored(word, vocab, s)
    requires Step(word, vocab, s).Continue?
    ensures Explored(word, vocab, Step(word, vocab, s).next)
  {
    var t := Step(word, vocab, s).next;
    forall T | IsTiling(word, vocab, T) ensures NotBelow(T, Front(t)) {
      if s.v >= |vocab| {
        Exhausted(word, vocab, s, T);
      }
      ExploreOne(word, vocab, s, T);
    }
  }

  /** One tiling at or after the frontier stays at or after it when the corrected step is taken. */
  lemma {:induction false} ExploreOne(word: string, vocab: seq<string>, s: State, T: seq<nat>)
    requires Chain(word, vocab, s.stack, s.i) && IsTiling(word, vocab, T) && NotBelow(T, Front(s))
    requires s.v >= |vocab| ==> |T| < |s.stack| || T[..|s.stack|] != Choices(s.stack)
    requires Step(word, vocab, s).Continue?
    ensures NotBelow(T, Front(Step(word, vocab, s).next))
  {
    if s.v < |vocab| {
      if vocab[s.v] <= word[s.i..] {
        ExplorePush(word, vocab, s, T);
      } else {
        ExploreNoFit(word, vocab, s, T);
      }
    } else {
      ExplorePop(s, T);
    }
  }

  /** Nothing is ruled out at the start. */
  lemma {:induction false} StartExplored(word: string, vocab: seq<string>)
    ensures Chain(word, vocab, Start.stack, Start.i) && Explored(word, vocab, Start)
  {
  }

  /** Completeness: a no from the corrected matcher means the word cannot be laid out. */
  lemma {:induction false} RunComplete(word: string, vocab: seq<string>, s: State, fuel: nat)
    requires Chain(word, vocab, s.stack, s.i) && Explored(word, vocab, s)
    requires Run(word, vocab, s, fuel) == Some(false)
    ensures !Tileable(word, vocab)
    decreases fuel
  {
    match Step(word, vocab, s)
    case Done(b) =>
      forall T ensures !IsTiling(word, vocab, T) {
        Exhausted(word, vocab, s, T);
        assert T[..0] == [];
      }
    case Continue(t) =>
      StepKeepsChain(word, vocab, s);
      StepExplores(word, vocab, s);
      RunComplete(word, vocab, t, fuel - 1);
  }

  /** The corrected matcher says no to "aaa" with the single pattern "aa". */
  lemma {:induction false} RejectsAaa()
    ensures Run("aaa", ["aa"], Start, 5) == Some(false)
  {
    var w, vocab := "aaa", ["aa"];
    assert vocab[0] <= w[0..];
    var s1 := State(2, 0, [(0, 0)]);
    assert Step(w, vocab, Start) == Continue(s1);
    assert !(vocab[0] <= w[2..]);
    var s2 := State(2, 1, [(0, 0)]);
    assert Step(w, vocab, s1) == Continue(s2);
    var s3 := State(0, 1, []);
    assert Step(w, vocab, s2) == Continue(s3);
  }

  /** The empty word is accepted at once: the loop is never entered. */
  lemma {:induction false} EmptyWord(vocab: seq<string>, fuel: nat)
    requires fuel >= 1
    ensures Run([], vocab, Start, fuel) == Some(true)
    ensures RunAsWritten([], vocab, Start, fuel) == Some(true)
  {
  }

  /**
   * One pass of the loops of try_match with the corrected backtracking: take
   * pattern v at i when it fits, else try the next pattern, else go back to
   * the last choice and try the pattern after it.
   */
  method Advance(word: string, vocab: seq<string>, i: nat, v: nat, stack: seq<(nat, nat)>)
    returns (i': nat, v': nat, stack': seq<(nat, nat)>)
    requires i < |word| && (v < |vocab| || |stack| > 0)
    ensures Step(word, vocab, State(i, v, stack)) == Continue(State(i', v', stack'))
  {
    if v < |vocab| {
      if vocab[v] <= word[i..] {
        stack' := stack + [(i, v)];
        i' := i + |vocab[v]|;
        v' := 0;
      } else {
        i', v', stack' := i, v + 1, stack;
      }
    } else {
      var (savedI, savedV) := stack[|stack| - 1];
      stack' := stack[..|stack| - 1];
      i', v' := savedI, savedV + 1;
    }
  }

  /**
   * try_match with the corrected backtracking: the loops over i and v and
   * the stack of choices, for at most fuel passes.
   */
  method TryMatch(word: string, vocab: seq<string>, fuel: nat) returns (r: Option<bool>)
    ensures r == Run(word, vocab, Start, fuel)
    ensures r == Some(true) ==> Tileable(word, vocab)
    ensures r == Some(false) ==> !Tileable(word, vocab)
  {
    var i: nat, v: nat := 0, 0;
    var stack: seq<(nat, nat)> := [];
    var n := fuel;
    while n > 0
      invariant Run(word, vocab, State(i, v, stack), n) == Run(word, vocab, Start, fuel)
      invariant Chain(word, vocab, stack, i)
    {
      if i >= |word| {
        r := Some(true);
        RunSound(word, vocab, Start, fuel);
        return;
      }
      if v >= |vocab| && |stack| == 0 {
        r := Some(false);
        StartExplored(word, vocab);
        RunComplete(word, vocab, Start, fuel);
        return;
      }
      StepKeepsChain(word, vocab, State(i, v, stack));
      i, v, stack := Advance(word, vocab, i, v, stack);
      n := n - 1;
    }
    r := None;
  }

  /**
   * try_match as written: the loops over i and v and the stack of choices,
   * for at most fuel passes, with the source's backtracking.
   */
  method TryMatchAsWritten(word: string, vocab: seq<string>, fuel: nat) returns (r: Option<bool>)
    ensures r == RunAsWritten(word, vocab, Start, fuel)
  {
    var i: nat, v: nat := 0, 0;
    var stack: seq<(nat, nat)> := [];
    var n := fuel;
    while n > 0
      invariant RunAsWritten(word, vocab, State(i, v, stack), n) == RunAsWritten(word, vocab, Start, fuel)
    {
      if i >= |word| {
        return Some(true);
      }
      if v < |vocab| {
        if vocab[v] <= word[i..] {
          stack, i, v := stack + [(i, v)], i + |vocab[v]|, 0;
        } else {
          v := v + 1;
        }
      } else if |stack| == 0 {
        return Some(false);
      } else {
        var (savedI, savedV) := stack[|stack| - 1];
        stack := stack[..|stack| - 1];
        if savedV < |vocab| - 1 {
          i, v := savedI, savedV + 1;
        } else if savedI < |word| - 1 {
          i, v := savedI + 1, 0;
        } else {
          return Some(false);
        }
      }
      n := n - 1;
    }
    r := None;
  }

  // ---------------------------------------------------------------------
  // main: the patterns longest first, then the designs try_match accepts
  // ---------------------------------------------------------------------

  /** No pattern is longer than one before it. */
  predicate LongestFirst(v: seq<string>) {
    forall i, j :: 0 <= i < j < |v| ==> |v[i]| >= |v[j]|
  }

  /** x placed after the longer patterns of s and before the rest. */
  function InsertByLength(x: string, s: seq<string>): (r: seq<string>)
    ensures multiset(r) == multiset(s) + multiset{x}
    ensures |r| > 0 && (r[0] == x || (|s| > 0 && r[0] == s[0]))
  {
    if |s| == 0 then [x]
    else if |s[0]| > |x| then
      assert s == [s[0]] + s[1..];
      [s[0]] + InsertByLength(x, s[1..])
    else [x] + s
  }

  /** Inserting keeps the patterns longest first. */
  lemma {:induction false} InsertKeepsOrder(x: string, s: seq<string>)
    requires LongestFirst(s)
    ensures LongestFirst(InsertByLength(x, s))
  {
    if |s| > 0 && |s[0]| > |x| {
      InsertKeepsOrder(x, s[1..]);
      InsertBounded(x, s[1..], |s[0]|);
    }
  }

  /** Inserting a pattern no longer than m among patterns no longer than m. */
  lemma {:induction false} InsertBounded(x: string, s: seq<string>, m: nat)
    requires |x| <= m && forall i :: 0 <= i < |s| ==> |s[i]| <= m
    ensures forall j :: 0 <= j < |InsertByLength(x, s)| ==> |InsertByLength(x, s)[j]| <= m
  {
    if |s| > 0 && |s[0]| > |x| {
      InsertBounded(x, s[1..], m);
    }
  }

  /**
   * `sort_by(|v1, v2| v2.len().cmp(&v1.len()))`: the same patterns, longest
   * first; patterns of equal length keep their order, as in a stable sort.
   */
  function SortLongestFirst(v: seq<string>): (r: seq<string>)
    ensures multiset(r) == multiset(v)
    ensures LongestFirst(r)
  {
    if |v| == 0 then []
    else
      assert v == [v[0]] + v[1..];
      InsertKeepsOrder(v[0], SortLongestFirst(v[1..]));
      InsertByLength(v[0], SortLongestFirst(v[1..]))
  }

  /** Some index of p in s. */
  ghost function IndexIn(s: seq<string>, p: string): (j: nat)
    requires p in s
    ensures j < |s| && s[j] == p
  {
    var j :| 0 <= j < |s| && s[j] == p; j
  }

  /** Whether a word can be laid out depends only on which patterns there are, not on their order. */
  lemma {:induction false} TileableSamePatterns(word: string, vocab: seq<string>, vocab': seq<string>)
    requires forall p :: p in vocab ==> p in vocab'
    ensures Tileable(word, vocab) ==> Tileable(word, vocab')
  {
    if Tileable(word, vocab) {
      var T :| IsTiling(word, vocab, T);
      var T' := seq(|T|, k requires 0 <= k < |T| => IndexIn(vocab', vocab[T[k]]));
      assert Words(vocab', T') == Words(vocab, T);
      assert IsTiling(word, vocab', T');
    }
  }

  /** The number of designs that can be laid out with the patterns. */
  ghost function TileableCount(words: seq<string>, vocab: seq<string>): nat {
    if |words| == 0 then 0
    else TileableCount(words[..|words| - 1], vocab) + if Tileable(words[|words| - 1], vocab) then 1 else 0
  }

  /** The count of main's filter: the designs the corrected matcher accepts; None when a match runs out of fuel. */
  function CountRun(words: seq<string>, vocab: seq<string>, fuel: nat): (r: Option<nat>)
    ensures r.None? <==> exists k :: 0 <= k < |words| && Run(words[k], vocab, Start, fuel).None?
    ensures r.Some? ==> r.value <= |words|
  {
    if |words| == 0 then Some(0)
    else
      var last := words[|words| - 1];
      assert forall k :: 0 <= k < |words| - 1 ==> words[..|words| - 1][k] == words[k];
      match CountRun(words[..|words| - 1], vocab, fuel)
      case None => None
      case Some(n) =>
        match Run(last, vocab, Start, fuel)
        case None => None
        case Some(b) => Some(n + if b then 1 else 0)
  }

  /** Where the count is found, it is the number of designs that can be laid out. */
  lemma {:induction false} CountRunTileable(words: seq<string>, vocab: seq<string>, fuel: nat)
    ensures CountRun(words, vocab, fuel).Some? ==> CountRun(words, vocab, fuel).value == TileableCount(words, vocab)
  {
    if |words| > 0 {
      var last := words[|words| - 1];
      CountRunTileable(words[..|words| - 1], vocab, fuel);
      StartExplored(last, vocab);
      if Run(last, vocab, Start, fuel) == Some(true) {
        RunSound(last, vocab, Start, fuel);
      } else if Run(last, vocab, Start, fuel) == Some(false) {
        RunComplete(last, vocab, Start, fuel);
      }
    }
  }

  /** The same designs can be laid out with the sorted patterns as with the given ones. */
  lemma {:induction false} TileableCountSorted(words: seq<string>, vocab: seq<string>)
    ensures TileableCount(words, SortLongestFirst(vocab)) == TileableCount(words, vocab)
  {
    var sorted := SortLongestFirst(vocab);
    assert forall p :: p in vocab <==> p in multiset(sorted);
    if |words| > 0 {
      TileableCountSorted(words[..|words| - 1], vocab);
      TileableSamePatterns(words[|words| - 1], vocab, sorted);
      TileableSamePatterns(words[|words| - 1], sorted, vocab);
    }
  }

  /**
   * main: sort the patterns longest first and count the designs try_match
   * accepts, with the corrected backtracking and fuel passes per design.
   */
  method CountDesigns(words: seq<string>, vocab: seq<string>, fuel: nat) returns (r: Option<nat>)
    ensures r == CountRun(words, SortLongestFirst(vocab), fuel)
    ensures r.Some? ==> r.value == TileableCount(words, vocab)
  {
    var sorted := SortLongestFirst(vocab);
    var n := 0;
    for k := 0 to |words|
      invariant CountRun(words[..k], sorted, fuel) == Some(n)
    {
      var m := TryMatch(words[k], sorted, fuel);
      assert words[..k + 1][..k] == words[..k];
      if m.None? {
        assert Run(words[k], sorted, Start, fuel).None?;
        return None;
      }
      if m.value {
        n := n + 1;
      }
    }
    assert words[..|words|] == words;
    CountRunTileable(words, sorted, fuel);
    TileableCountSorted(words, vocab);
    return Some(n);
  }

  /** The count of main's filter with try_match as written; None when a match runs out of fuel. */
  function CountRunAsWritten(words: seq<string>, vocab: seq<string>, fuel: nat): (r: Option<nat>)
    ensures r.None? <==> exists k :: 0 <= k < |words| && RunAsWritten(words[k], vocab, Start, fuel).None?
    ensures r.Some? ==> r.value <= |words|
  {
    if |words| == 0 then Some(0)
    else
      var last := words[|words| - 1];
      assert forall k :: 0 <= k < |words| - 1 ==> words[..|words| - 1][k] == words[k];
      match CountRunAsWritten(words[..|words| - 1], vocab, fuel)
      case None => None
      case Some(n) =>
        match RunAsWritten(last, vocab, Start, fuel)
        case None => None
        case Some(b) => Some(n + if b then 1 else 0)
  }

  /** main as written: sort the patterns longest first and count the designs try_match as written accepts. */
  method CountDesignsAsWritten(words: seq<string>, vocab: seq<string>, fuel: nat) returns (r: Option<nat>)
    ensures r == CountRunAsWritten(words, SortLongestFirst(vocab), fuel)
  {
    var sorted := SortLongestFirst(vocab);
    var n := 0;
    for k := 0 to |words|
      invariant CountRunAsWritten(words[..k], sorted, fuel) == Some(n)
    {
      var m := TryMatchAsWritten(words[k], sorted, fuel);
      assert words[..k + 1][..k] == words[..k];
      if m.None? {
        assert RunAsWritten(words[k], sorted, Start, fuel).None?;
        return None;
      }
      if m.value {
        n := n + 1;
      }
    }
    assert words[..|words|] == words;
    return Some(n);
  }

  /**
   * With the one pattern "aa" and the one design "aaa", main as written
   * counts 1 design; the corrected count is 0, and no design can be laid out.
   */
  lemma {:induction false} CountAaa()
    ensures SortLongestFirst(["aa"]) == ["aa"]
    ensures CountRunAsWritten(["aaa"], ["aa"], 5) == Some(1)
    ensures CountRun(["aaa"], ["aa"], 5) == Some(0) && TileableCount(["aaa"], ["aa"]) == 0
  {
    assert ["aaa"][..0] == [];
    AsWrittenAcceptsAaa();
    RejectsAaa();
    AaaNotTileable();
    assert TileableCount(["aaa"][..0], ["aa"]) == 0;
  }
}
