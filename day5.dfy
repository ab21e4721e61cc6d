/**
 * src/bin/d5.rs: print-queue ordering rules. A rule `earlier|later` holds
 * for an update when the update lacks one of the two pages or has the
 * earlier page before the later one. Part 1 adds the middle pages of the
 * updates that keep every rule; part 2 reorders the others by swapping
 * the two pages of each broken rule and adds their middle pages.
 */
module Day5 {
  import opened Wrappers

  datatype Rule = Rule(earlier: nat, later: nat)

  /**
   * The positions the scan of is_ordered has recorded after the first n
   * pages: the last earlier page, and the last later page that is not also
   * the earlier page (the `else if`).
   */
  function Positions(s: seq<nat>, r: Rule, n: nat): (p: (Option<nat>, Option<nat>))
    requires n <= |s|
    ensures p.0.Some? ==> p.0.value < n
    ensures p.1.Some? ==> p.1.value < n
  {
    if n == 0 then (None, None)
    else
      var (e, l) := Positions(s, r, n - 1);
      if s[n - 1] == r.earlier then (Some(n - 1), l)
      else if s[n - 1] == r.later then (e, Some(n - 1))
      else (e, l)
  }

  /** The scan finds the last position of the earlier page and of the later page. */
  lemma {:induction false} PositionsMeans(s: seq<nat>, r: Rule, n: nat)
    requires n <= |s|
    ensures var e := Positions(s, r, n).0;
      (e.None? <==> forall k :: 0 <= k < n ==> s[k] != r.earlier) &&
      (e.Some? ==> e.value < n && s[e.value] == r.earlier && forall k :: e.value < k < n ==> s[k] != r.earlier)
    ensures var l := Positions(s, r, n).1;
      (l.None? <==> forall k :: 0 <= k < n ==> s[k] != r.later || s[k] == r.earlier) &&
      (l.Some? ==> l.value < n && s[l.value] == r.later != r.earlier &&
                   forall k :: l.value < k < n ==> s[k] != r.later || s[k] == r.earlier)
  {
    if n > 0 {
      PositionsMeans(s, r, n - 1);
    }
  }

  /** is_ordered's verdict. */
  predicate Ordered(r: Rule, s: seq<nat>) {
    var (e, l) := Positions(s, r, |s|);
    e.None? || l.None? || e.value < l.value
  }

  predicate Distinct(s: seq<nat>) {
    forall i, j :: 0 <= i < j < |s| ==> s[i] != s[j]
  }

  lemma {:induction false} Unique(s: seq<nat>, i: nat, j: nat)
    requires Distinct(s) && i < |s| && j < |s| && s[i] == s[j]
    ensures i == j
  {
  }

  /**
   * On an update that names each page once, a rule holds exactly when every
   * earlier page comes before every later page.
   */
  lemma {:induction false} OrderedMeans(r: Rule, s: seq<nat>)
    requires r.earlier != r.later && Distinct(s)
    ensures Ordered(r, s) <==>
      forall i, j :: 0 <= i < |s| && 0 <= j < |s| && s[i] == r.earlier && s[j] == r.later ==> i < j
  {
    PositionsMeans(s, r, |s|);
    var (e, l) := Positions(s, r, |s|);
    if e.Some? && l.Some? {
      forall i, j | 0 <= i < |s| && 0 <= j < |s| && s[i] == r.earlier && s[j] == r.later
        ensures i == e.value && j == l.value
      {
        Unique(s, i, e.value);
        Unique(s, j, l.value);
      }
    }
  }

  /** The scan loop of is_ordered (and of order), over i from 0. */
  method Scan(s: seq<nat>, r: Rule) returns (e: Option<nat>, l: Option<nat>)
    ensures (e, l) == Positions(s, r, |s|)
  {
    e, l := None, None;
    for i := 0 to |s|
      invariant (e, l) == Positions(s, r, i)
    {
      if s[i] == r.earlier {
        e := Some(i);
      } else if s[i] == r.later {
        l := Some(i);
      }
    }
  }

  /** Rule::is_ordered. */
  method IsOrdered(r: Rule, s: seq<nat>) returns (b: bool)
    ensures b == Ordered(r, s)
  {
    var e, l := Scan(s, r);
    b := e.None? || l.None? || e.value < l.value;
  }

  /** Part2::is_ordered: every rule holds. */
  predicate AllOrdered(s: seq<nat>, rules: seq<Rule>) {
    forall k :: 0 <= k < |rules| ==> Ordered(rules[k], s)
  }

  /** `l[l.len() / 2]` */
  function Middle(l: seq<nat>): nat
    requires |l| > 0
  {
    l[|l| / 2]
  }

  /** Part1::run: the middle pages of the updates that keep every rule. */
  function Part1(pages: seq<seq<nat>>, rules: seq<Rule>): nat
    requires forall k :: 0 <= k < |pages| ==> |pages[k]| > 0
  {
    if |pages| == 0 then 0
    else
      var l := pages[|pages| - 1];
      Part1(pages[..|pages| - 1], rules) + (if AllOrdered(l, rules) then Middle(l) else 0)
  }

  /** The middle pages of all updates. */
  function SumMiddles(pages: seq<seq<nat>>): nat
    requires forall k :: 0 <= k < |pages| ==> |pages[k]| > 0
  {
    if |pages| == 0 then 0 else SumMiddles(pages[..|pages| - 1]) + Middle(pages[|pages| - 1])
  }

  /** The middle pages of the updates that break some rule, as they come. */
  function SumBroken(pages: seq<seq<nat>>, rules: seq<Rule>): nat
    requires forall k :: 0 <= k < |pages| ==> |pages[k]| > 0
  {
    if |pages| == 0 then 0
    else
      var l := pages[|pages| - 1];
      SumBroken(pages[..|pages| - 1], rules) + (if AllOrdered(l, rules) then 0 else Middle(l))
  }

  /** Part 1 takes the updates that keep every rule, part 2 the others: together, all of them. */
  lemma {:induction false} Part1Partition(pages: seq<seq<nat>>, rules: seq<Rule>)
    requires forall k :: 0 <= k < |pages| ==> |pages[k]| > 0
    ensures Part1(pages, rules) + SumBroken(pages, rules) == SumMiddles(pages)
    ensures (forall k :: 0 <= k < |pages| ==> AllOrdered(pages[k], rules)) ==> Part1(pages, rules) == SumMiddles(pages)
  {
    if |pages| > 0 {
      var front := pages[..|pages| - 1];
      assert forall k :: 0 <= k < |front| ==> front[k] == pages[k];
      Part1Partition(front, rules);
    }
  }

  /** `pages.swap(i, j)`, written out with a temporary in the source. */
  function Swap(s: seq<nat>, i: nat, j: nat): (t: seq<nat>)
    requires i < |s| && j < |s|
    ensures |t| == |s| && multiset(t) == multiset(s)
    ensures t[i] == s[j] && t[j] == s[i] && forall k :: 0 <= k < |s| && k != i && k != j ==> t[k] == s[k]
  {
    s[i := s[j]][j := s[i]]
  }

  /** One step of order's inner loop: swap the two pages of the rule if it is broken. */
  function Fix(s: seq<nat>, r: Rule): (t: seq<nat>)
    ensures |t| == |s| && multiset(t) == multiset(s)
  {
    var (e, l) := Positions(s, r, |s|);
    if e.Some? && l.Some? && e.value > l.value then Swap(s, e.value, l.value) else s
  }

  /** A rule that holds needs no swap. */
  lemma {:induction false} FixKept(s: seq<nat>, r: Rule)
    requires Ordered(r, s)
    ensures Fix(s, r) == s
  {
  }

  /** On an update that names each page once, the swap repairs the rule it is made for. */
  lemma {:induction false} FixRepairs(s: seq<nat>, r: Rule)
    requires r.earlier != r.later && Distinct(s)
    ensures Distinct(Fix(s, r)) && Ordered(r, Fix(s, r))
  {
    PositionsMeans(s, r, |s|);
    var (e, l) := Positions(s, r, |s|);
    var t := Fix(s, r);
    if e.Some? && l.Some? && e.value > l.value {
      var ev, lv := e.value, l.value;
      forall i, j | 0 <= i < j < |t| ensures t[i] != t[j] {
        var i' := if i == ev then lv else if i == lv then ev else i;
        var j' := if j == ev then lv else if j == lv then ev else j;
        assert t[i] == s[i'] && t[j] == s[j'] && i' != j';
        if i' < j' { assert s[i'] != s[j']; } else { assert s[j'] != s[i']; }
      }
      forall i, j | 0 <= i < |t| && 0 <= j < |t| && t[i] == r.earlier && t[j] == r.later
        ensures i < j
      {
        var i' := if i == ev then lv else if i == lv then ev else i;
        var j' := if j == ev then lv else if j == lv then ev else j;
        assert t[i] == s[i'] && t[j] == s[j'];
        Unique(s, i', ev);
        Unique(s, j', lv);
      }
      OrderedMeans(r, t);
    }
  }

  /** The inner `for rule in rules` of order: each rule in turn. */
  function Pass(s: seq<nat>, rules: seq<Rule>): (t: seq<nat>)
    ensures |t| == |s| && multiset(t) == multiset(s)
    decreases |rules|
  {
    if |rules| == 0 then s else Pass(Fix(s, rules[0]), rules[1..])
  }

  /** A pass over rules that all hold changes nothing. */
  lemma {:induction false} PassKept(s: seq<nat>, rules: seq<Rule>)
    requires AllOrdered(s, rules)
    ensures Pass(s, rules) == s
  {
    if |rules| > 0 {
      FixKept(s, rules[0]);
      assert AllOrdered(s, rules[1..]) by {
        forall k | 0 <= k < |rules| - 1 ensures Ordered(rules[1..][k], s) {
          assert rules[1..][k] == rules[k + 1];
        }
      }
      PassKept(s, rules[1..]);
    }
  }

  /** One round of order's outer loop: a pass over the rules. */
  function PassStep(rules: seq<Rule>): seq<nat> -> seq<nat> {
    t => Pass(t, rules)
  }

  /** The outer loop of order stops once every rule holds. */
  function KeepsAll(rules: seq<Rule>): seq<nat> -> bool {
    t => AllOrdered(t, rules)
  }

  /**
   * order, with at most fuel rounds of the outer loop: while some rule is
   * broken, make a pass over the rules.
   */
  function Reorder(s: seq<nat>, rules: seq<Rule>, fuel: nat): (t: seq<nat>)
    ensures |t| == |s| && multiset(t) == multiset(s)
  {
    IterateKeeps(s, PassStep(rules), KeepsAll(rules), fuel, t => |t| == |s| && multiset(t) == multiset(s));
    Iterate(s, PassStep(rules), KeepsAll(rules), fuel)
  }

  /** Rounds of step until done holds, at most fuel of them: the shape of order's outer loop. */
  function Iterate<T>(x: T, step: T -> T, done: T -> bool, fuel: nat): T
    decreases fuel
  {
    if done(x) || fuel == 0 then x else Iterate(step(x), step, done, fuel - 1)
  }

  /** n rounds of step, one after the other. */
  function Repeat<T>(x: T, step: T -> T, n: nat): T
    decreases n
  {
    if n == 0 then x else Repeat(step(x), step, n - 1)
  }

  /** Every round keeps inv, so the rounds end where inv holds. */
  lemma {:induction false} IterateKeeps<T>(x: T, step: T -> T, done: T -> bool, fuel: nat, inv: T -> bool)
    requires inv(x) && forall y :: inv(y) ==> inv(step(y))
    ensures inv(Iterate(x, step, done, fuel))
    decreases fuel
  {
    if !done(x) && fuel > 0 {
      IterateKeeps(step(x), step, done, fuel - 1, inv);
    }
  }

  /** Rounds that end without done have made every round, and done failed before each and after the last. */
  lemma {:induction false} IterateStops<T>(x: T, step: T -> T, done: T -> bool, fuel: nat)
    ensures !done(Iterate(x, step, done, fuel)) ==>
            Iterate(x, step, done, fuel) == Repeat(x, step, fuel) &&
            forall n :: 0 <= n <= fuel ==> !done(Repeat(x, step, n))
    decreases fuel
  {
    if fuel > 0 && !done(x) {
      IterateStops(step(x), step, done, fuel - 1);
      if !done(Iterate(x, step, done, fuel)) {
        forall n | 0 <= n <= fuel ensures !done(Repeat(x, step, n)) {
          if n > 0 {
            assert Repeat(x, step, n) == Repeat(step(x), step, n - 1);
          }
        }
      }
    }
  }

  /** Rounds that end with done stop at the first round n after which done holds. */
  lemma {:induction false} IterateFirstDone<T>(x: T, step: T -> T, done: T -> bool, fuel: nat) returns (n: nat)
    requires done(Iterate(x, step, done, fuel))
    ensures n <= fuel && Iterate(x, step, done, fuel) == Repeat(x, step, n)
    ensures forall m :: 0 <= m < n ==> !done(Repeat(x, step, m))
    decreases fuel
  {
    if done(x) {
      n := 0;
    } else {
      var k := IterateFirstDone(step(x), step, done, fuel - 1);
      n := k + 1;
      assert Repeat(x, step, n) == Repeat(step(x), step, k);
      forall m | 0 <= m < n ensures !done(Repeat(x, step, m)) {
        if m > 0 {
          assert Repeat(x, step, m) == Repeat(step(x), step, m - 1);
        }
      }
    }
  }

  /** Once the rounds end with done within the fuel, more fuel ends in the same place. */
  lemma {:induction false} IterateMore<T>(x: T, step: T -> T, done: T -> bool, fuel: nat, more: nat)
    requires done(Iterate(x, step, done, fuel)) && fuel <= more
    ensures Iterate(x, step, done, more) == Iterate(x, step, done, fuel)
    decreases fuel
  {
    if !done(x) {
      IterateMore(step(x), step, done, fuel - 1, more - 1);
    }
  }

  /** n passes over the rules, one after the other. */
  function Passes(s: seq<nat>, rules: seq<Rule>, n: nat): seq<nat> {
    Repeat(s, PassStep(rules), n)
  }

  /**
   * An update that keeps every rule is left as it is. One that order leaves
   * breaking a rule has had every one of the fuel passes made over it, and
   * broke a rule before each of them and after the last.
   */
  lemma {:induction false} ReorderStops(s: seq<nat>, rules: seq<Rule>, fuel: nat)
    ensures AllOrdered(s, rules) ==> Reorder(s, rules, fuel) == s
    ensures !AllOrdered(Reorder(s, rules, fuel), rules) ==>
            Reorder(s, rules, fuel) == Passes(s, rules, fuel) &&
            forall n :: 0 <= n <= fuel ==> !AllOrdered(Passes(s, rules, n), rules)
  {
    IterateStops(s, PassStep(rules), KeepsAll(rules), fuel);
  }

  /** An update order leaves keeping every rule is the first of the passes that keeps every rule. */
  lemma {:induction false} ReorderFirstOrdered(s: seq<nat>, rules: seq<Rule>, fuel: nat)
    requires AllOrdered(Reorder(s, rules, fuel), rules)
    ensures exists n :: 0 <= n <= fuel && Reorder(s, rules, fuel) == Passes(s, rules, n) &&
                        forall m :: 0 <= m < n ==> !AllOrdered(Passes(s, rules, m), rules)
  {
    var n := IterateFirstDone(s, PassStep(rules), KeepsAll(rules), fuel);
    assert Reorder(s, rules, fuel) == Passes(s, rules, n);
  }

  /** Once order ends within the fuel, more fuel leaves the same update. */
  lemma {:induction false} ReorderMore(s: seq<nat>, rules: seq<Rule>, fuel: nat, more: nat)
    requires AllOrdered(Reorder(s, rules, fuel), rules) && fuel <= more
    ensures Reorder(s, rules, more) == Reorder(s, rules, fuel)
  {
    IterateMore(s, PassStep(rules), KeepsAll(rules), fuel, more);
  }

  method SwapCells(a: array<nat>, i: nat, j: nat)
    requires i < a.Length && j < a.Length
    modifies a
    ensures a[..] == Swap(old(a[..]), i, j)
  {
    var tmp := a[i];
    a[i] := a[j];
    a[j] := tmp;
  }

  /** One pass of order's inner loop, in place. */
  method PassInPlace(pages: array<nat>, rules: seq<Rule>)
    modifies pages
    ensures pages[..] == Pass(old(pages[..]), rules)
  {
    for k := 0 to |rules|
      invariant Pass(old(pages[..]), rules) == Pass(pages[..], rules[k..])
    {
      var e, l := Scan(pages[..], rules[k]);
      if e.Some? && l.Some? && e.value > l.value {
        PositionsMeans(pages[..], rules[k], pages.Length);
        SwapCells(pages, e.value, l.value);
      }
      assert rules[k..][1..] == rules[k + 1..];
    }
  }

  /** Part2::is_ordered, rule by rule. */
  method AllOrderedScan(s: seq<nat>, rules: seq<Rule>) returns (b: bool)
    ensures b == AllOrdered(s, rules)
  {
    for k := 0 to |rules|
      invariant forall j :: 0 <= j < k ==> Ordered(rules[j], s)
    {
      var ok := IsOrdered(rules[k], s);
      if !ok {
        return false;
      }
    }
    return true;
  }

  /**
   * Part2::order in place, with at most fuel rounds: the update ends as
   * Reorder makes it, and the result tells whether every rule now holds.
   */
  method Order(pages: array<nat>, rules: seq<Rule>, fuel: nat) returns (ordered: bool)
    modifies pages
    ensures pages[..] == Reorder(old(pages[..]), rules, fuel)
    ensures ordered <==> AllOrdered(pages[..], rules)
  {
    var f := fuel;
    ordered := AllOrderedScan(pages[..], rules);
    while !ordered && f > 0
      invariant Reorder(old(pages[..]), rules, fuel) == Reorder(pages[..], rules, f)
      invariant ordered <==> AllOrdered(pages[..], rules)
      decreases f
    {
      PassInPlace(pages, rules);
      f := f - 1;
      ordered := AllOrderedScan(pages[..], rules);
    }
  }

  /** The sum of the values f gives over xs; None as soon as one of them is None. */
  function SumSome<T>(xs: seq<T>, f: T -> Option<nat>): Option<nat> {
    if |xs| == 0 then Some(0)
    else
      var front := SumSome(xs[..|xs| - 1], f);
      var last := f(xs[|xs| - 1]);
      if front.None? || last.None? then None else Some(front.value + last.value)
  }

  /** The sum is None exactly when one of the values is. */
  lemma {:induction false} SumSomeNone<T>(xs: seq<T>, f: T -> Option<nat>)
    ensures SumSome(xs, f).None? <==> exists k :: 0 <= k < |xs| && f(xs[k]).None?
  {
    if |xs| > 0 {
      var front := xs[..|xs| - 1];
      SumSomeNone(front, f);
      assert forall k :: 0 <= k < |front| ==> front[k] == xs[k];
    }
  }

  /** A sum that is found does not change when the values are kept wherever they are found. */
  lemma {:induction false} SumSomeSame<T>(xs: seq<T>, f: T -> Option<nat>, g: T -> Option<nat>)
    requires SumSome(xs, f).Some?
    requires forall k :: 0 <= k < |xs| && f(xs[k]).Some? ==> g(xs[k]) == f(xs[k])
    ensures SumSome(xs, g) == SumSome(xs, f)
  {
    if |xs| > 0 {
      var front := xs[..|xs| - 1];
      assert forall k :: 0 <= k < |front| ==> front[k] == xs[k];
      SumSomeSame(front, f, g);
    }
  }

  /**
   * What one update adds in Part2::run: nothing when it keeps every rule,
   * otherwise the middle page once order has made it keep every rule; None
   * when order, within the fuel, leaves it still breaking a rule, where the
   * source's loop goes on.
   */
  function Outcome(l: seq<nat>, rules: seq<Rule>, fuel: nat): Option<nat> {
    if AllOrdered(l, rules) then Some(0)
    else
      var t := Reorder(l, rules, fuel);
      if AllOrdered(t, rules) then Some(Middle(t)) else None
  }

  /** What Part2::run adds up; None when order runs out of fuel on some update. */
  function Part2(pages: seq<seq<nat>>, rules: seq<Rule>, fuel: nat): Option<nat> {
    SumSome(pages, l => Outcome(l, rules, fuel))
  }

  /** Part 2 has no answer exactly when order runs out of fuel on some update. */
  lemma {:induction false} Part2None(pages: seq<seq<nat>>, rules: seq<Rule>, fuel: nat)
    ensures Part2(pages, rules, fuel).None? <==>
            exists k :: 0 <= k < |pages| && !AllOrdered(Reorder(pages[k], rules, fuel), rules)
  {
    SumSomeNone(pages, l => Outcome(l, rules, fuel));
    forall k | 0 <= k < |pages|
      ensures Outcome(pages[k], rules, fuel).None? <==> !AllOrdered(Reorder(pages[k], rules, fuel), rules)
    {
      ReorderStops(pages[k], rules, fuel);
    }
  }

  /** Once part 2 has an answer, more fuel gives the same answer. */
  lemma {:induction false} Part2More(pages: seq<seq<nat>>, rules: seq<Rule>, fuel: nat, more: nat)
    requires Part2(pages, rules, fuel).Some? && fuel <= more
    ensures Part2(pages, rules, more) == Part2(pages, rules, fuel)
  {
    forall k | 0 <= k < |pages| && Outcome(pages[k], rules, fuel).Some?
      ensures Outcome(pages[k], rules, more) == Outcome(pages[k], rules, fuel)
    {
      if !AllOrdered(pages[k], rules) {
        ReorderMore(pages[k], rules, fuel, more);
      }
    }
    SumSomeSame(pages, l => Outcome(l, rules, fuel), l => Outcome(l, rules, more));
  }

  /**
   * The body of Part2::run's loop for one update: a broken update is copied,
   * ordered in place and gives its middle page.
   */
  method UpdateOutcome(l: seq<nat>, rules: seq<Rule>, fuel: nat) returns (o: Option<nat>)
    ensures o == Outcome(l, rules, fuel)
  {
    var ok := AllOrderedScan(l, rules);
    if ok {
      return Some(0);
    }
    var a := new nat[|l|](i requires 0 <= i < |l| => l[i]);
    assert a[..] == l;
    var ordered := Order(a, rules, fuel);
    if !ordered {
      return None;
    }
    o := Some(a[a.Length / 2]);
  }

  /**
   * Part2::run: copy each broken update, order it in place and add its
   * middle page; None as soon as order runs out of fuel.
   */
  method Run2(pages: seq<seq<nat>>, rules: seq<Rule>, fuel: nat) returns (r: Option<nat>)
    ensures r == Part2(pages, rules, fuel)
  {
    var v := 0;
    for k := 0 to |pages|
      invariant Part2(pages[..k], rules, fuel) == Some(v)
    {
      assert pages[..k + 1][..k] == pages[..k];
      var o := UpdateOutcome(pages[k], rules, fuel);
      if o.None? {
        SumSomeNone(pages, l => Outcome(l, rules, fuel));
        return None;
      }
      v := v + o.value;
    }
    assert pages[..|pages|] == pages;
    r := Some(v);
  }

  /** Part 2 adds nothing when every update already keeps every rule. */
  lemma {:induction false} Part2OnlyBroken(pages: seq<seq<nat>>, rules: seq<Rule>, fuel: nat)
    requires forall k :: 0 <= k < |pages| ==> AllOrdered(pages[k], rules)
    ensures Part2(pages, rules, fuel) == Some(0)
  {
    if |pages| > 0 {
      var front := pages[..|pages| - 1];
      assert forall k :: 0 <= k < |front| ==> front[k] == pages[k];
      Part2OnlyBroken(front, rules, fuel);
    }
  }
}
