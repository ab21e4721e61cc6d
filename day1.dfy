/**
 * src/bin/d1.rs: two lists of location ids. Part 1 sorts both lists,
 * pairs them up in order and adds the distances of the pairs; part 2
 * counts the ids of the right list and adds, over the left list, each
 * id times the number of times it occurs on the right.
 */
module Day1 {
  import opened Wrappers

  predicate Sorted(s: seq<nat>) {
    forall i, j :: 0 <= i < j < |s| ==> s[i] <= s[j]
  }

  /** Insert x into a sorted list, before the first larger element. */
  function Insert(x: nat, s: seq<nat>): (r: seq<nat>)
    requires Sorted(s)
    ensures Sorted(r) && multiset(r) == multiset(s) + multiset{x}
  {
    if |s| == 0 then [x]
    else if x <= s[0] then [x] + s
    else
      var rest := Insert(x, s[1..]);
      assert s == [s[0]] + s[1..];
      assert forall k :: 0 <= k < |rest| ==> s[0] <= rest[k] by {
        forall k | 0 <= k < |rest| ensures s[0] <= rest[k] {
          assert rest[k] in multiset(rest);
        }
      }
      [s[0]] + rest
  }

  /** `Vec::sort`: the list in ascending order. */
  function Sort(s: seq<nat>): (r: seq<nat>)
    ensures Sorted(r) && multiset(r) == multiset(s)
  {
    if |s| == 0 then []
    else
      assert s == s[..|s| - 1] + [s[|s| - 1]];
      Insert(s[|s| - 1], Sort(s[..|s| - 1]))
  }

  /** The head of a sorted list is its least element, and its tail is sorted. */
  lemma {:induction false} SortedHead(a: seq<nat>, x: nat)
    requires Sorted(a) && x in multiset(a)
    ensures a[0] <= x && Sorted(a[1..])
  {
    var i :| 0 <= i < |a| && a[i] == x;
    assert a[0] <= a[i];
  }

  /** Two sorted lists with the same elements are the same list. */
  lemma {:induction false} SortedUnique(a: seq<nat>, b: seq<nat>)
    requires Sorted(a) && Sorted(b) && multiset(a) == multiset(b)
    ensures a == b
  {
    if |a| > 0 {
      assert |b| == |a| by { assert |multiset(a)| == |multiset(b)|; }
      assert a[0] in multiset(a) && b[0] in multiset(b);
      SortedHead(a, b[0]);
      SortedHead(b, a[0]);
      var a', b' := a[1..], b[1..];
      assert a == [a[0]] + a' && b == [b[0]] + b';
      assert b[0] == a[0];
      calc {
        multiset(a');
        multiset(a) - multiset{a[0]};
        multiset(b) - multiset{b[0]};
        multiset(b');
      }
      SortedUnique(a', b');
    } else {
      assert |multiset(b)| == 0;
    }
  }

  /** The distance of two ids, `u32::abs_diff`. */
  function AbsDiff(x: nat, y: nat): nat {
    if x < y then y - x else x - y
  }

  /** The distances of the pairs zip forms, added up: zip stops at the shorter list. */
  function SumDistances(a: seq<nat>, b: seq<nat>): nat {
    if |a| == 0 || |b| == 0 then 0 else AbsDiff(a[0], b[0]) + SumDistances(a[1..], b[1..])
  }

  /**
   * _part1: sort both lists and add the distances of the pairs; `reduce`
   * on no pairs at all gives None, which the source unwraps.
   */
  function Part1(l1: seq<nat>, l2: seq<nat>): (r: Option<nat>)
    ensures r.None? <==> |l1| == 0 || |l2| == 0
  {
    var s1, s2 := Sort(l1), Sort(l2);
    if |s1| == 0 || |s2| == 0 then None else Some(SumDistances(s1, s2))
  }

  lemma {:induction false} SumDistancesSymmetric(a: seq<nat>, b: seq<nat>)
    ensures SumDistances(a, b) == SumDistances(b, a)
  {
    if |a| > 0 && |b| > 0 {
      SumDistancesSymmetric(a[1..], b[1..]);
    }
  }

  lemma {:induction false} SumDistancesSelf(a: seq<nat>)
    ensures SumDistances(a, a) == 0
  {
    if |a| > 0 {
      SumDistancesSelf(a[1..]);
    }
  }

  /** Only the ids matter to part 1, not the order in which the lists give them. */
  lemma {:induction false} Part1IgnoresOrder(l1: seq<nat>, l2: seq<nat>, m1: seq<nat>, m2: seq<nat>)
    requires multiset(l1) == multiset(m1) && multiset(l2) == multiset(m2)
    ensures Part1(l1, l2) == Part1(m1, m2)
  {
    SortedUnique(Sort(l1), Sort(m1));
    SortedUnique(Sort(l2), Sort(m2));
  }

  /** Part 1 does not depend on which list is left, and two lists with the same ids are at distance 0. */
  lemma {:induction false} Part1Distance(l1: seq<nat>, l2: seq<nat>)
    ensures Part1(l1, l2) == Part1(l2, l1)
    ensures |l1| > 0 && multiset(l1) == multiset(l2) ==> Part1(l1, l2) == Some(0)
  {
    SumDistancesSymmetric(Sort(l1), Sort(l2));
    if multiset(l1) == multiset(l2) {
      SortedUnique(Sort(l1), Sort(l2));
      SumDistancesSelf(Sort(l1));
    }
  }

  /** The count map part2 fills: `*counts.entry(s).or_insert(0) += 1` for every s of l2. */
  method Counts(l2: seq<nat>) returns (counts: map<nat, nat>)
    ensures forall s :: s in counts <==> s in l2
    ensures forall s :: s in counts ==> counts[s] == multiset(l2)[s]
  {
    counts := map[];
    for i := 0 to |l2|
      invariant forall s :: s in counts <==> s in l2[..i]
      invariant forall s :: s in counts ==> counts[s] == multiset(l2[..i])[s]
    {
      var s := l2[i];
      assert l2[..i + 1] == l2[..i] + [s];
      if s in counts {
        counts := counts[s := counts[s] + 1];
      } else {
        counts := counts[s := 1];
      }
    }
    assert l2[..|l2|] == l2;
  }

  /** The similarity score: each id of l1 times the number of its occurrences in l2. */
  function Similarity(l1: seq<nat>, l2: seq<nat>): nat {
    if |l1| == 0 then 0 else Similarity(l1[..|l1| - 1], l2) + l1[|l1| - 1] * multiset(l2)[l1[|l1| - 1]]
  }

  /** The sum over l1 read through the count map (`map_or(0, ...)` for an id l2 lacks). */
  function SimilarityFrom(l1: seq<nat>, counts: map<nat, nat>): nat {
    if |l1| == 0 then 0
    else
      var v := l1[|l1| - 1];
      SimilarityFrom(l1[..|l1| - 1], counts) + v * (if v in counts then counts[v] else 0)
  }

  lemma {:induction false} SimilarityFromCounts(l1: seq<nat>, l2: seq<nat>, counts: map<nat, nat>)
    requires forall s :: s in counts <==> s in l2
    requires forall s :: s in counts ==> counts[s] == multiset(l2)[s]
    ensures SimilarityFrom(l1, counts) == Similarity(l1, l2)
  {
    if |l1| > 0 {
      SimilarityFromCounts(l1[..|l1| - 1], l2, counts);
    }
  }

  /** part2. */
  method Part2(l1: seq<nat>, l2: seq<nat>) returns (r: nat)
    ensures r == Similarity(l1, l2)
  {
    var counts := Counts(l2);
    r := SimilarityFrom(l1, counts);
    SimilarityFromCounts(l1, l2, counts);
  }

  lemma {:induction false} Distribute(v: nat, p: nat, q: nat)
    ensures v * (p + q) == v * p + v * q
  {
  }

  /** The ids of b equal to x, added up. */
  lemma {:induction false} SimilarityOfOne(x: nat, b: seq<nat>)
    ensures Similarity(b, [x]) == x * multiset(b)[x]
  {
    if |b| > 0 {
      var b': seq<nat>, w: nat := b[..|b| - 1], b[|b| - 1];
      assert b == b' + [w];
      SimilarityOfOne(x, b');
      var xs: seq<nat> := [x];
      var one := multiset(xs)[w];
      assert Similarity(b, [x]) == x * multiset(b')[x] + w * one;
      if w == x {
        assert one == 1 && multiset(b)[x] == multiset(b')[x] + 1;
        Distribute(x, multiset(b')[x], 1);
      } else {
        assert one == 0 && multiset(b)[x] == multiset(b')[x];
      }
    }
  }

  lemma {:induction false} SimilarityAppendRight(a: seq<nat>, b: seq<nat>, x: nat)
    ensures Similarity(a, b + [x]) == Similarity(a, b) + Similarity(a, [x])
  {
    if |a| > 0 {
      SimilarityAppendRight(a[..|a| - 1], b, x);
      var v := a[|a| - 1];
      var xs: seq<nat> := [x];
      var p, q := multiset(b)[v], multiset(xs)[v];
      assert multiset(b + [x])[v] == p + q;
      Distribute(v, p, q);
    }
  }

  /** The similarity score is the same read from either list. */
  lemma {:induction false} SimilaritySymmetric(a: seq<nat>, b: seq<nat>)
    ensures Similarity(a, b) == Similarity(b, a)
  {
    if |a| > 0 {
      var a': seq<nat>, x: nat := a[..|a| - 1], a[|a| - 1];
      assert a == a' + [x];
      SimilaritySymmetric(a', b);
      SimilarityAppendRight(b, a', x);
      SimilarityOfOne(x, b);
      assert multiset(a)[x] == multiset(a')[x] + 1;
    } else {
      SimilarityNoIds(b);
    }
  }

  lemma {:induction false} SimilarityNoIds(b: seq<nat>)
    ensures Similarity(b, []) == 0
  {
    if |b| > 0 {
      SimilarityNoIds(b[..|b| - 1]);
    }
  }
}
