/**
 * src/d2.rs: reactor reports. A report is safe when its levels all rise
 * or all fall, by 1 to 3 at each step; part 2 also accepts a report that
 * becomes safe once a single level is removed.
 */
module Day2 {
  import opened Wrappers

  /** i32::MAX: the windows convert each level with `try_into().unwrap()`. */
  const I32_MAX: nat := 0x7FFF_FFFF

  predicate Fits(levels: seq<nat>) {
    forall i :: 0 <= i < |levels| ==> levels[i] <= I32_MAX
  }

  /** Every step from one level to the next rises by 1 to 3. */
  predicate Rising(levels: seq<nat>) {
    forall i :: 0 <= i < |levels| - 1 ==> 0 < levels[i + 1] as int - levels[i] <= 3
  }

  /** Every step from one level to the next falls by 1 to 3. */
  predicate Falling(levels: seq<nat>) {
    forall i :: 0 <= i < |levels| - 1 ==> 0 < levels[i] as int - levels[i + 1] <= 3
  }

  /** `levels.windows(2).all(...)` with the closure of the rising branch. */
  function AllWindowsRise(levels: seq<nat>): bool {
    if |levels| < 2 then true
    else 0 < levels[1] as int - levels[0] <= 3 && AllWindowsRise(levels[1..])
  }

  function AllWindowsFall(levels: seq<nat>): bool {
    if |levels| < 2 then true
    else 0 < levels[0] as int - levels[1] <= 3 && AllWindowsFall(levels[1..])
  }

  lemma {:induction false} AllWindowsRiseMeans(levels: seq<nat>)
    ensures AllWindowsRise(levels) <==> Rising(levels)
  {
    if |levels| >= 2 {
      AllWindowsRiseMeans(levels[1..]);
      assert forall i :: 0 < i < |levels| - 1 ==> levels[i] == levels[1..][i - 1];
    }
  }

  lemma {:induction false} AllWindowsFallMeans(levels: seq<nat>)
    ensures AllWindowsFall(levels) <==> Falling(levels)
  {
    if |levels| >= 2 {
      AllWindowsFallMeans(levels[1..]);
      assert forall i :: 0 < i < |levels| - 1 ==> levels[i] == levels[1..][i - 1];
    }
  }

  function AbsDiff(x: nat, y: nat): nat {
    if x < y then y - x else x - y
  }

  /**
   * Part1::is_safe: the first two levels fix the direction and must differ
   * by 1 to 3; the windows of the rest must keep to it. Fewer than two
   * levels panic.
   */
  function IsSafe1(levels: seq<nat>): (b: bool)
    requires |levels| >= 2 && Fits(levels)
  {
    if AbsDiff(levels[0], levels[1]) == 0 || AbsDiff(levels[0], levels[1]) > 3 then false
    else if levels[0] < levels[1] then AllWindowsRise(levels[1..])
    else AllWindowsFall(levels[1..])
  }

  /** A report is safe exactly when it rises all the way or falls all the way, by 1 to 3 each step. */
  lemma {:induction false} IsSafe1Means(levels: seq<nat>)
    requires |levels| >= 2 && Fits(levels)
    ensures IsSafe1(levels) <==> Rising(levels) || Falling(levels)
  {
    var rest := levels[1..];
    assert forall i :: 0 < i < |levels| ==> levels[i] == rest[i - 1];
    if levels[0] < levels[1] {
      AllWindowsRiseMeans(rest);
    } else {
      AllWindowsFallMeans(rest);
    }
  }

  /** The report without its level i. */
  function Without(levels: seq<nat>, i: nat): (r: seq<nat>)
    requires i < |levels|
    ensures |r| == |levels| - 1
    ensures forall k :: 0 <= k < |r| ==> r[k] == if k < i then levels[k] else levels[k + 1]
    ensures Fits(levels) ==> Fits(r)
  {
    levels[..i] + levels[i + 1..]
  }

  /** `dst[at..at + src.len()].copy_from_slice(src)` */
  method CopyFromSlice(dst: array<nat>, at: nat, src: seq<nat>)
    requires at + |src| <= dst.Length
    modifies dst
    ensures dst[..] == old(dst[..at]) + src + old(dst[at + |src|..])
  {
    for k := 0 to |src|
      invariant dst[..] == old(dst[..at]) + src[..k] + old(dst[at + k..])
    {
      dst[at + k] := src[k];
      assert src[..k + 1] == src[..k] + [src[k]];
    }
    assert src[..|src|] == src;
  }

  /**
   * Part2::is_safe, with None for its panics: a report of fewer than two
   * levels makes Part1::is_safe panic at once, and a two-level report that
   * is not safe as it is leaves a buffer v of one level, on which the first
   * Part1::is_safe(&v) panics. Otherwise the report is safe as it is or
   * once some level i is removed.
   */
  function Safe2(levels: seq<nat>): Option<bool>
    requires Fits(levels)
  {
    if |levels| < 2 then None
    else if IsSafe1(levels) then Some(true)
    else if |levels| == 2 then None
    else Some(exists i :: 0 <= i < |levels| && IsSafe1(Without(levels, i)))
  }

  /**
   * Part2::is_safe: safe as it is, or safe once some level i is removed,
   * trying each i in turn in the buffer v of one level less.
   */
  method IsSafe2(levels: seq<nat>) returns (r: Option<bool>)
    requires Fits(levels)
    ensures r == Safe2(levels)
  {
    if |levels| < 2 {
      return None;
    }
    if IsSafe1(levels) {
      return Some(true);
    }
    var v := new nat[|levels| - 1](_ => 0);
    for i := 0 to |levels|
      invariant forall j :: 0 <= j < i ==> |levels| >= 3 && !IsSafe1(Without(levels, j))
    {
      CopyFromSlice(v, 0, levels[..i]);
      CopyFromSlice(v, i, levels[i + 1..]);
      assert v[..] == Without(levels, i);
      if v.Length < 2 {
        return None;
      }
      if IsSafe1(v[..]) {
        return Some(true);
      }
    }
    ghost var w0 := Without(levels, 0);
    assert |levels| >= 3 && !IsSafe1(w0);
    return Some(false);
  }

  /** What the puzzle calls a safe report: it rises all the way or falls all the way, by 1 to 3 per step. */
  predicate Safe(levels: seq<nat>) {
    Rising(levels) || Falling(levels)
  }

  /**
   * Part1::is_safe with the length check corrected: a report of fewer than
   * two levels has no step, so it is safe instead of a panic.
   */
  function Safe1Fixed(levels: seq<nat>): (b: bool)
    requires Fits(levels)
    ensures b <==> Safe(levels)
  {
    if |levels| < 2 then true
    else
      IsSafe1Means(levels);
      IsSafe1(levels)
  }

  /**
   * Part2::is_safe on the corrected Part1::is_safe: safe as it is or once
   * one level is removed. A report of at most two levels always is.
   */
  function Safe2Fixed(levels: seq<nat>): (b: bool)
    requires Fits(levels)
    ensures b <==> Safe(levels) || exists i :: 0 <= i < |levels| && Safe(Without(levels, i))
    ensures |levels| <= 2 ==> b
  {
    assert 1 <= |levels| <= 2 ==> Safe1Fixed(Without(levels, 0));
    Safe1Fixed(levels) || exists i :: 0 <= i < |levels| && Safe1Fixed(Without(levels, i))
  }

  /**
   * Where Part2::is_safe answers, it answers as the corrected test does;
   * it panics exactly on a report of fewer than two levels and on an
   * unsafe report of two.
   */
  lemma {:induction false} Safe2AsWritten(levels: seq<nat>)
    requires Fits(levels)
    ensures Safe2(levels).Some? ==> Safe2(levels).value == Safe2Fixed(levels)
    ensures Safe2(levels).None? <==> |levels| < 2 || (|levels| == 2 && !Safe(levels))
  {
    if |levels| >= 2 {
      IsSafe1Means(levels);
      if |levels| >= 3 {
        forall i | 0 <= i < |levels| ensures IsSafe1(Without(levels, i)) == Safe1Fixed(Without(levels, i)) {
        }
      }
    }
  }

  /** The report `1 5` panics instead of counting as safe once a level is removed; so does `7`. */
  lemma {:induction false} ShortReportsPanic()
    ensures Fits([1, 5]) && Safe2([1, 5]) == None && Safe2Fixed([1, 5])
    ensures Fits([7]) && Safe2([7]) == None && Safe2Fixed([7])
  {
    var r := [1, 5];
    assert !IsSafe1(r);
  }

  /** Part 2 accepts every report part 1 accepts. */
  lemma {:induction false} Part2Accepts(levels: seq<nat>)
    requires |levels| >= 3 && Fits(levels)
    ensures IsSafe1(levels) ==> IsSafe1(Without(levels, 0))
  {
    IsSafe1Means(levels);
    IsSafe1Means(Without(levels, 0));
    var w := Without(levels, 0);
    assert w == levels[1..];
    assert forall i :: 0 <= i < |w| ==> w[i] == levels[i + 1];
  }

  predicate AllFit(reports: seq<seq<nat>>) {
    forall k :: 0 <= k < |reports| ==> Fits(reports[k])
  }

  /** Part1::run: the reports Part1::is_safe accepts; None when one has fewer than two levels and is_safe panics. */
  function CountSafe1(reports: seq<seq<nat>>): (r: Option<nat>)
    requires AllFit(reports)
    ensures r.None? <==> exists k :: 0 <= k < |reports| && |reports[k]| < 2
    ensures r.Some? ==> r.value <= |reports|
  {
    if |reports| == 0 then Some(0)
    else
      var last := reports[|reports| - 1];
      assert forall k :: 0 <= k < |reports| - 1 ==> reports[..|reports| - 1][k] == reports[k];
      match CountSafe1(reports[..|reports| - 1])
      case None => None
      case Some(n) => if |last| < 2 then None else Some(n + if IsSafe1(last) then 1 else 0)
  }

  /** Part 1 counts every report exactly when every report has two levels or more and is safe. */
  lemma {:induction false} CountSafe1All(reports: seq<seq<nat>>)
    requires AllFit(reports)
    ensures CountSafe1(reports) == Some(|reports|) <==>
      forall k :: 0 <= k < |reports| ==> |reports[k]| >= 2 && Safe(reports[k])
  {
    if |reports| > 0 {
      var last := reports[|reports| - 1];
      var front := reports[..|reports| - 1];
      assert forall k :: 0 <= k < |reports| - 1 ==> front[k] == reports[k];
      CountSafe1All(front);
      if |last| >= 2 {
        IsSafe1Means(last);
      }
    }
  }

  /** Part2::run: the reports Part2::is_safe accepts; None when it panics on one of them. */
  function CountSafe2(reports: seq<seq<nat>>): (r: Option<nat>)
    requires AllFit(reports)
    ensures r.None? <==> exists k :: 0 <= k < |reports| && Safe2(reports[k]).None?
    ensures r.Some? ==> r.value <= |reports|
  {
    if |reports| == 0 then Some(0)
    else
      var last := reports[|reports| - 1];
      assert forall k :: 0 <= k < |reports| - 1 ==> reports[..|reports| - 1][k] == reports[k];
      match CountSafe2(reports[..|reports| - 1])
      case None => None
      case Some(n) =>
        match Safe2(last)
        case None => None
        case Some(b) => Some(n + if b then 1 else 0)
  }

  /** The reports the corrected part 2 test accepts. */
  function CountFixed(reports: seq<seq<nat>>): (n: nat)
    requires AllFit(reports)
    ensures n <= |reports|
  {
    if |reports| == 0 then 0
    else CountFixed(reports[..|reports| - 1]) + if Safe2Fixed(reports[|reports| - 1]) then 1 else 0
  }

  /** When Part2::run does not panic, it counts the reports the corrected test accepts. */
  lemma {:induction false} CountSafe2Fixed(reports: seq<seq<nat>>)
    requires AllFit(reports)
    ensures CountSafe2(reports).Some? ==> CountSafe2(reports).value == CountFixed(reports)
  {
    if |reports| > 0 {
      var front := reports[..|reports| - 1];
      assert forall k :: 0 <= k < |reports| - 1 ==> front[k] == reports[k];
      CountSafe2Fixed(front);
      Safe2AsWritten(reports[|reports| - 1]);
    }
  }

  /** Part2::run: the reports Part2::is_safe accepts, in order, until one panics. */
  method Run2(reports: seq<seq<nat>>) returns (r: Option<nat>)
    requires AllFit(reports)
    ensures r == CountSafe2(reports)
  {
    var n := 0;
    for k := 0 to |reports|
      invariant CountSafe2(reports[..k]) == Some(n)
    {
      var safe := IsSafe2(reports[k]);
      assert reports[..k + 1][..k] == reports[..k];
      if safe.None? {
        PanicStays(reports, k + 1);
        return None;
      }
      if safe.value {
        n := n + 1;
      }
    }
    assert reports[..|reports|] == reports;
    return Some(n);
  }

  /** A panic on one of the first k reports is a panic of the whole run. */
  lemma {:induction false} PanicStays(reports: seq<seq<nat>>, k: nat)
    requires AllFit(reports) && k <= |reports| && CountSafe2(reports[..k]).None?
    ensures CountSafe2(reports).None?
  {
    var j :| 0 <= j < k && Safe2(reports[..k][j]).None?;
    assert reports[..k][j] == reports[j];
  }

  /** Where both parts answer, part 2 counts at least the reports part 1 counts. */
  lemma {:induction false} CountSafe2AtLeast(reports: seq<seq<nat>>)
    requires AllFit(reports)
    ensures CountSafe1(reports).Some? && CountSafe2(reports).Some? ==>
      CountSafe1(reports).value <= CountSafe2(reports).value
  {
    if |reports| > 0 {
      var front := reports[..|reports| - 1];
      assert forall k :: 0 <= k < |reports| - 1 ==> front[k] == reports[k];
      CountSafe2AtLeast(front);
    }
  }
}
