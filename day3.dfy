/**
 * src/d3.rs: the corrupted memory. Every `mul(a,b)` whose arguments are
 * two runs of decimal digits is an instruction; the answer is the sum of
 * the products.
 */
module Day3 {
  import opened Wrappers
  import opened Text

  const U32_MAX: nat := 0xFFFF_FFFF

  /** e ends the run of digits that starts at lo. */
  predicate RunEnd(s: string, lo: nat, e: nat) {
    lo <= e <= |s| && AllDigits(s[lo..e]) && (e < |s| ==> !IsDigit(s[e]))
  }

  lemma {:induction false} RunEndUnique(s: string, lo: nat, e1: nat, e2: nat)
    requires RunEnd(s, lo, e1) && RunEnd(s, lo, e2)
    ensures e1 == e2
  {
  }

  /**
   * s starts with `a,b)`, a and b runs of digits with values that fit a
   * u32, and n is the length of that text.
   */
  ghost predicate MulArgs(s: string, a: nat, b: nat, n: nat) {
    exists i :: ArgsSplit(s, a, b, n, i)
  }

  /** MulArgs with the position i of the comma. */
  predicate ArgsSplit(s: string, a: nat, b: nat, n: nat, i: nat) {
    0 < i && i + 1 < n - 1 < |s| && AllDigits(s[..i]) && s[i] == ',' && AllDigits(s[i + 1..n - 1]) && s[n - 1] == ')' &&
    a == DecimalValue(s[..i]) && b == DecimalValue(s[i + 1..n - 1]) && a <= U32_MAX && b <= U32_MAX
  }

  /** The arguments of a `mul(` are determined by the text that follows it. */
  lemma {:induction false} MulArgsUnique(s: string, a: nat, b: nat, n: nat, a': nat, b': nat, n': nat)
    requires MulArgs(s, a, b, n) && MulArgs(s, a', b', n')
    ensures a == a' && b == b' && n == n'
  {
    var i: nat :| ArgsSplit(s, a, b, n, i);
    var i': nat :| ArgsSplit(s, a', b', n', i');
    RunEndUnique(s, 0, i, i');
    RunEndUnique(s, i + 1, n - 1, n' - 1);
  }

  /** With the two digit runs found, MulArgs is a matter of the characters that end them. */
  lemma {:induction false} MulArgsFromRuns(s: string, i: nat, j: nat, a: nat, b: nat, n: nat)
    requires RunEnd(s, 0, i) && (i + 1 < |s| ==> RunEnd(s, i + 1, j))
    ensures MulArgs(s, a, b, n) <==>
      0 < i && i + 1 < |s| && s[i] == ',' && i + 1 < j < |s| && s[j] == ')' && n == j + 1 &&
      a == DecimalValue(s[..i]) && b == DecimalValue(s[i + 1..j]) && a <= U32_MAX && b <= U32_MAX
  {
    if MulArgs(s, a, b, n) {
      var k: nat :| ArgsSplit(s, a, b, n, k);
      RunEndUnique(s, 0, i, k);
      RunEndUnique(s, i + 1, j, n - 1);
    }
    if 0 < i && i + 1 < |s| && s[i] == ',' && i + 1 < j < |s| && s[j] == ')' && n == j + 1 &&
       a == DecimalValue(s[..i]) && b == DecimalValue(s[i + 1..j]) && a <= U32_MAX && b <= U32_MAX {
      assert ArgsSplit(s, a, b, n, i);
    }
  }

  /** `while j < s.len() && bytes[j].is_ascii_digit() { j += 1 }` */
  method ScanDigits(s: string, lo: nat) returns (e: nat)
    requires lo <= |s|
    ensures RunEnd(s, lo, e)
  {
    e := lo;
    while e < |s| && IsDigit(s[e])
      invariant lo <= e <= |s| && AllDigits(s[lo..e])
    {
      assert s[lo..e + 1] == s[lo..e] + [s[e]];
      e := e + 1;
    }
  }

  /**
   * parse_args: the text after a `mul(`. Some((a, b, n)) when it starts
   * with `a,b)` of length n; None when it does not, or when a value does
   * not fit a u32.
   */
  method ParseArgs(s: string) returns (r: Option<(nat, nat, nat)>)
    ensures r.Some? ==> MulArgs(s, r.value.0, r.value.1, r.value.2)
    ensures r.None? ==> forall a: nat, b: nat, n: nat :: !MulArgs(s, a, b, n)
  {
    var i := ScanDigits(s, 0);
    var j := i;
    if i + 1 < |s| {
      j := ScanDigits(s, i + 1);
    }
    var op1 := ParseUnsigned(s[0..i], U32_MAX);
    if op1.Some? && i + 1 < |s| && s[i] == ',' {
      if j < |s| && s[j] == ')' {
        var op2 := ParseUnsigned(s[i + 1..j], U32_MAX);
        if op2.Some? {
          MulArgsFromRuns(s, i, j, op1.value, op2.value, j + 1);
          return Some((op1.value, op2.value, j + 1));
        }
      }
    }
    forall a: nat, b: nat, n: nat ensures !MulArgs(s, a, b, n) {
      MulArgsFromRuns(s, i, j, a, b, n);
    }
    return None;
  }

  /** Some well-formed arguments start s. */
  ghost predicate HasArgs(s: string) {
    exists a: nat, b: nat, n: nat :: MulArgs(s, a, b, n)
  }

  /** The arguments that start s. */
  ghost function ArgsOf(s: string): (r: (nat, nat, nat))
    requires HasArgs(s)
    ensures MulArgs(s, r.0, r.1, r.2)
  {
    var a: nat, b: nat, n: nat :| MulArgs(s, a, b, n);
    (a, b, n)
  }

  /** The operands of every instruction at or after position p, left to right. */
  ghost function Instructions(line: string, p: nat): seq<(nat, nat)>
    decreases |line| - p
  {
    if p >= |line| then []
    else if OccursAt(line, "mul(", p) && HasArgs(line[p + 4..]) then
      var (a, b, _) := ArgsOf(line[p + 4..]);
      [(a, b)] + Instructions(line, p + 1)
    else Instructions(line, p + 1)
  }

  /** No instruction starts between lo and hi. */
  lemma {:induction false} NoneBetween(line: string, lo: nat, hi: nat)
    requires lo <= hi
    requires forall q :: lo <= q < hi ==> !OccursAt(line, "mul(", q)
    ensures Instructions(line, lo) == Instructions(line, hi)
    decreases hi - lo
  {
    if lo < hi {
      NoneBetween(line, lo + 1, hi);
    }
  }

  /** The text of a well-formed instruction holds no other `mul(`. */
  lemma {:induction false} InsideInstruction(line: string, p: nat, a: nat, b: nat, n: nat, q: nat)
    requires OccursAt(line, "mul(", p) && MulArgs(line[p + 4..], a, b, n)
    requires p < q < p + 4 + n
    ensures !OccursAt(line, "mul(", q)
  {
    var s := line[p + 4..];
    var i: nat :| ArgsSplit(s, a, b, n, i);
    assert line[p..p + 4] == "mul(";
    if q < p + 4 {
      assert line[q] == "mul("[q - p];
    } else {
      var k := q - p - 4;
      assert line[q] == s[k];
      if k < i {
        assert s[..i][k] == s[k];
      } else if i < k < n - 1 {
        assert s[i + 1..n - 1][k - i - 1] == s[k];
      }
    }
  }

  /** After a well-formed instruction at p the scan resumes behind its `)`. */
  lemma {:induction false} ResumeAfter(line: string, p: nat, a: nat, b: nat, n: nat)
    requires OccursAt(line, "mul(", p) && MulArgs(line[p + 4..], a, b, n)
    ensures p + 4 + n <= |line|
    ensures Instructions(line, p) == [(a, b)] + Instructions(line, p + 4 + n)
  {
    var i: nat :| ArgsSplit(line[p + 4..], a, b, n, i);
    forall q | p + 1 <= q < p + 4 + n ensures !OccursAt(line, "mul(", q) {
      InsideInstruction(line, p, a, b, n, q);
    }
    NoneBetween(line, p + 1, p + 4 + n);
    assert HasArgs(line[p + 4..]);
    var c := ArgsOf(line[p + 4..]);
    MulArgsUnique(line[p + 4..], a, b, n, c.0, c.1, c.2);
    assert Instructions(line, p) == [(c.0, c.1)] + Instructions(line, p + 1);
  }

  /** After a `mul(` without well-formed arguments the scan resumes right behind it. */
  lemma {:induction false} ResumeInside(line: string, p: nat)
    requires OccursAt(line, "mul(", p) && !HasArgs(line[p + 4..])
    ensures Instructions(line, p) == Instructions(line, p + 4)
  {
    assert line[p..p + 4] == "mul(";
    forall q | p + 1 <= q < p + 4 ensures !OccursAt(line, "mul(", q) {
      assert line[q] == "mul("[q - p];
    }
    NoneBetween(line, p + 1, p + 4);
  }

  /** An occurrence of pat in line[start..] is one in line, shifted by start. */
  lemma {:induction false} OccursShifted(line: string, start: nat, j: nat)
    requires start <= |line|
    ensures OccursAt(line[start..], "mul(", j) <==> OccursAt(line, "mul(", start + j)
  {
    if start + j + 4 <= |line| {
      assert line[start..][j..j + 4] == line[start + j..start + j + 4];
    }
  }

  /** No `mul(` in line[start..]: none in line from start on. */
  lemma {:induction false} NoMulAfter(line: string, start: nat)
    requires start <= |line| && Find(line[start..], "mul(").None?
    ensures forall q :: start <= q <= |line| ==> !OccursAt(line, "mul(", q)
  {
    FindSpec(line[start..], "mul(");
    forall q | start <= q <= |line| ensures !OccursAt(line, "mul(", q) {
      OccursShifted(line, start, q - start);
    }
  }

  /** The first `mul(` in line[start..] at j: in line, the first one from start on is at start + j. */
  lemma {:induction false} MulAfter(line: string, start: nat, j: nat)
    requires start <= |line| && Find(line[start..], "mul(") == Some(j)
    ensures OccursAt(line, "mul(", start + j)
    ensures forall q :: start <= q < start + j ==> !OccursAt(line, "mul(", q)
  {
    FindSpec(line[start..], "mul(");
    OccursShifted(line, start, j);
    forall q | start <= q < start + j ensures !OccursAt(line, "mul(", q) {
      OccursShifted(line, start, q - start);
    }
  }

  /** Taking one element x off the front of what is left keeps the whole. */
  lemma {:induction false} AppendStep<T>(v: seq<T>, x: T, tail: seq<T>, mid: seq<T>, all: seq<T>)
    requires v + mid == all && mid == [x] + tail
    ensures (v + [x]) + tail == all
  {
    assert (v + [x]) + tail == v + ([x] + tail);
  }

  /** `line[start..].find("mul(")`, as a position in line. */
  method FindMul(line: string, start: nat) returns (p: Option<nat>)
    requires start <= |line|
    ensures p.None? ==> forall q :: start <= q <= |line| ==> !OccursAt(line, "mul(", q)
    ensures p.Some? ==> start <= p.value && OccursAt(line, "mul(", p.value) &&
                        forall q :: start <= q < p.value ==> !OccursAt(line, "mul(", q)
  {
    var found := Find(line[start..], "mul(");
    if found.None? {
      NoMulAfter(line, start);
      return None;
    }
    MulAfter(line, start, found.value);
    return Some(start + found.value);
  }

  /**
   * One round of parse_line after a well-formed instruction at p, the first
   * `mul(` from start on, with v found so far: the scan resumes behind its
   * `)` with it added to v.
   */
  lemma {:induction false} RoundSome(line: string, start: nat, p: nat, a: nat, b: nat, n: nat,
                                     v: seq<(nat, nat)>, all: seq<(nat, nat)>)
    requires start <= p && OccursAt(line, "mul(", p) && forall q :: start <= q < p ==> !OccursAt(line, "mul(", q)
    requires v + Instructions(line, start) == all && MulArgs(line[p + 4..], a, b, n)
    ensures p + 4 + n <= |line| && (v + [(a, b)]) + Instructions(line, p + 4 + n) == all
  {
    NoneBetween(line, start, p);
    ResumeAfter(line, p, a, b, n);
    AppendStep(v, (a, b), Instructions(line, p + 4 + n), Instructions(line, start), all);
  }

  /**
   * One round of parse_line after a `mul(` at p, the first from start on,
   * without well-formed arguments: the scan resumes right behind it.
   */
  lemma {:induction false} RoundNone(line: string, start: nat, p: nat, v: seq<(nat, nat)>, all: seq<(nat, nat)>)
    requires start <= p && OccursAt(line, "mul(", p) && forall q :: start <= q < p ==> !OccursAt(line, "mul(", q)
    requires v + Instructions(line, start) == all && !HasArgs(line[p + 4..])
    ensures p + 4 <= |line| && v + Instructions(line, p + 4) == all
  {
    NoneBetween(line, start, p);
    ResumeInside(line, p);
  }

  /** With no `mul(` left from start on, v already holds every instruction. */
  lemma {:induction false} NoneLeft(line: string, start: nat, v: seq<(nat, nat)>, all: seq<(nat, nat)>)
    requires start <= |line| && forall q :: start <= q <= |line| ==> !OccursAt(line, "mul(", q)
    requires v + Instructions(line, start) == all
    ensures v == all
  {
    NoneBetween(line, start, |line|);
    assert Instructions(line, start) == [];
  }

  /**
   * parse_line: find each `mul(` in turn; after a well-formed one resume
   * behind its `)`, otherwise right behind the `mul(`. The result is every
   * instruction of the line, in order.
   */
  method ParseLine(line: string) returns (v: seq<(nat, nat)>)
    ensures v == Instructions(line, 0)
  {
    v := [];
    var start: nat := 0;
    ghost var all := Instructions(line, 0);
    while true
      invariant start <= |line| && v + Instructions(line, start) == all
      decreases |line| - start
    {
      var done;
      done, v, start := ParseRound(line, start, v, all);
      if done {
        return;
      }
    }
  }

  /**
   * One round of parse_line's loop from start, with v found so far: either
   * no `mul(` is left and v is complete, or the scan moves on behind the
   * next `mul(` with what it found added to v.
   */
  method ParseRound(line: string, start: nat, v: seq<(nat, nat)>, ghost all: seq<(nat, nat)>)
    returns (done: bool, v': seq<(nat, nat)>, start': nat)
    requires start <= |line| && v + Instructions(line, start) == all
    ensures done ==> v' == all
    ensures !done ==> start < start' <= |line| && v' + Instructions(line, start') == all
  {
    var found := FindMul(line, start);
    if found.None? {
      NoneLeft(line, start, v, all);
      return true, v, start;
    }
    var p := found.value;
    var args := ParseArgs(line[p + 4..]);
    if args.Some? {
      var a, b, n := args.value.0, args.value.1, args.value.2;
      RoundSome(line, start, p, a, b, n, v, all);
      return false, v + [(a, b)], p + 4 + n;
    } else {
      assert !HasArgs(line[p + 4..]);
      RoundNone(line, start, p, v, all);
      return false, v, p + 4;
    }
  }

  /** The text an instruction's arguments take: it ends with `)`, within s, and both values fit a u32. */
  lemma {:induction false} MulArgsShape(s: string, a: nat, b: nat, n: nat)
    requires MulArgs(s, a, b, n)
    ensures 4 <= n <= |s| && s[n - 1] == ')' && a <= U32_MAX && b <= U32_MAX
  {
    var i: nat :| ArgsSplit(s, a, b, n, i);
  }

  /** The operands of every instruction fit a u32. */
  lemma {:induction false} InstructionsFit(line: string, p: nat)
    ensures forall k :: 0 <= k < |Instructions(line, p)| ==>
      Instructions(line, p)[k].0 <= U32_MAX && Instructions(line, p)[k].1 <= U32_MAX
    decreases |line| - p
  {
    if p < |line| {
      InstructionsFit(line, p + 1);
      if OccursAt(line, "mul(", p) && HasArgs(line[p + 4..]) {
        var c := ArgsOf(line[p + 4..]);
        MulArgsShape(line[p + 4..], c.0, c.1, c.2);
      }
    }
  }

  /** The answer: the sum of the products of the operands. */
  function SumProducts(v: seq<(nat, nat)>): nat {
    if |v| == 0 then 0 else SumProducts(v[..|v| - 1]) + v[|v| - 1].0 * v[|v| - 1].1
  }

  /** The sum over two lists of instructions one after the other. */
  lemma {:induction false} SumProductsAppend(v: seq<(nat, nat)>, w: seq<(nat, nat)>)
    ensures SumProducts(v + w) == SumProducts(v) + SumProducts(w)
  {
    if |w| > 0 {
      var w' := w[..|w| - 1];
      assert (v + w)[..|v + w| - 1] == v + w';
      SumProductsAppend(v, w');
    } else {
      assert v + w == v;
    }
  }

  /** main: the products of the instructions of the memory, added up. */
  method Answer(line: string) returns (r: nat)
    ensures r == SumProducts(Instructions(line, 0))
  {
    var v := ParseLine(line);
    r := 0;
    for k := 0 to |v|
      invariant r == SumProducts(v[..k])
    {
      SumProductsNext(v, k);
      r := r + v[k].0 * v[k].1;
    }
    assert v[..|v|] == v;
  }

  lemma {:induction false} SumProductsNext(v: seq<(nat, nat)>, k: nat)
    requires k < |v|
    ensures SumProducts(v[..k + 1]) == SumProducts(v[..k]) + v[k].0 * v[k].1
  {
    assert v[..k + 1][..k] == v[..k];
  }
}
