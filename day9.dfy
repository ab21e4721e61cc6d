/**
 * src/bin/d9.rs: disk compaction. The disk map is a string of digits that
 * alternately give the length of a file and the length of a gap; file k
 * is drawn as its id k repeated, a gap as u16::MAX. Part 1 moves single
 * cells from the end into the first gap; part 2 moves whole files into
 * the leftmost gap that is large enough, with the gaps kept in nine
 * min-heaps by length.
 */
module Day9 {
  import opened Wrappers
  import opened Text

  /** u16::MAX marks a free cell. */
  const FREE: nat := 65535

  predicate Used(v: nat) {
    v != FREE
  }

  function Repeat(n: nat, v: nat): (r: seq<nat>)
    ensures |r| == n && forall k :: 0 <= k < n ==> r[k] == v
  {
    seq(n, k => v)
  }

  /** The cells digit i of the map stands for: file i/2 at even positions, free cells at odd ones. */
  function Block(s: string, i: nat): (r: seq<nat>)
    requires AllDigits(s) && i < |s|
    ensures |r| == DigitValue(s[i])
  {
    Repeat(DigitValue(s[i]), if i % 2 == 0 then i / 2 else FREE)
  }

  /** The disk the map describes. */
  function Expanded(s: string): seq<nat>
    requires AllDigits(s)
  {
    if |s| == 0 then [] else Expanded(s[..|s| - 1]) + Block(s, |s| - 1)
  }

  function DigitSum(s: string): nat
    requires AllDigits(s)
  {
    if |s| == 0 then 0 else DigitSum(s[..|s| - 1]) + DigitValue(s[|s| - 1])
  }

  /** The disk is as long as the digits add up to. */
  lemma {:induction false} ExpandedLength(s: string)
    requires AllDigits(s)
    ensures |Expanded(s)| == DigitSum(s)
  {
    if |s| > 0 {
      ExpandedLength(s[..|s| - 1]);
    }
  }

  /** File j occupies as many cells as digit 2j says, and every other cell is free or another file. */
  lemma {:induction false} ExpandedCounts(s: string, j: nat)
    requires AllDigits(s) && |s| < 2 * FREE
    ensures 2 * j < |s| ==> multiset(Expanded(s))[j] == DigitValue(s[2 * j])
    ensures 2 * j >= |s| && j != FREE ==> multiset(Expanded(s))[j] == 0
  {
    if |s| > 0 {
      var front := s[..|s| - 1];
      ExpandedCounts(front, j);
      var i := |s| - 1;
      var b := Block(s, i);
      assert multiset(Expanded(s)) == multiset(Expanded(front)) + multiset(b);
      var v := if i % 2 == 0 then i / 2 else FREE;
      RepeatCount(DigitValue(s[i]), v, j);
      if 2 * j < |s| - 1 {
        assert s[2 * j] == front[2 * j];
      }
    }
  }

  lemma {:induction false} RepeatCount(n: nat, v: nat, x: nat)
    ensures multiset(Repeat(n, v))[x] == if x == v then n else 0
  {
    if n > 0 {
      assert Repeat(n, v) == Repeat(n - 1, v) + [v];
      RepeatCount(n - 1, v, x);
    } else {
      assert Repeat(n, v) == [];
    }
  }

  /**
   * The expansion loop of part1: for every digit, push that many copies of
   * the next file id or of the free mark.
   */
  method Expand(input: string, data0: seq<nat>) returns (data: seq<nat>)
    requires AllDigits(input)
    ensures data == data0 + Expanded(input)
  {
    var inSkip := false;
    var nextId: nat := 0;
    data := data0;
    for i := 0 to |input|
      invariant data == data0 + Expanded(input[..i])
      invariant inSkip == (i % 2 == 1) && nextId == (i + 1) / 2
    {
      var n := DigitValue(input[i]);
      var v := if inSkip then FREE else nextId;
      ghost var before := data;
      for k := 0 to n
        invariant data == before + Repeat(k, v)
      {
        assert Repeat(k + 1, v) == Repeat(k, v) + [v];
        data := data + [v];
      }
      if !inSkip {
        nextId := nextId + 1;
      }
      inSkip := !inSkip;
      assert input[..i + 1][..i] == input[..i];
      assert Block(input[..i + 1], i) == Repeat(n, v);
    }
    assert input[..|input|] == input;
  }

  /** The first free cell at or after i. */
  function ScanUp(s: seq<nat>, i: nat): (j: nat)
    requires exists k :: i <= k < |s| && s[k] == FREE
    ensures i <= j < |s| && s[j] == FREE && forall k :: i <= k < j ==> Used(s[k])
    decreases |s| - i
  {
    if s[i] == FREE then i
    else
      assert exists k :: i + 1 <= k < |s| && s[k] == FREE by {
        var k :| i <= k < |s| && s[k] == FREE;
        assert k != i;
      }
      ScanUp(s, i + 1)
  }

  /** The last used cell at or before i. */
  function ScanDown(s: seq<nat>, i: nat): (j: nat)
    requires i < |s| && exists k :: 0 <= k <= i && Used(s[k])
    ensures j <= i && Used(s[j]) && forall k :: j < k <= i ==> !Used(s[k])
    decreases i
  {
    if Used(s[i]) then i
    else
      assert exists k :: 0 <= k <= i - 1 && Used(s[k]) by {
        var k :| 0 <= k <= i && Used(s[k]);
        assert k != i;
      }
      ScanDown(s, i - 1)
  }

  /**
   * What the compaction loop needs to stay inside the disk: first_free is a
   * free cell and some used cell lies at or before last_used.
   */
  predicate CompactInv(s: seq<nat>, ff: nat, lu: nat) {
    ff < |s| && lu < |s| && s[ff] == FREE && exists k :: 0 <= k <= lu && Used(s[k])
  }

  function Swap(s: seq<nat>, i: nat, j: nat): (t: seq<nat>)
    requires i < |s| && j < |s|
    ensures |t| == |s| && t[i] == s[j] && t[j] == s[i]
    ensures forall k :: 0 <= k < |s| && k != i && k != j ==> t[k] == s[k]
    ensures multiset(t) == multiset(s)
  {
    s[i := s[j]][j := s[i]]
  }

  /** One round of the loop: the swap and the two scans. */
  function CompactStep(s: seq<nat>, ff: nat, lu: nat): (r: (seq<nat>, nat, nat))
    requires CompactInv(s, ff, lu) && ff < lu
    ensures CompactInv(r.0, r.1, r.2) && r.2 < lu && multiset(r.0) == multiset(s)
  {
    var t := Swap(s, ff, lu);
    assert t[lu] == FREE;
    var ff' := ScanUp(t, ff + 1);
    assert exists k :: 0 <= k <= lu - 1 && Used(t[k]) by {
      if Used(s[lu]) {
        assert Used(t[ff]);
      } else {
        var k :| 0 <= k <= lu && Used(s[k]);
        assert k != lu && k != ff && t[k] == s[k];
      }
    }
    var lu' := ScanDown(t, lu - 1);
    (t, ff', lu')
  }

  /** The compaction loop of part1, from first_free and last_used. */
  function Compacting(s: seq<nat>, ff: nat, lu: nat): (r: seq<nat>)
    requires CompactInv(s, ff, lu)
    ensures multiset(r) == multiset(s)
    decreases lu
  {
    if ff < lu then
      var (t, ff', lu') := CompactStep(s, ff, lu);
      Compacting(t, ff', lu')
    else s
  }

  /** Every used cell comes before every free cell. */
  predicate Compacted(s: seq<nat>) {
    forall i, j :: 0 <= i < j < |s| && !Used(s[i]) ==> !Used(s[j])
  }

  /**
   * Started with every cell before first_free used, every cell after
   * last_used free and last_used itself used, the loop compacts the disk.
   */
  lemma {:induction false} CompactingCompacts(s: seq<nat>, ff: nat, lu: nat)
    requires CompactInv(s, ff, lu) && Used(s[lu])
    requires forall k :: 0 <= k < ff ==> Used(s[k])
    requires forall k :: lu < k < |s| ==> !Used(s[k])
    ensures Compacted(Compacting(s, ff, lu))
    decreases lu
  {
    if ff < lu {
      var (t, ff', lu') := CompactStep(s, ff, lu);
      assert forall k :: 0 <= k < ff' ==> Used(t[k]) by {
        forall k | 0 <= k < ff' ensures Used(t[k]) {
          if k < ff {
            assert t[k] == s[k];
          } else if k == ff {
            assert t[ff] == s[lu];
          }
        }
      }
      assert forall k :: lu' < k < |t| ==> !Used(t[k]) by {
        forall k | lu' < k < |t| ensures !Used(t[k]) {
          if k > lu {
            assert t[k] == s[k];
          }
        }
      }
      CompactingCompacts(t, ff', lu');
    } else {
      assert ff > lu;
    }
  }

  /** The disk of the map "1121": file 0, a gap, file 1 of two cells, a trailing gap. */
  lemma {:induction false} TrailingGapDisk()
    ensures Expanded("1121") == [0, FREE, 1, 1, FREE]
  {
    assert "1121"[..3] == "112" && "112"[..2] == "11" && "11"[..1] == "1" && "1"[..0] == "";
    assert Expanded("1") == [0];
    assert Expanded("11") == [0, FREE];
    assert Expanded("112") == [0, FREE, 1, 1];
  }

  /**
   * On that disk the loop swaps the gap with the trailing free cell, then
   * first_free passes last_used and the loop ends with the gap in place.
   */
  lemma {:induction false} TrailingGapNotCompacted()
    ensures CompactInv([0, FREE, 1, 1, FREE], 1, 4)
    ensures Compacting([0, FREE, 1, 1, FREE], 1, 4) == [0, FREE, 1, 1, FREE]
    ensures !Compacted([0, FREE, 1, 1, FREE])
  {
    var s := [0, FREE, 1, 1, FREE];
    TrailingGapStep();
    assert !Used(s[1]) && Used(s[2]);
  }

  /** The one round of the loop on the disk [0, FREE, 1, 1, FREE]. */
  lemma {:induction false} TrailingGapStep()
    ensures CompactInv([0, FREE, 1, 1, FREE], 1, 4)
    ensures CompactStep([0, FREE, 1, 1, FREE], 1, 4) == ([0, FREE, 1, 1, FREE], 4, 3)
  {
    var s := [0, FREE, 1, 1, FREE];
    assert Used(s[0]) && !Used(s[1]) && Used(s[2]) && Used(s[3]) && !Used(s[4]);
    assert Swap(s, 1, 4) == s;
    assert ScanUp(s, 2) == 4 by {
      assert ScanUp(s, 4) == 4;
      assert ScanUp(s, 3) == 4;
    }
    assert ScanDown(s, 3) == 3;
  }

  /** After the swap of a round, both scans of the round can run. */
  lemma {:induction false} StepScans(s: seq<nat>, ff: nat, lu: nat, t: seq<nat>)
    requires CompactInv(s, ff, lu) && ff < lu && t == Swap(s, ff, lu)
    ensures exists k :: ff + 1 <= k < |t| && t[k] == FREE
    ensures exists k :: 0 <= k <= lu - 1 && Used(t[k])
  {
    assert t[lu] == FREE;
    if Used(s[lu]) {
      assert Used(t[ff]);
    } else {
      var k :| 0 <= k <= lu && Used(s[k]);
      assert k != lu && k != ff && t[k] == s[k];
    }
  }

  /** A round of the loop is the swap followed by the two scans: it keeps the loop's invariant. */
  lemma {:induction false} StepDone(s: seq<nat>, ff: nat, lu: nat, t: seq<nat>, ff': nat, lu': nat)
    requires CompactInv(s, ff, lu) && ff < lu && t == Swap(s, ff, lu)
    requires (exists k :: ff + 1 <= k < |t| && t[k] == FREE) && ff' == ScanUp(t, ff + 1)
    requires (exists k :: 0 <= k <= lu - 1 && Used(t[k])) && lu' == ScanDown(t, lu - 1)
    ensures CompactInv(t, ff', lu') && lu' < lu && Compacting(t, ff', lu') == Compacting(s, ff, lu)
  {
  }

  /** `while disk[first_free] != FREE { first_free += 1 }` */
  method NextFree(a: array<nat>, i: nat) returns (j: nat)
    requires exists k :: i <= k < a.Length && a[k] == FREE
    ensures j == ScanUp(a[..], i)
  {
    j := i;
    while a[j] != FREE
      invariant i <= j <= ScanUp(a[..], i)
      invariant ScanUp(a[..], j) == ScanUp(a[..], i)
      decreases ScanUp(a[..], i) - j
    {
      j := j + 1;
    }
  }

  /** `while disk[last_used] == FREE { last_used -= 1 }` */
  method PrevUsed(a: array<nat>, i: nat) returns (j: nat)
    requires i < a.Length && exists k :: 0 <= k <= i && Used(a[k])
    ensures j == ScanDown(a[..], i)
  {
    j := i;
    while a[j] == FREE
      invariant ScanDown(a[..], i) <= j <= i
      invariant ScanDown(a[..], j) == ScanDown(a[..], i)
      decreases j
    {
      j := j - 1;
    }
  }

  /**
   * The loop of part1 on the disk in place: swap the first free cell with
   * last_used, then move first_free up to the next free cell and last_used
   * down to the previous used one.
   */
  method CompactLoop(a: array<nat>, ff0: nat, lu0: nat)
    requires CompactInv(a[..], ff0, lu0)
    modifies a
    ensures a[..] == Compacting(old(a[..]), ff0, lu0)
  {
    var ff: nat := ff0;
    var lu: nat := lu0;
    while ff < lu
      invariant CompactInv(a[..], ff, lu)
      invariant Compacting(a[..], ff, lu) == Compacting(old(a[..]), ff0, lu0)
      decreases lu
    {
      ff, lu := CompactRound(a, ff, lu);
    }
  }

  /** One round of part1's loop on the disk in place: the swap, then the two scans. */
  method CompactRound(a: array<nat>, ff: nat, lu: nat) returns (ff': nat, lu': nat)
    requires CompactInv(a[..], ff, lu) && ff < lu
    modifies a
    ensures CompactInv(a[..], ff', lu') && lu' < lu
    ensures Compacting(a[..], ff', lu') == Compacting(old(a[..]), ff, lu)
  {
    ghost var s := a[..];
    a[ff], a[lu] := a[lu], a[ff];
    assert a[..] == Swap(s, ff, lu);
    StepScans(s, ff, lu, a[..]);
    ff' := NextFree(a, ff + 1);
    lu' := PrevUsed(a, lu - 1);
    StepDone(s, ff, lu, a[..], ff', lu');
  }

  /**
   * part1's compaction as written: first_free is the first free cell and
   * last_used starts at the last cell, whether or not that cell is used.
   * The source unwraps the search for a free cell; a disk with no used
   * cell makes the loop step below cell 0.
   */
  method CompactAsWritten(a: array<nat>)
    requires FREE in a[..] && exists k :: 0 <= k < |a[..]| && Used(a[..][k])
    modifies a
    ensures a[..] == Compacting(old(a[..]), FirstFree(old(a[..])), a.Length - 1)
    ensures multiset(a[..]) == multiset(old(a[..]))
  {
    var ff := FirstFreeScan(a);
    AsWrittenStart(a[..]);
    CompactLoop(a, ff, a.Length - 1);
  }

  /** part1 as written starts its loop in a state the loop accepts. */
  lemma AsWrittenStart(s: seq<nat>)
    requires FREE in s && exists k :: 0 <= k < |s| && Used(s[k])
    ensures CompactInv(s, FirstFree(s), |s| - 1)
  {
  }

  /** The position of the first free cell. */
  function FirstFree(s: seq<nat>): (i: nat)
    requires FREE in s
    ensures i < |s| && s[i] == FREE && forall k :: 0 <= k < i ==> Used(s[k])
  {
    ScanUp(s, 0)
  }

  /** find_map over the cells for the first free one. */
  method FirstFreeScan(a: array<nat>) returns (i: nat)
    requires FREE in a[..]
    ensures i == FirstFree(a[..])
  {
    i := 0;
    while a[i] != FREE
      invariant i <= FirstFree(a[..])
      decreases FirstFree(a[..]) - i
    {
      i := i + 1;
    }
  }

  /** The disk once part1's loop as written has run from the first free cell and the last cell. */
  function CompactedAsWritten(s: seq<nat>): seq<nat>
    requires FREE in s && exists k :: 0 <= k < |s| && Used(s[k])
  {
    Compacting(s, FirstFree(s), |s| - 1)
  }

  /** The disk once part1's loop has run from the first free cell and the last used cell. */
  function CompactedDisk(s: seq<nat>): seq<nat>
    requires FREE in s && exists k :: 0 <= k < |s| && Used(s[k])
  {
    Compacting(s, FirstFree(s), ScanDown(s, |s| - 1))
  }

  /** That disk holds the same cells, every used cell before every free cell. */
  lemma {:induction false} CompactedDiskCompacts(s: seq<nat>)
    requires FREE in s && exists k :: 0 <= k < |s| && Used(s[k])
    ensures multiset(CompactedDisk(s)) == multiset(s) && Compacted(CompactedDisk(s))
  {
    CompactingCompacts(s, FirstFree(s), ScanDown(s, |s| - 1));
  }

  /**
   * The compaction with last_used started at the last used cell, which
   * moves every used cell before every free cell.
   */
  method Compact(a: array<nat>)
    requires FREE in a[..] && exists k :: 0 <= k < a.Length && Used(a[k])
    modifies a
    ensures a[..] == CompactedDisk(old(a[..]))
    ensures multiset(a[..]) == multiset(old(a[..]))
    ensures Compacted(a[..])
  {
    var ff := FirstFreeScan(a);
    var lu := a.Length - 1;
    while a[lu] == FREE
      invariant ScanDown(a[..], a.Length - 1) <= lu < a.Length
      invariant forall k :: lu < k < a.Length ==> !Used(a[k])
      decreases lu
    {
      lu := lu - 1;
    }
    assert lu == ScanDown(a[..], a.Length - 1);
    CompactedDiskCompacts(a[..]);
    CompactLoop(a, ff, lu);
  }

  /** find_map for a free cell, None where the source's unwrap panics. */
  method FindFree(a: array<nat>) returns (r: Option<nat>)
    ensures r.None? <==> FREE !in a[..]
    ensures r.Some? ==> FREE in a[..] && r.value == FirstFree(a[..])
  {
    var i := 0;
    while i < a.Length
      invariant i <= a.Length && forall k :: 0 <= k < i ==> Used(a[k])
    {
      if a[i] == FREE {
        assert a[..][i] == FREE;
        ScanUpFirst(a[..], 0, i);
        return Some(i);
      }
      i := i + 1;
    }
    return None;
  }

  /** A free cell with only used cells before it is the one ScanUp finds. */
  lemma {:induction false} ScanUpFirst(s: seq<nat>, i: nat, j: nat)
    requires i <= j < |s| && s[j] == FREE && forall k :: i <= k < j ==> Used(s[k])
    ensures ScanUp(s, i) == j
    decreases j - i
  {
    if i < j {
      ScanUpFirst(s, i + 1, j);
    }
  }

  /** Whether some cell holds a file. */
  method AnyUsed(a: array<nat>) returns (b: bool)
    ensures b <==> exists k :: 0 <= k < |a[..]| && Used(a[..][k])
  {
    for i := 0 to a.Length
      invariant forall k :: 0 <= k < i ==> !Used(a[..][k])
    {
      if a[i] != FREE {
        return true;
      }
    }
    return false;
  }

  /** The fold of part1 and part2: the sum of position times id over the used cells. */
  function Checksum(s: seq<nat>): nat {
    if |s| == 0 then 0
    else Checksum(s[..|s| - 1]) + (if Used(s[|s| - 1]) then (|s| - 1) * s[|s| - 1] else 0)
  }

  /** Free cells at the end of the disk add nothing to the checksum. */
  lemma {:induction false} ChecksumFreeTail(s: seq<nat>, n: nat)
    ensures Checksum(s + Repeat(n, FREE)) == Checksum(s)
  {
    if n > 0 {
      assert (s + Repeat(n, FREE))[..|s| + n - 1] == s + Repeat(n - 1, FREE);
      ChecksumFreeTail(s, n - 1);
    } else {
      assert s + Repeat(n, FREE) == s;
    }
  }

  /**
   * The disk part1 takes the checksum of: compacted when a file cell
   * exists, and left as it is otherwise.
   */
  function Part1Disk(s: seq<nat>): seq<nat>
    requires FREE in s
  {
    if exists k :: 0 <= k < |s| && Used(s[k]) then CompactedDisk(s) else s
  }

  /** part1's disk holds the disk's cells, every used cell before every free cell. */
  lemma {:induction false} Part1DiskCompacted(s: seq<nat>)
    requires FREE in s
    ensures multiset(Part1Disk(s)) == multiset(s) && Compacted(Part1Disk(s))
  {
    if exists k :: 0 <= k < |s| && Used(s[k]) {
      CompactedDiskCompacts(s);
    }
  }

  /**
   * part1: expand the map, compact the disk with the corrected start, and
   * take the checksum; None when the disk has no free cell, where the
   * source unwraps the failed search for one.
   */
  method Part1(input: string) returns (r: Option<nat>)
    requires AllDigits(input)
    ensures r.None? <==> FREE !in Expanded(input)
    ensures r.Some? ==> r.value == Checksum(Part1Disk(Expanded(input)))
    ensures r.Some? ==> exists d: seq<nat> :: multiset(d) == multiset(Expanded(input)) && Compacted(d) && r.value == Checksum(d)
  {
    var data := Expand(input, []);
    assert data == Expanded(input);
    var a := new nat[|data|](i requires 0 <= i < |data| => data[i]);
    assert a[..] == data;
    var ff := FindFree(a);
    if ff.None? {
      return None;
    }
    Part1Compact(a);
    Part1DiskCompacted(data);
    r := Some(Checksum(a[..]));
  }

  /** part1's loop on the disk in place, run only when some cell holds a file. */
  method Part1Compact(a: array<nat>)
    requires FREE in a[..]
    modifies a
    ensures a[..] == Part1Disk(old(a[..]))
  {
    var used := AnyUsed(a);
    if used {
      Compact(a);
    }
  }

  /**
   * Where part1 as written panics: no free cell for the unwrap, or a disk
   * of two or more cells none of which holds a file, where last_used steps
   * below cell 0.
   */
  predicate Part1Panics(s: seq<nat>) {
    FREE !in s || (|s| >= 2 && forall k :: 0 <= k < |s| ==> !Used(s[k]))
  }

  /**
   * The disk part1 as written takes the checksum of: the loop run from the
   * first free cell and the last cell when a file cell exists; a disk of
   * one free cell is left as it is.
   */
  function Part1DiskAsWritten(s: seq<nat>): seq<nat>
    requires !Part1Panics(s)
  {
    if exists k :: 0 <= k < |s| && Used(s[k]) then CompactedAsWritten(s) else s
  }

  /** part1 as written keeps the disk's cells, compacted or not. */
  lemma {:induction false} Part1DiskAsWrittenKeeps(s: seq<nat>)
    requires !Part1Panics(s)
    ensures multiset(Part1DiskAsWritten(s)) == multiset(s) && |Part1DiskAsWritten(s)| == |s|
  {
    if exists k :: 0 <= k < |s| && Used(s[k]) {
      var t := Part1DiskAsWritten(s);
      assert multiset(t) == multiset(s);
      assert |t| == |multiset(t)| == |multiset(s)| == |s|;
    }
  }

  /**
   * part1 as written: expand the map, run the loop with last_used started
   * at the last cell, and take the checksum; None where the source panics.
   */
  method Part1AsWritten(input: string) returns (r: Option<nat>)
    requires AllDigits(input)
    ensures r.None? <==> Part1Panics(Expanded(input))
    ensures r.Some? ==> r.value == Checksum(Part1DiskAsWritten(Expanded(input)))
  {
    var data := Expand(input, []);
    assert data == Expanded(input);
    var a := new nat[|data|](i requires 0 <= i < |data| => data[i]);
    assert a[..] == data;
    var ff := FindFree(a);
    if ff.None? {
      return None;
    }
    var used := AnyUsed(a);
    if !used && a.Length >= 2 {
      return None;
    }
    Part1CompactAsWritten(a, used);
    r := Some(Checksum(a[..]));
  }

  /** part1's loop as written on the disk in place, run only when some cell holds a file. */
  method Part1CompactAsWritten(a: array<nat>, used: bool)
    requires !Part1Panics(a[..]) && (used <==> exists k :: 0 <= k < |a[..]| && Used(a[..][k]))
    modifies a
    ensures a[..] == Part1DiskAsWritten(old(a[..]))
  {
    if used {
      CompactAsWritten(a);
    }
  }

  /**
   * On the map "1121" part1 as written leaves the gap before the last file
   * and sums to 5; the corrected loop moves file 1 into it and sums to 3.
   */
  lemma {:induction false} TrailingGapChecksums()
    ensures !Part1Panics(Expanded("1121")) && Checksum(Part1DiskAsWritten(Expanded("1121"))) == 5
    ensures Checksum(Part1Disk(Expanded("1121"))) == 3
  {
    TrailingGapDisk();
    TrailingGapAsWritten();
    TrailingGapCorrected();
  }

  /** As written, the disk [0, FREE, 1, 1, FREE] stays as it is and sums to 0 + 2 + 3. */
  lemma {:induction false} TrailingGapAsWritten()
    ensures !Part1Panics([0, FREE, 1, 1, FREE])
    ensures Checksum(Part1DiskAsWritten([0, FREE, 1, 1, FREE])) == 5
  {
    var s := [0, FREE, 1, 1, FREE];
    TrailingGapNotCompacted();
    assert Used(s[0]) && s[1] == FREE;
    assert Part1DiskAsWritten(s) == s;
    ChecksumFive();
  }

  /** The fold over [0, FREE, 1, 1, FREE]: 2 * 1 + 3 * 1. */
  lemma {:induction false} ChecksumFive()
    ensures Checksum([0, FREE, 1, 1, FREE]) == 5
  {
    var s := [0, FREE, 1, 1, FREE];
    assert s[..4] == [0, FREE, 1, 1];
    assert Checksum([0, FREE, 1, 1]) == 5 by {
      assert [0, FREE, 1, 1][..3] == [0, FREE, 1];
      assert Checksum([0, FREE, 1]) == 2 by {
        assert [0, FREE, 1][..2] == [0, FREE];
        assert Checksum([0, FREE]) == 0 by {
          assert [0, FREE][..1] == [0];
          assert Checksum([0]) == 0 by {
            assert [0][..0] == [];
          }
        }
      }
    }
  }

  /** Corrected, the disk [0, FREE, 1, 1, FREE] becomes [0, 1, 1, FREE, FREE], summing to 1 + 2. */
  lemma {:induction false} TrailingGapCorrected()
    ensures FREE in [0, FREE, 1, 1, FREE]
    ensures Checksum(Part1Disk([0, FREE, 1, 1, FREE])) == 3
  {
    TrailingGapCorrectedDisk();
    ChecksumThree();
  }

  /** The corrected loop runs from cell 1, the first free one, and cell 3, the last used one. */
  lemma {:induction false} TrailingGapCorrectedDisk()
    ensures FREE in [0, FREE, 1, 1, FREE]
    ensures Part1Disk([0, FREE, 1, 1, FREE]) == [0, 1, 1, FREE, FREE]
  {
    TrailingGapScans();
    TrailingGapCorrectedStep();
  }

  /** On [0, FREE, 1, 1, FREE] the first free cell is cell 1 and the last used one cell 3. */
  lemma {:induction false} TrailingGapScans()
    ensures FREE in [0, FREE, 1, 1, FREE] && FirstFree([0, FREE, 1, 1, FREE]) == 1
    ensures Used([0, FREE, 1, 1, FREE][3]) && ScanDown([0, FREE, 1, 1, FREE], 4) == 3
  {
    var s := [0, FREE, 1, 1, FREE];
    assert Used(s[0]) && s[1] == FREE && Used(s[3]) && s[4] == FREE;
  }

  /** The fold over [0, 1, 1, FREE, FREE]: 1 * 1 + 2 * 1. */
  lemma {:induction false} ChecksumThree()
    ensures Checksum([0, 1, 1, FREE, FREE]) == 3
  {
    var s := [0, 1, 1, FREE, FREE];
    assert s[..4] == [0, 1, 1, FREE];
    assert Checksum([0, 1, 1, FREE]) == 3 by {
      assert [0, 1, 1, FREE][..3] == [0, 1, 1];
      assert Checksum([0, 1, 1]) == 3 by {
        assert [0, 1, 1][..2] == [0, 1];
        assert Checksum([0, 1]) == 1 by {
          assert [0, 1][..1] == [0];
          assert Checksum([0]) == 0 by {
            assert [0][..0] == [];
          }
        }
      }
    }
  }

  /** The corrected loop's one round on [0, FREE, 1, 1, FREE]: swap cells 1 and 3, then stop. */
  lemma {:induction false} TrailingGapCorrectedStep()
    ensures CompactInv([0, FREE, 1, 1, FREE], 1, 3)
    ensures Compacting([0, FREE, 1, 1, FREE], 1, 3) == [0, 1, 1, FREE, FREE]
  {
    var s := [0, FREE, 1, 1, FREE];
    var t := [0, 1, 1, FREE, FREE];
    assert Used(s[0]) && s[1] == FREE && Used(s[3]);
    assert Swap(s, 1, 3) == t;
    assert ScanUp(t, 2) == 3 by {
      assert t[2] != FREE && t[3] == FREE;
      assert ScanUp(t, 3) == 3;
    }
    assert Used(t[2]);
    assert ScanDown(t, 2) == 2;
    assert CompactStep(s, 1, 3) == (t, 3, 2);
  }

  /** The map "1" is a single file cell: part1 finds no free cell. */
  lemma {:induction false} NoFreeCellPanics()
    ensures Expanded("1") == [0] && FREE !in Expanded("1")
  {
    assert "1"[..0] == "";
  }

  // Part 2.

  /** Below any element of a multiset of numbers there is a least element. */
  lemma {:induction false} MinExistsUpTo(m: multiset<nat>, n: nat)
    requires exists x :: x in m && x <= n
    ensures exists x :: x in m && forall y :: y in m ==> x <= y
    decreases n
  {
    if exists x :: x in m && x < n {
      MinExistsUpTo(m, n - 1);
    } else {
      var x :| x in m && x <= n;
      assert forall y :: y in m ==> x <= y;
    }
  }

  /** What a min-heap's peek returns: the least element. */
  function MinOf(m: multiset<nat>): (x: nat)
    requires m != multiset{}
    ensures x in m && forall y :: y in m ==> x <= y
  {
    var z :| z in m;
    MinExistsUpTo(m, z);
    var x :| x in m && forall y :: y in m ==> x <= y;
    x
  }

  function NineEmpty(): (b: seq<multiset<nat>>)
    ensures |b| == 9 && forall k :: 0 <= k < 9 ==> b[k] == multiset{}
  {
    seq(9, k => multiset{})
  }

  /**
   * The buckets Part2::new fills: the start of every gap of n > 0 cells is
   * pushed on bucket n - 1; base is where the disk starts.
   */
  function Spans(s: string, base: nat): (b: seq<multiset<nat>>)
    requires AllDigits(s)
    ensures |b| == 9
  {
    if |s| == 0 then NineEmpty()
    else
      var b := Spans(s[..|s| - 1], base);
      var i := |s| - 1;
      var n := DigitValue(s[i]);
      if i % 2 == 1 && n > 0 then b[n - 1 := b[n - 1] + multiset{base + |Expanded(s[..i])|}] else b
  }

  /** Every bucket entry is a run of free cells of its bucket's length inside the disk. */
  ghost predicate SpansFree(b: seq<multiset<nat>>, data: seq<nat>) {
    forall k, p :: 0 <= k < |b| && p in b[k] ==>
      p + k + 1 <= |data| && forall j :: p <= j < p + k + 1 ==> data[j] == FREE
  }

  /** The run of k1 + 1 cells at p1 and the run of k2 + 1 cells at p2 do not overlap. */
  ghost predicate Apart(k1: nat, p1: nat, k2: nat, p2: nat) {
    p1 + k1 + 1 <= p2 || p2 + k2 + 1 <= p1
  }

  /** p is in bucket m at most once. */
  ghost predicate Once(m: multiset<nat>, p: nat) {
    m[p] <= 1
  }

  /** No two bucket entries overlap (and no entry is pushed twice). */
  ghost predicate SpansDisjoint(b: seq<multiset<nat>>) {
    (forall k: nat, p: nat {:trigger Once(b[k], p)} :: k < |b| ==> Once(b[k], p)) &&
    forall k1: nat, p1: nat, k2: nat, p2: nat {:trigger Apart(k1, p1, k2, p2)} ::
      k1 < |b| && k2 < |b| && p1 in b[k1] && p2 in b[k2] && (k1 != k2 || p1 != p2) ==> Apart(k1, p1, k2, p2)
  }

  /** No bucket entry overlaps the cells lo..hi. */
  ghost predicate SpansAvoid(b: seq<multiset<nat>>, lo: nat, hi: nat) {
    forall k, p :: 0 <= k < |b| && p in b[k] ==> p + k + 1 <= lo || hi <= p
  }

  /** Growing the disk keeps the entries free runs. */
  lemma {:induction false} ExtendSpans(b: seq<multiset<nat>>, d: seq<nat>, e: seq<nat>)
    requires SpansFree(b, d)
    ensures SpansFree(b, d + e)
  {
    forall k, p | 0 <= k < |b| && p in b[k] ensures p + k + 1 <= |d + e| && forall j :: p <= j < p + k + 1 ==> (d + e)[j] == FREE {
      forall j | p <= j < p + k + 1 ensures (d + e)[j] == FREE {
        assert (d + e)[j] == d[j];
      }
    }
  }

  /** After a push, the entries are the old ones and the pushed one. */
  lemma {:induction false} PushMembers(b: seq<multiset<nat>>, k0: nat, q: nat, k: nat, p: nat)
    requires k0 < |b| && k < |b|
    ensures var b' := b[k0 := b[k0] + multiset{q}];
      b'[k][p] == b[k][p] + (if k == k0 && p == q then 1 else 0)
  {
  }

  /** Pushing a free run that overlaps no entry keeps the buckets valid. */
  lemma {:induction false} PushSpan(b: seq<multiset<nat>>, d: seq<nat>, k0: nat, q: nat)
    requires SpansFree(b, d) && SpansDisjoint(b) && k0 < |b|
    requires q + k0 + 1 <= |d| && forall j :: q <= j < q + k0 + 1 ==> d[j] == FREE
    requires SpansAvoid(b, q, q + k0 + 1)
    ensures SpansFree(b[k0 := b[k0] + multiset{q}], d) && SpansDisjoint(b[k0 := b[k0] + multiset{q}])
  {
    PushFree(b, d, k0, q);
    PushDisjoint(b, k0, q);
  }

  /** Pushing a free run keeps every entry a free run. */
  lemma {:induction false} PushFree(b: seq<multiset<nat>>, d: seq<nat>, k0: nat, q: nat)
    requires SpansFree(b, d) && k0 < |b|
    requires q + k0 + 1 <= |d| && forall j :: q <= j < q + k0 + 1 ==> d[j] == FREE
    ensures SpansFree(b[k0 := b[k0] + multiset{q}], d)
  {
    var b' := b[k0 := b[k0] + multiset{q}];
    forall k, p | 0 <= k < |b| && p in b'[k]
      ensures p + k + 1 <= |d| && forall j :: p <= j < p + k + 1 ==> d[j] == FREE
    {
      PushMembers(b, k0, q, k, p);
    }
  }

  /** Pushing a run no entry overlaps keeps the entries apart. */
  lemma {:induction false} PushDisjoint(b: seq<multiset<nat>>, k0: nat, q: nat)
    requires SpansDisjoint(b) && k0 < |b| && SpansAvoid(b, q, q + k0 + 1)
    ensures SpansDisjoint(b[k0 := b[k0] + multiset{q}])
  {
    var b' := b[k0 := b[k0] + multiset{q}];
    assert b[k0][q] == 0 by {
      assert q in b[k0] ==> q + k0 + 1 <= q || q + k0 + 1 <= q;
    }
    forall k: nat, p: nat | k < |b| ensures Once(b'[k], p) {
      PushMembers(b, k0, q, k, p);
      assert Once(b[k], p);
    }
    forall k1: nat, p1: nat, k2: nat, p2: nat | k1 < |b| && k2 < |b| && p1 in b'[k1] && p2 in b'[k2] && (k1 != k2 || p1 != p2)
      ensures Apart(k1, p1, k2, p2)
    {
      PushMembers(b, k0, q, k1, p1);
      PushMembers(b, k0, q, k2, p2);
    }
  }

  /** One more digit of the map: the disk grows by its block. */
  lemma {:induction false} ExpandedNext(s: string, i: nat)
    requires AllDigits(s) && i < |s|
    ensures Expanded(s[..i + 1]) == Expanded(s[..i]) + Block(s, i)
  {
    assert s[..i + 1][..i] == s[..i];
  }

  /** One more digit of the map: a positive gap digit pushes the gap's start. */
  lemma {:induction false} SpansNext(s: string, i: nat, base: nat, b: seq<multiset<nat>>, start: nat)
    requires AllDigits(s) && i < |s|
    requires b == Spans(s[..i], base) && start == base + |Expanded(s[..i])|
    ensures Spans(s[..i + 1], base) ==
      if i % 2 == 1 && DigitValue(s[i]) > 0 then b[DigitValue(s[i]) - 1 := b[DigitValue(s[i]) - 1] + multiset{start}] else b
  {
    assert s[..i + 1][..i] == s[..i];
  }

  lemma {:induction false} Parity(i: nat)
    ensures (i + 1) % 2 == 1 - i % 2 && 2 * (i / 2) + i % 2 == i
  {
  }

  /** The disk after one more digit: its block appended. */
  lemma {:induction false} DiskNext(input: string, data0: seq<nat>, i: nat)
    requires AllDigits(input) && i < |input|
    ensures data0 + Expanded(input[..i + 1]) ==
      data0 + Expanded(input[..i]) + Repeat(DigitValue(input[i]), if i % 2 == 0 then i / 2 else FREE)
  {
    ExpandedNext(input, i);
    assert Block(input, i) == Repeat(DigitValue(input[i]), if i % 2 == 0 then i / 2 else FREE);
  }

  /** The inner loop of Part2::new: n copies of v pushed onto the disk. */
  method AppendRun(d: seq<nat>, n: nat, v: nat) returns (e: seq<nat>)
    ensures e == d + Repeat(n, v)
  {
    e := d;
    for k := 0 to n
      invariant e == d + Repeat(k, v)
    {
      assert Repeat(k + 1, v) == Repeat(k, v) + [v];
      e := e + [v];
    }
  }

  /** One digit of Part2::new: the disk grows by the digit's block and a gap's start is pushed. */
  lemma {:induction false} DigitStep(input: string, data0: seq<nat>, i: nat)
    requires AllDigits(input) && i < |input|
    requires SpansFree(Spans(input[..i], |data0|), data0 + Expanded(input[..i]))
    requires SpansDisjoint(Spans(input[..i], |data0|))
    ensures SpansFree(Spans(input[..i + 1], |data0|), data0 + Expanded(input[..i + 1]))
    ensures SpansDisjoint(Spans(input[..i + 1], |data0|))
  {
    var maps := Spans(input[..i], |data0|);
    var before := data0 + Expanded(input[..i]);
    var n := DigitValue(input[i]);
    var v := if i % 2 == 0 then i / 2 else FREE;
    DiskNext(input, data0, i);
    SpansNext(input, i, |data0|, maps, |before|);
    var d := data0 + Expanded(input[..i + 1]);
    GrowSpans(maps, before, n, v);
    if i % 2 == 1 && n > 0 {
      var maps' := maps[n - 1 := maps[n - 1] + multiset{|before|}];
      assert Spans(input[..i + 1], |data0|) == maps';
      assert SpansFree(maps', d) && SpansDisjoint(maps');
    } else {
      assert Spans(input[..i + 1], |data0|) == maps;
      assert SpansFree(maps, d);
    }
  }

  /** The buckets Part2::new builds are valid over the disk it builds. */
  lemma {:induction false} SpansValid(s: string, data0: seq<nat>)
    requires AllDigits(s)
    ensures SpansFree(Spans(s, |data0|), data0 + Expanded(s)) && SpansDisjoint(Spans(s, |data0|))
  {
    if |s| == 0 {
      assert forall k :: 0 <= k < 9 ==> Spans(s, |data0|)[k] == multiset{};
    } else {
      var i := |s| - 1;
      SpansValid(s[..i], data0);
      DigitStep(s, data0, i);
      assert s[..i + 1] == s;
    }
  }

  /**
   * Appending n cells keeps the buckets valid, and when they are free cells
   * so does pushing their start on bucket n - 1.
   */
  lemma {:induction false} GrowSpans(b: seq<multiset<nat>>, d: seq<nat>, n: nat, v: nat)
    requires |b| == 9 && SpansFree(b, d) && SpansDisjoint(b) && n < 10
    ensures SpansFree(b, d + Repeat(n, v))
    ensures v == FREE && n > 0 ==>
      SpansFree(b[n - 1 := b[n - 1] + multiset{|d|}], d + Repeat(n, v)) &&
      SpansDisjoint(b[n - 1 := b[n - 1] + multiset{|d|}])
  {
    ExtendSpans(b, d, Repeat(n, v));
    if v == FREE && n > 0 {
      assert SpansAvoid(b, |d|, |d| + n) by {
        forall k, p | 0 <= k < 9 && p in b[k] ensures p + k + 1 <= |d| {
        }
      }
      PushSpan(b, d + Repeat(n, v), n - 1, |d|);
    }
  }

  /** Popping an entry keeps the buckets valid, and the rest avoid its run. */
  lemma {:induction false} PopSpan(b: seq<multiset<nat>>, d: seq<nat>, idx: nat, dst: nat)
    requires SpansFree(b, d) && SpansDisjoint(b) && idx < |b| && dst in b[idx]
    ensures SpansFree(b[idx := b[idx] - multiset{dst}], d) && SpansDisjoint(b[idx := b[idx] - multiset{dst}])
    ensures SpansAvoid(b[idx := b[idx] - multiset{dst}], dst, dst + idx + 1)
  {
    var b1 := b[idx := b[idx] - multiset{dst}];
    PopMembers(b, idx, dst);
    assert SpansFree(b1, d);
    forall k: nat, p: nat | k < |b| ensures Once(b1[k], p) {
      assert Once(b[k], p);
    }
    assert SpansDisjoint(b1);
    forall k: nat, p: nat | k < |b| && p in b1[k] ensures p + k + 1 <= dst || dst + idx + 1 <= p {
      assert Apart(k, p, idx, dst);
    }
  }

  /** Popping dst from bucket idx: what is left was there before, and dst itself is gone from idx. */
  lemma {:induction false} PopMembers(b: seq<multiset<nat>>, idx: nat, dst: nat)
    requires SpansDisjoint(b) && idx < |b| && dst in b[idx]
    ensures var b1 := b[idx := b[idx] - multiset{dst}];
      (forall k, p :: 0 <= k < |b| && p in b1[k] ==> p in b[k] && (k != idx || p != dst)) &&
      (forall k, p :: 0 <= k < |b| ==> b1[k][p] <= b[k][p])
  {
    var b1 := b[idx := b[idx] - multiset{dst}];
    assert Once(b[idx], dst);
    forall k, p | 0 <= k < |b| && p in b1[k] ensures p in b[k] && (k != idx || p != dst) {
      if k == idx {
        assert b1[k][p] == b[k][p] - (if p == dst then 1 else 0);
      }
    }
    forall k, p | 0 <= k < |b| ensures b1[k][p] <= b[k][p] {
    }
  }

  /** Rewriting cells outside every entry, or freeing them, keeps the entries free runs. */
  lemma {:induction false} RewriteSpans(b: seq<multiset<nat>>, d: seq<nat>, e: seq<nat>, lo: nat, hi: nat)
    requires SpansFree(b, d) && SpansAvoid(b, lo, hi) && |e| == |d|
    requires forall j :: 0 <= j < |d| && !(lo <= j < hi) ==> e[j] == d[j] || e[j] == FREE
    ensures SpansFree(b, e)
  {
    forall k, p | 0 <= k < |b| && p in b[k] ensures p + k + 1 <= |e| && forall j :: p <= j < p + k + 1 ==> e[j] == FREE {
      forall j | p <= j < p + k + 1 ensures e[j] == FREE {
        assert d[j] == FREE;
      }
    }
  }

  /** slice::copy_within(src..src + l, dst). */
  function CopyWithin(s: seq<nat>, src: nat, l: nat, dst: nat): (t: seq<nat>)
    requires src + l <= |s| && dst + l <= |s|
    ensures |t| == |s| && forall j {:trigger t[j]} :: 0 <= j < |s| ==> t[j] == if dst <= j < dst + l then s[src + j - dst] else s[j]
  {
    s[..dst] + s[src..src + l] + s[dst + l..]
  }

  /** slice::fill with the free mark over from..from + l. */
  function Fill(s: seq<nat>, from: nat, l: nat): (t: seq<nat>)
    requires from + l <= |s|
    ensures |t| == |s| && forall j :: 0 <= j < |s| ==> t[j] == if from <= j < from + l then FREE else s[j]
  {
    s[..from] + Repeat(l, FREE) + s[from + l..]
  }

  /** Exchanging two pieces of a sequence keeps its elements. */
  lemma {:induction false} SwapPieces(A: seq<nat>, F: seq<nat>, B: seq<nat>, V: seq<nat>, C: seq<nat>)
    ensures multiset(A + V + B + F + C) == multiset(A + F + B + V + C)
  {
    calc {
      multiset(A + V + B + F + C);
      multiset(A) + multiset(V) + multiset(B) + multiset(F) + multiset(C);
      multiset(A) + multiset(F) + multiset(B) + multiset(V) + multiset(C);
      multiset(A + F + B + V + C);
    }
  }

  /**
   * Moving a file of l cells of value v from src into a free run at dst < src
   * keeps the cells, as a multiset.
   */
  lemma {:induction false} MovePreserves(d: seq<nat>, src: nat, l: nat, dst: nat, v: nat)
    requires dst < src && src + l <= |d| && dst + l <= |d|
    requires forall j :: dst <= j < dst + l ==> d[j] == FREE
    requires forall j :: src <= j < src + l ==> d[j] == v
    ensures multiset(Fill(CopyWithin(d, src, l, dst), src, l)) == multiset(d)
  {
    var e := Fill(CopyWithin(d, src, l, dst), src, l);
    if v == FREE {
      assert e == d;
    } else if l > 0 {
      assert d[src] == v;
      assert dst + l <= src;
      var A, F, B, V, C := d[..dst], d[dst..dst + l], d[dst + l..src], d[src..src + l], d[src + l..];
      assert d == A + F + B + V + C;
      assert e == A + V + B + F + C;
      SwapPieces(A, F, B, V, C);
    } else {
      assert e == d;
    }
  }

  /**
   * move_data takes the least entry of bucket idx for a run of l <= idx + 1
   * cells before it; with the leftover gap pushed on bucket idx - l the
   * buckets are still valid over the new disk.
   */
  lemma {:induction false} MoveKeepsSpans(b: seq<multiset<nat>>, d: seq<nat>, idx: nat, src: nat, l: nat, dst: nat, d': seq<nat>, b2: seq<multiset<nat>>)
    requires |b| == 9 && SpansFree(b, d) && SpansDisjoint(b)
    requires idx < 9 && dst in b[idx] && 1 <= l <= idx + 1 && dst < src && src + l <= |d|
    requires d' == Fill(CopyWithin(d, src, l, dst), src, l)
    requires b2 == var b1 := b[idx := b[idx] - multiset{dst}];
      if idx >= l then b1[idx - l := b1[idx - l] + multiset{dst + l}] else b1
    ensures |b2| == 9 && SpansFree(b2, d') && SpansDisjoint(b2)
  {
    var b1 := b[idx := b[idx] - multiset{dst}];
    PopSpan(b, d, idx, dst);
    MoveOutside(d, src, l, dst, d');
    RewriteSpans(b1, d, d', dst, dst + l);
    if idx >= l {
      assert dst + idx + 1 <= |d| && forall j :: dst <= j < dst + idx + 1 ==> d[j] == FREE;
      PushLeftover(b1, d, d', src, l, dst, idx);
    }
  }

  /** The leftover of the gap, idx - l + 1 cells at dst + l, can be pushed back on bucket idx - l. */
  lemma {:induction false} PushLeftover(b1: seq<multiset<nat>>, d: seq<nat>, d': seq<nat>, src: nat, l: nat, dst: nat, idx: nat)
    requires |b1| == 9 && SpansFree(b1, d') && SpansDisjoint(b1) && SpansAvoid(b1, dst, dst + idx + 1)
    requires dst < src && src + l <= |d| && dst + idx + 1 <= |d| && 1 <= l <= idx < 9
    requires forall j :: dst <= j < dst + idx + 1 ==> d[j] == FREE
    requires d' == Fill(CopyWithin(d, src, l, dst), src, l)
    ensures SpansFree(b1[idx - l := b1[idx - l] + multiset{dst + l}], d')
    ensures SpansDisjoint(b1[idx - l := b1[idx - l] + multiset{dst + l}])
  {
    LeftoverFree(d, src, l, dst, idx, d');
    PushSpan(b1, d', idx - l, dst + l);
  }

  /** Outside the run it is moved to, a move leaves a cell as it was or frees it. */
  lemma {:induction false} MoveOutside(d: seq<nat>, src: nat, l: nat, dst: nat, d': seq<nat>)
    requires src + l <= |d| && dst + l <= |d| && d' == Fill(CopyWithin(d, src, l, dst), src, l)
    ensures |d'| == |d| && forall j :: 0 <= j < |d| && !(dst <= j < dst + l) ==> d'[j] == d[j] || d'[j] == FREE
  {
  }

  /** The cells of a free run of idx + 1 at dst that the file does not fill stay free. */
  lemma {:induction false} LeftoverFree(d: seq<nat>, src: nat, l: nat, dst: nat, idx: nat, d': seq<nat>)
    requires dst < src && src + l <= |d| && dst + idx + 1 <= |d| && l <= idx
    requires forall j :: dst <= j < dst + idx + 1 ==> d[j] == FREE
    requires d' == Fill(CopyWithin(d, src, l, dst), src, l)
    ensures forall j :: dst + l <= j < dst + l + (idx - l) + 1 ==> d'[j] == FREE
  {
    forall j | dst + l <= j < dst + l + (idx - l) + 1 ensures d'[j] == FREE {
      assert d[j] == FREE;
    }
  }

  /** The nine buckets hold free runs of their length over the disk d, and no two overlap. */
  ghost predicate BucketsValid(b: seq<multiset<nat>>, d: seq<nat>) {
    |b| == 9 && SpansFree(b, d) && SpansDisjoint(b)
  }

  /** Whether bucket i has a gap that starts before src. */
  ghost predicate GapBefore(b: seq<multiset<nat>>, i: nat, src: nat)
    requires i < |b|
  {
    b[i] != multiset{} && MinOf(b[i]) < src
  }

  /**
   * The loop of first_fit from bucket i on, with ret the best (bucket,
   * start) so far: a bucket replaces it when its least start is before src
   * and before ret's.
   */
  ghost function FitScan(b: seq<multiset<nat>>, src: nat, i: nat, ret: Option<(nat, nat)>): Option<(nat, nat)>
    requires |b| == 9
    decreases 9 - i
  {
    if i >= 9 then ret
    else if GapBefore(b, i, src) && (ret.None? || MinOf(b[i]) < ret.value.1) then FitScan(b, src, i + 1, Some((i, MinOf(b[i]))))
    else FitScan(b, src, i + 1, ret)
  }

  /** first_fit's answer: the bucket of the best gap, from bucket len - 1 on. */
  ghost function FirstFitOf(b: seq<multiset<nat>>, src: nat, len: nat): Option<nat>
    requires |b| == 9 && len >= 1
  {
    var r := FitScan(b, src, len - 1, None);
    if r.Some? then Some(r.value.0) else None
  }

  /** What the scan finds is a bucket from lo on with a gap before src. */
  lemma {:induction false} FitScanFound(b: seq<multiset<nat>>, src: nat, lo: nat, i: nat, ret: Option<(nat, nat)>)
    requires |b| == 9 && lo <= i
    requires ret.Some? ==> lo <= ret.value.0 < 9 && GapBefore(b, ret.value.0, src)
    ensures FitScan(b, src, i, ret).Some? ==>
      lo <= FitScan(b, src, i, ret).value.0 < 9 && GapBefore(b, FitScan(b, src, i, ret).value.0, src)
    decreases 9 - i
  {
    if i < 9 {
      if GapBefore(b, i, src) && (ret.None? || MinOf(b[i]) < ret.value.1) {
        FitScanFound(b, src, lo, i + 1, Some((i, MinOf(b[i]))));
      } else {
        FitScanFound(b, src, lo, i + 1, ret);
      }
    }
  }

  /** first_fit chooses a bucket of gaps of at least len cells with a gap before src. */
  lemma {:induction false} FirstFitOfFound(b: seq<multiset<nat>>, src: nat, len: nat)
    requires |b| == 9 && len >= 1
    ensures FirstFitOf(b, src, len).Some? ==>
      len - 1 <= FirstFitOf(b, src, len).value < 9 && GapBefore(b, FirstFitOf(b, src, len).value, src)
  {
    FitScanFound(b, src, len - 1, len - 1, None);
  }

  /**
   * ret is first_fit's best answer over buckets lo..hi: None when none of
   * them has a gap before src; otherwise the bucket of the least such start
   * (the first on a tie) with that start.
   */
  ghost predicate BestSoFar(b: seq<multiset<nat>>, src: nat, lo: nat, hi: nat, ret: Option<(nat, nat)>)
    requires |b| == 9 && hi <= 9
  {
    (ret.None? ==> forall k :: lo <= k < hi ==> !GapBefore(b, k, src)) &&
    (ret.Some? ==>
       lo <= ret.value.0 < hi && GapBefore(b, ret.value.0, src) && ret.value.1 == MinOf(b[ret.value.0]) &&
       forall k :: lo <= k < hi && GapBefore(b, k, src) ==>
         ret.value.1 <= MinOf(b[k]) && (k < ret.value.0 ==> ret.value.1 < MinOf(b[k])))
  }

  /** One more bucket of first_fit's loop keeps ret the best answer so far. */
  lemma {:induction false} BestStep(b: seq<multiset<nat>>, src: nat, lo: nat, i: nat, ret: Option<(nat, nat)>)
    requires |b| == 9 && lo <= i < 9 && BestSoFar(b, src, lo, i, ret)
    ensures BestSoFar(b, src, lo, i + 1,
      if GapBefore(b, i, src) && (ret.None? || MinOf(b[i]) < ret.value.1) then Some((i, MinOf(b[i]))) else ret)
  {
  }

  /** first_fit's loop from bucket i on ends with the best answer over lo..9. */
  lemma {:induction false} FitScanBest(b: seq<multiset<nat>>, src: nat, lo: nat, i: nat, ret: Option<(nat, nat)>)
    requires |b| == 9 && lo <= i <= 9 && BestSoFar(b, src, lo, i, ret)
    ensures BestSoFar(b, src, lo, 9, FitScan(b, src, i, ret))
    decreases 9 - i
  {
    if i < 9 {
      BestStep(b, src, lo, i, ret);
      if GapBefore(b, i, src) && (ret.None? || MinOf(b[i]) < ret.value.1) {
        FitScanBest(b, src, lo, i + 1, Some((i, MinOf(b[i]))));
      } else {
        FitScanBest(b, src, lo, i + 1, ret);
      }
    }
  }

  /**
   * first_fit's answer is the bucket, among those of at least len cells,
   * whose least start is smallest and before src, the first on a tie; None
   * exactly when no such bucket has a gap before src.
   */
  lemma {:induction false} FirstFitOfBest(b: seq<multiset<nat>>, src: nat, len: nat)
    requires |b| == 9 && 1 <= len
    ensures var r := FirstFitOf(b, src, len);
      (r.Some? ==> len - 1 <= r.value < 9 && GapBefore(b, r.value, src)) &&
      (r.Some? ==> forall i :: len - 1 <= i < 9 && GapBefore(b, i, src) ==>
                     MinOf(b[r.value]) <= MinOf(b[i]) && (i < r.value ==> MinOf(b[r.value]) < MinOf(b[i]))) &&
      (r.None? <==> forall i :: len - 1 <= i < 9 ==> !GapBefore(b, i, src))
  {
    if len <= 9 {
      FitScanBest(b, src, len - 1, len - 1, None);
    }
  }

  /**
   * The body of the scan loop once first_fit chose bucket idx: move_data
   * pops the least start dst of the bucket, copies the l cells at src to
   * dst and frees them; a gap longer than the file pushes its leftover
   * start dst + l on bucket idx - l.
   */
  ghost function MoveRunSpec(b: seq<multiset<nat>>, d: seq<nat>, idx: nat, src: nat, l: nat): (seq<multiset<nat>>, seq<nat>)
    requires BucketsValid(b, d) && idx < 9 && 1 <= l <= idx + 1 && GapBefore(b, idx, src) && src + l <= |d|
  {
    var dst := MinOf(b[idx]);
    assert dst in b[idx];
    var b1 := b[idx := b[idx] - multiset{dst}];
    (if idx >= l then b1[idx - l := b1[idx - l] + multiset{dst + l}] else b1, Fill(CopyWithin(d, src, l, dst), src, l))
  }

  /** A move keeps the buckets valid over the new disk, and keeps the disk's cells. */
  lemma {:induction false} MoveRunSpecValid(b: seq<multiset<nat>>, d: seq<nat>, idx: nat, src: nat, l: nat)
    requires BucketsValid(b, d) && idx < 9 && 1 <= l <= idx + 1 && GapBefore(b, idx, src) && src + l <= |d|
    requires forall j :: src <= j < src + l ==> d[j] == d[src]
    ensures BucketsValid(MoveRunSpec(b, d, idx, src, l).0, MoveRunSpec(b, d, idx, src, l).1)
    ensures |MoveRunSpec(b, d, idx, src, l).1| == |d|
    ensures multiset(MoveRunSpec(b, d, idx, src, l).1) == multiset(d)
  {
    var dst := MinOf(b[idx]);
    var (b2, d') := MoveRunSpec(b, d, idx, src, l);
    MoveKeepsSpans(b, d, idx, src, l, dst, d', b2);
    forall j | dst <= j < dst + l ensures d[j] == FREE {
    }
    MovePreserves(d, src, l, dst, d[src]);
  }

  /**
   * A file moved by part2 lands in the gap, wholly before the cells it
   * left, which are free afterwards.
   */
  lemma {:induction false} MoveRunLands(b: seq<multiset<nat>>, d: seq<nat>, idx: nat, src: nat, l: nat)
    requires BucketsValid(b, d) && idx < 9 && 1 <= l <= idx + 1 && GapBefore(b, idx, src) && src + l <= |d|
    requires Used(d[src])
    ensures var dst := MinOf(b[idx]); var d' := MoveRunSpec(b, d, idx, src, l).1;
      dst + l <= src && d'[dst..dst + l] == d[src..src + l] && forall j :: src <= j < src + l ==> d'[j] == FREE
  {
    var dst := MinOf(b[idx]);
    assert dst in b[idx];
    CopyLands(d, dst, idx, src, l);
  }

  /** Copying the l cells at src into a free run of idx + 1 >= l cells at dst before src. */
  lemma {:induction false} CopyLands(d: seq<nat>, dst: nat, idx: nat, src: nat, l: nat)
    requires dst < src < |d| && Used(d[src]) && 1 <= l <= idx + 1 && src + l <= |d| && dst + idx + 1 <= |d|
    requires forall j :: dst <= j < dst + idx + 1 ==> d[j] == FREE
    ensures var d' := Fill(CopyWithin(d, src, l, dst), src, l);
      dst + l <= src && d'[dst..dst + l] == d[src..src + l] && forall j :: src <= j < src + l ==> d'[j] == FREE
  {
    FreeRunBefore(d, dst, idx + 1, src);
    var c := CopyWithin(d, src, l, dst);
    var d' := Fill(c, src, l);
    forall j | dst <= j < dst + l ensures d'[j] == d[src + (j - dst)] {
      assert d'[j] == c[j];
    }
    assert d'[dst..dst + l] == d[src..src + l];
  }

  /** A free run that starts before a used cell ends before it. */
  lemma {:induction false} FreeRunBefore(d: seq<nat>, dst: nat, n: nat, src: nat)
    requires dst < src < |d| && Used(d[src]) && dst + n <= |d|
    requires forall j :: dst <= j < dst + n ==> d[j] == FREE
    ensures dst + n <= src
  {
  }

  /** The inner loop that walks scan back over a run of equal cells: where the run starts. */
  function RunStart(d: seq<nat>, scan: nat): (s: nat)
    requires scan < |d|
    ensures s <= scan && (s > 0 ==> d[s - 1] != d[s])
    decreases scan
  {
    if scan > 0 && d[scan] == d[scan - 1] then RunStart(d, scan - 1) else scan
  }

  /** Every cell from RunStart up to scan equals the cell at scan. */
  lemma {:induction false} RunStartRun(d: seq<nat>, scan: nat)
    requires scan < |d|
    ensures forall j :: RunStart(d, scan) <= j <= scan ==> d[j] == d[scan]
    decreases scan
  {
    if scan > 0 && d[scan] == d[scan - 1] {
      RunStartRun(d, scan - 1);
    }
  }

  /** The loop that steps scan back to the previous used cell, or to 0. */
  function PrevScan(d: seq<nat>, scan: nat): (t: nat)
    requires scan < |d|
    ensures t <= scan && (scan > 0 ==> t < scan)
    ensures t > 0 ==> Used(d[t])
    decreases scan
  {
    if scan == 0 then 0
    else if Used(d[scan - 1]) then scan - 1
    else PrevScan(d, scan - 1)
  }

  /** PrevScan skips only free cells. */
  lemma {:induction false} PrevScanSkips(d: seq<nat>, scan: nat)
    requires scan < |d|
    ensures forall j :: PrevScan(d, scan) < j < scan ==> !Used(d[j])
    decreases scan
  {
    if scan > 0 && !Used(d[scan - 1]) {
      PrevScanSkips(d, scan - 1);
    }
  }

  /**
   * One round of part2's scan loop: find the run ending at scan, move it
   * to the gap first_fit chooses, if any, and step back to the previous
   * used cell of the new disk.
   */
  ghost function Round(b: seq<multiset<nat>>, d: seq<nat>, scan: nat): (seq<multiset<nat>>, seq<nat>, nat)
    requires BucketsValid(b, d) && 0 < scan < |d|
  {
    var s := RunStart(d, scan);
    var l := scan - s + 1;
    var fit := FirstFitOf(b, s, l);
    FirstFitOfFound(b, s, l);
    if fit.Some? then
      var bd := MoveRunSpec(b, d, fit.value, s, l);
      (bd.0, bd.1, PrevScan(bd.1, s))
    else (b, d, PrevScan(d, s))
  }

  /** A round keeps the buckets valid, the disk's cells, and moves scan down. */
  lemma {:induction false} RoundValid(b: seq<multiset<nat>>, d: seq<nat>, scan: nat)
    requires BucketsValid(b, d) && 0 < scan < |d|
    ensures BucketsValid(Round(b, d, scan).0, Round(b, d, scan).1)
    ensures |Round(b, d, scan).1| == |d| && multiset(Round(b, d, scan).1) == multiset(d)
    ensures Round(b, d, scan).2 < scan
  {
    var s := RunStart(d, scan);
    var l := scan - s + 1;
    FirstFitOfFound(b, s, l);
    if FirstFitOf(b, s, l).Some? {
      RunStartRun(d, scan);
      MoveRunSpecValid(b, d, FirstFitOf(b, s, l).value, s, l);
    }
  }

  /** part2's scan loop from scan down to 0: the final buckets and disk. */
  ghost function ScanFrom(b: seq<multiset<nat>>, d: seq<nat>, scan: nat): (seq<multiset<nat>>, seq<nat>)
    requires BucketsValid(b, d) && scan < |d|
    decreases scan
  {
    if scan == 0 then (b, d)
    else
      var r := Round(b, d, scan);
      RoundValid(b, d, scan);
      ScanFrom(r.0, r.1, r.2)
  }

  /** The scan loop keeps the disk's length and cells, and the buckets valid. */
  lemma {:induction false} ScanFromKeeps(b: seq<multiset<nat>>, d: seq<nat>, scan: nat)
    requires BucketsValid(b, d) && scan < |d|
    ensures BucketsValid(ScanFrom(b, d, scan).0, ScanFrom(b, d, scan).1)
    ensures |ScanFrom(b, d, scan).1| == |d| && multiset(ScanFrom(b, d, scan).1) == multiset(d)
    decreases scan
  {
    if scan > 0 {
      var r := Round(b, d, scan);
      RoundValid(b, d, scan);
      ScanFromKeeps(r.0, r.1, r.2);
    }
  }

  /** One round of the scan loop leaves the same end state to reach. */
  lemma {:induction false} ScanFromRound(b: seq<multiset<nat>>, d: seq<nat>, scan: nat)
    requires BucketsValid(b, d) && 0 < scan < |d|
    ensures BucketsValid(Round(b, d, scan).0, Round(b, d, scan).1) && Round(b, d, scan).2 < |Round(b, d, scan).1|
    ensures ScanFrom(b, d, scan) == ScanFrom(Round(b, d, scan).0, Round(b, d, scan).1, Round(b, d, scan).2)
  {
    RoundValid(b, d, scan);
  }

  /** The disk the whole scan loop leaves, from the last cell down; it holds the same cells. */
  ghost function ScanDisk(b: seq<multiset<nat>>, d: seq<nat>): (r: seq<nat>)
    requires BucketsValid(b, d) && |d| > 0
    ensures multiset(r) == multiset(d)
  {
    var last := |d| - 1;
    ScanFromKeeps(b, d, last);
    ScanFrom(b, d, last).1
  }

  /**
   * The disk part2 takes the checksum of: the map's disk after the scan
   * loop. It holds the cells of the map's disk.
   */
  ghost function Part2Disk(input: string): (r: seq<nat>)
    requires AllDigits(input) && |Expanded(input)| > 0
    ensures multiset(r) == multiset(Expanded(input))
  {
    SpansValid(input, []);
    assert [] + Expanded(input) == Expanded(input);
    ScanDisk(Spans(input, 0), Expanded(input))
  }

  /** The state of part2: the nine gap heaps (bucket n - 1 holds gaps of n cells) and the disk. */
  class Part2 {
    var freeMaps: seq<multiset<nat>>
    var data: seq<nat>

    ghost predicate Valid()
      reads this
    {
      BucketsValid(freeMaps, data)
    }

    /**
     * Part2::new: expand the map onto data0 as part1 does, and push the
     * start of every non-empty gap on the bucket of its length. Every
     * file digit must be positive.
     */
    constructor (input: string, data0: seq<nat>)
      requires AllDigits(input)
      requires forall i :: 0 <= i < |input| && i % 2 == 0 ==> DigitValue(input[i]) > 0
      ensures data == data0 + Expanded(input) && freeMaps == Spans(input, |data0|)
      ensures Valid()
    {
      var inSkip := false;
      var nextId: nat := 0;
      var maps := NineEmpty();
      var d := data0;
      for i := 0 to |input|
        invariant d == data0 + Expanded(input[..i]) && maps == Spans(input[..i], |data0|)
        invariant inSkip == (i % 2 == 1) && 2 * nextId == i + (if inSkip then 1 else 0)
      {
        var n := DigitValue(input[i]);
        var v := if inSkip then FREE else nextId;
        var start := |d|;
        Parity(i);
        assert v == if i % 2 == 0 then i / 2 else FREE;
        DiskNext(input, data0, i);
        d := AppendRun(d, n, v);
        SpansNext(input, i, |data0|, maps, start);
        if inSkip {
          if n > 0 {
            maps := maps[n - 1 := maps[n - 1] + multiset{start}];
          }
        } else {
          nextId := nextId + 1;
        }
        inSkip := !inSkip;
      }
      assert input[..|input|] == input;
      SpansValid(input, data0);
      freeMaps := maps;
      data := d;
    }

    /**
     * first_fit: among the buckets whose gaps hold at least len cells, the
     * one whose least start is smallest and before src, the first such on a
     * tie; None if no bucket has a gap before src.
     */
    method FirstFit(src: nat, len: nat) returns (r: Option<nat>)
      requires |freeMaps| == 9 && len >= 1
      ensures r == FirstFitOf(freeMaps, src, len)
      ensures r.Some? ==> len - 1 <= r.value < 9 && GapBefore(freeMaps, r.value, src)
      ensures r.Some? ==> forall i :: len - 1 <= i < 9 && GapBefore(freeMaps, i, src) ==>
                            MinOf(freeMaps[r.value]) <= MinOf(freeMaps[i]) &&
                            (i < r.value ==> MinOf(freeMaps[r.value]) < MinOf(freeMaps[i]))
      ensures r.None? <==> forall i :: len - 1 <= i < 9 ==> !GapBefore(freeMaps, i, src)
    {
      var ret: Option<(nat, nat)> := None;
      var i := len - 1;
      while i < 9
        invariant len - 1 <= i
        invariant FitScan(freeMaps, src, i, ret) == FitScan(freeMaps, src, len - 1, None)
        decreases 9 - i
      {
        if freeMaps[i] != multiset{} {
          var p := MinOf(freeMaps[i]);
          if p < src && (ret.None? || p < ret.value.1) {
            ret := Some((i, p));
          }
        }
        i := i + 1;
      }
      r := if ret.Some? then Some(ret.value.0) else None;
      FirstFitOfBest(freeMaps, src, len);
    }

    /**
     * move_data: pop the least start dst of bucket idx, copy the l cells at
     * src to dst, fill the cells at src with the free mark, return dst.
     */
    method MoveData(idx: nat, src: nat, l: nat) returns (dst: nat)
      requires Valid() && idx < 9 && freeMaps[idx] != multiset{}
      requires src + l <= |data| && MinOf(freeMaps[idx]) + l <= |data|
      modifies this
      ensures dst == MinOf(old(freeMaps[idx]))
      ensures freeMaps == old(freeMaps)[idx := old(freeMaps[idx]) - multiset{dst}]
      ensures data == Fill(CopyWithin(old(data), src, l, dst), src, l)
    {
      dst := MinOf(freeMaps[idx]);
      freeMaps := freeMaps[idx := freeMaps[idx] - multiset{dst}];
      data := CopyWithin(data, src, l, dst);
      data := Fill(data, src, l);
    }

    /**
     * The scan loop of part2: from the end of the disk, take the run of
     * equal cells ending at scan, move it to the first fitting gap before
     * it, push back what is left of that gap, and go on from the previous
     * used cell. The disk keeps its cells, and the buckets keep describing
     * free runs that do not overlap.
     */
    method Scan()
      requires Valid() && |data| > 0
      modifies this
      ensures (freeMaps, data) == ScanFrom(old(freeMaps), old(data), old(|data|) - 1)
      ensures Valid() && |data| == old(|data|) && multiset(data) == old(multiset(data))
    {
      ghost var target := ScanFrom(freeMaps, data, |data| - 1);
      ghost var n := |data|;
      ghost var cells := multiset(data);
      var scan: nat := |data| - 1;
      while scan > 0
        invariant Valid() && scan < |data| == n && multiset(data) == cells
        invariant ScanFrom(freeMaps, data, scan) == target
        decreases scan
      {
        ScanFromRound(freeMaps, data, scan);
        scan := ScanRound(scan);
      }
    }

    /** One round of the scan loop, as Round describes it. */
    method ScanRound(scan: nat) returns (next: nat)
      requires Valid() && 0 < scan < |data|
      modifies this
      ensures (freeMaps, data, next) == Round(old(freeMaps), old(data), scan)
      ensures Valid() && next < |data| == old(|data|) && multiset(data) == old(multiset(data))
    {
      RoundValid(freeMaps, data, scan);
      var s, l := RunBack(scan);
      var fit := FirstFit(s, l);
      FirstFitOfFound(freeMaps, s, l);
      if fit.Some? {
        RunStartRun(data, scan);
        MoveRun(fit.value, s, l);
      }
      next := PrevUsedFrom(s);
    }

    /** `while scan > 0 && data[scan] == data[scan - 1] { l += 1; scan -= 1 }` */
    method RunBack(scan: nat) returns (s: nat, l: nat)
      requires scan < |data|
      ensures s == RunStart(data, scan) && l == scan - s + 1
    {
      s, l := scan, 1;
      while s > 0 && data[s] == data[s - 1]
        invariant s <= scan && l == scan - s + 1 && RunStart(data, s) == RunStart(data, scan)
        decreases s
      {
        l := l + 1;
        s := s - 1;
      }
    }

    /** `while scan > 0 { scan -= 1; if data[scan] != FREE { break } }` */
    method PrevUsedFrom(scan: nat) returns (t: nat)
      requires scan < |data|
      ensures t == PrevScan(data, scan)
    {
      t := scan;
      while t > 0
        invariant t <= scan && PrevScan(data, t) == PrevScan(data, scan)
        decreases t
      {
        t := t - 1;
        if data[t] != FREE {
          break;
        }
      }
    }

    /**
     * The body of the scan loop once first_fit chose bucket idx: move_data,
     * then the push of the leftover gap on bucket idx - l.
     */
    method MoveRun(idx: nat, src: nat, l: nat)
      requires Valid() && 1 <= l && l - 1 <= idx < 9 && GapBefore(freeMaps, idx, src) && src + l <= |data|
      requires forall j :: src <= j < src + l ==> data[j] == data[src]
      modifies this
      ensures (freeMaps, data) == MoveRunSpec(old(freeMaps), old(data), idx, src, l)
      ensures Valid() && |data| == old(|data|) && multiset(data) == old(multiset(data))
    {
      ghost var d0 := data;
      ghost var b0 := freeMaps;
      assert MinOf(freeMaps[idx]) in freeMaps[idx];
      var dst := MoveData(idx, src, l);
      if idx >= l {
        freeMaps := freeMaps[idx - l := freeMaps[idx - l] + multiset{dst + l}];
      }
      assert (freeMaps, data) == MoveRunSpec(b0, d0, idx, src, l);
      MoveRunSpecValid(b0, d0, idx, src, l);
    }
  }

  /**
   * part2: build the state from the map, run the scan loop, and take the
   * checksum. None where the source panics: a file digit 0 fails the
   * assert of Part2::new, and an empty disk makes `len() - 1` underflow.
   */
  method Part2Checksum(input: string) returns (r: Option<nat>)
    requires AllDigits(input)
    ensures r.None? <==> |input| == 0 || exists i :: 0 <= i < |input| && i % 2 == 0 && DigitValue(input[i]) == 0
    ensures r.Some? ==> |Expanded(input)| > 0 && r.value == Checksum(Part2Disk(input))
    ensures r.Some? ==> exists d: seq<nat> :: multiset(d) == multiset(Expanded(input)) && r.value == Checksum(d)
  {
    if |input| == 0 {
      return None;
    }
    var zero := ZeroFileDigit(input);
    if zero {
      return None;
    }
    var disk := Part2Run(input);
    r := Some(Checksum(disk));
  }

  /** Part2::new followed by the scan loop: the disk part2 takes the checksum of. */
  method Part2Run(input: string) returns (disk: seq<nat>)
    requires AllDigits(input) && |input| > 0
    requires forall i :: 0 <= i < |input| && i % 2 == 0 ==> DigitValue(input[i]) > 0
    ensures |Expanded(input)| > 0 && disk == Part2Disk(input)
  {
    ExpandedNonEmpty(input);
    var st := new Part2(input, []);
    Part2DiskFrom(input, st.freeMaps, st.data);
    st.Scan();
    disk := st.data;
  }

  /** The state Part2::new builds is where Part2Disk starts the scan loop. */
  lemma {:induction false} Part2DiskFrom(input: string, b: seq<multiset<nat>>, d: seq<nat>)
    requires AllDigits(input) && |Expanded(input)| > 0
    requires BucketsValid(b, d) && d == [] + Expanded(input) && b == Spans(input, 0)
    ensures |d| > 0 && ScanFrom(b, d, |d| - 1).1 == Part2Disk(input)
  {
    assert d == Expanded(input);
  }

  /** Whether some file digit is 0, the case the assert of Part2::new rejects. */
  method ZeroFileDigit(input: string) returns (b: bool)
    requires AllDigits(input)
    ensures b <==> exists i :: 0 <= i < |input| && i % 2 == 0 && DigitValue(input[i]) == 0
  {
    for i := 0 to |input|
      invariant forall k :: 0 <= k < i && k % 2 == 0 ==> DigitValue(input[k]) > 0
    {
      if i % 2 == 0 && DigitValue(input[i]) == 0 {
        return true;
      }
    }
    return false;
  }

  /** A map whose first digit is positive describes a disk with at least one cell. */
  lemma {:induction false} ExpandedNonEmpty(s: string)
    requires AllDigits(s) && |s| > 0 && DigitValue(s[0]) > 0
    ensures |Expanded(s)| > 0
  {
    if |s| > 1 {
      assert s[..|s| - 1][0] == s[0];
      ExpandedNonEmpty(s[..|s| - 1]);
    }
  }
}
