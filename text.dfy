/**
 * Text and number helpers shared by the puzzle parsers: decimal digits,
 * Rust's unsigned `from_str`, `to_string`, `ilog10`, `str::find` and the
 * two ways of splitting a string that the parsers use.
 */
module Text {
  import opened Wrappers

  predicate IsDigit(c: char) {
    '0' <= c <= '9'
  }

  function DigitValue(c: char): (d: nat)
    requires IsDigit(c)
    ensures d < 10
  {
    c as int - '0' as int
  }

  function DigitChar(d: nat): (c: char)
    requires d < 10
    ensures IsDigit(c) && DigitValue(c) == d
  {
    ('0' as int + d) as char
  }

  predicate AllDigits(s: string) {
    forall i :: 0 <= i < |s| ==> IsDigit(s[i])
  }

  /** The value of a string of decimal digits, most significant first. */
  function DecimalValue(s: string): nat
    requires AllDigits(s)
  {
    if |s| == 0 then 0 else DecimalValue(s[..|s| - 1]) * 10 + DigitValue(s[|s| - 1])
  }

  function Pow10(k: nat): (p: nat)
    ensures p >= 1
  {
    if k == 0 then 1 else 10 * Pow10(k - 1)
  }

  /** A string of k digits denotes less than 10^k. */
  lemma {:induction false} DecimalValueBelow(s: string)
    requires AllDigits(s)
    ensures DecimalValue(s) < Pow10(|s|)
  {
    if |s| > 0 {
      DecimalValueBelow(s[..|s| - 1]);
    }
  }

  /** Appending one more digit d to a value a * p + b. */
  lemma {:induction false} ShiftDigit(a: int, p: int, b: int, d: int)
    ensures (a * p + b) * 10 + d == a * (p * 10) + (b * 10 + d)
  {
  }

  /** Reading a string in two parts: the value of s + t. */
  lemma {:induction false} DecimalValueAppend(s: string, t: string)
    requires AllDigits(s) && AllDigits(t)
    ensures AllDigits(s + t) && DecimalValue(s + t) == DecimalValue(s) * Pow10(|t|) + DecimalValue(t)
  {
    if |t| > 0 {
      var t' := t[..|t| - 1];
      assert (s + t)[..|s + t| - 1] == s + t';
      DecimalValueAppend(s, t');
      var a, p, b, d := DecimalValue(s), Pow10(|t'|), DecimalValue(t'), DigitValue(t[|t| - 1]);
      assert DecimalValue(s + t) == DecimalValue(s + t') * 10 + d;
      assert DecimalValue(t) == b * 10 + d && Pow10(|t|) == p * 10;
      ShiftDigit(a, p, b, d);
    } else {
      assert s + t == s;
    }
  }

  /**
   * Rust's `from_str` for an unsigned type whose largest value is max:
   * an optional '+', then one or more decimal digits, in range.
   */
  function ParseUnsigned(s: string, max: nat): (r: Option<nat>)
    ensures r.Some? ==> r.value <= max
    ensures r.Some? ==> |s| > 0 && (IsDigit(s[0]) || s[0] == '+')
    ensures AllDigits(s) && |s| > 0 && DecimalValue(s) <= max ==> r == Some(DecimalValue(s))
    ensures AllDigits(s) && DecimalValue(s) > max ==> r.None?
  {
    var body := if |s| > 0 && s[0] == '+' then s[1..] else s;
    if |body| > 0 && AllDigits(body) && DecimalValue(body) <= max then Some(DecimalValue(body)) else None
  }

  /** Parse every word as an unsigned number no larger than max. */
  function ParseAll(words: seq<string>, max: nat): (r: Option<seq<nat>>)
    ensures r.Some? <==> forall k :: 0 <= k < |words| ==> ParseUnsigned(words[k], max).Some?
    ensures r.Some? ==> (
      |r.value| == |words| &&
      forall k :: 0 <= k < |words| ==> Some(r.value[k]) == ParseUnsigned(words[k], max))
  {
    if |words| == 0 then Some([])
    else
      match ParseUnsigned(words[0], max)
      case None => None
      case Some(n) =>
        match ParseAll(words[1..], max)
        case None =>
          assert !ParseUnsigned(words[1..][0], max).Some? || exists k :: 1 <= k < |words| && !ParseUnsigned(words[k], max).Some?;
          None
        case Some(ns) => Some([n] + ns)
  }

  /** to_string: the decimal digits of n, without leading zeros. */
  function Digits(n: nat): (s: string)
    ensures |s| >= 1 && AllDigits(s) && DecimalValue(s) == n
    ensures n > 0 ==> s[0] != '0'
    ensures |s| == 1 ==> n < 10
  {
    if n < 10 then [DigitChar(n)]
    else
      var front := Digits(n / 10);
      var s := front + [DigitChar(n % 10)];
      assert s[..|s| - 1] == front;
      s
  }

  /** ilog10: the position of the leading decimal digit. */
  function Ilog10(n: nat): (k: nat)
    requires n > 0
    ensures Pow10(k) <= n < Pow10(k + 1)
  {
    if n < 10 then 0 else Ilog10(n / 10) + 1
  }

  /** A positive number has ilog10 + 1 digits. */
  lemma {:induction false} DigitsLength(n: nat)
    requires n > 0
    ensures |Digits(n)| == Ilog10(n) + 1
  {
    if n >= 10 {
      DigitsLength(n / 10);
    }
  }

  /** Parsing what to_string printed gives the number back. */
  lemma {:induction false} DigitsRoundTrip(n: nat, max: nat)
    requires n <= max
    ensures ParseUnsigned(Digits(n), max) == Some(n)
  {
  }

  /** Whether pat occurs in s at position i. */
  predicate OccursAt(s: string, pat: string, i: nat) {
    i + |pat| <= |s| && s[i..i + |pat|] == pat
  }

  /** str::find: the first position at which pat occurs. */
  function Find(s: string, pat: string): (r: Option<nat>)
    ensures r.Some? ==> r.value + |pat| <= |s|
    decreases |s|
  {
    if OccursAt(s, pat, 0) then Some(0)
    else if |s| == 0 then None
    else
      var r := Find(s[1..], pat);
      if r.None? then None else Some(r.value + 1)
  }

  /** find gives the first position at which pat occurs, and None only when it occurs nowhere. */
  lemma {:induction false} FindSpec(s: string, pat: string)
    ensures var r := Find(s, pat);
            r.Some? ==> OccursAt(s, pat, r.value) && forall j :: 0 <= j < r.value ==> !OccursAt(s, pat, j)
    ensures Find(s, pat).None? ==> forall j :: 0 <= j <= |s| ==> !OccursAt(s, pat, j)
    decreases |s|
  {
    if !OccursAt(s, pat, 0) && |s| > 0 {
      FindSpec(s[1..], pat);
      OccursShift(s, pat);
    }
  }

  /** Occurrences in s after position 0 are the occurrences in s[1..], shifted by one. */
  lemma {:induction false} OccursShift(s: string, pat: string)
    requires |s| > 0
    ensures forall j :: 1 <= j <= |s| ==> (OccursAt(s, pat, j) <==> OccursAt(s[1..], pat, j - 1))
  {
    forall j | 1 <= j <= |s| ensures OccursAt(s, pat, j) <==> OccursAt(s[1..], pat, j - 1) {
      if j + |pat| <= |s| {
        var a, b := s[j..j + |pat|], s[1..][j - 1..j - 1 + |pat|];
        assert |a| == |b| && forall k :: 0 <= k < |a| ==> a[k] == s[j + k] == b[k];
        assert a == b;
      }
    }
  }

  /** Finding a single character: None exactly when it is absent, else its first position. */
  lemma {:induction false} FindChar(s: string, c: char)
    ensures Find(s, [c]).None? <==> c !in s
    ensures Find(s, [c]).Some? ==> s[Find(s, [c]).value] == c && c !in s[..Find(s, [c]).value]
  {
    FindSpec(s, [c]);
    match Find(s, [c])
    case None =>
      forall j | 0 <= j < |s| ensures s[j] != c {
        assert s[j..j + 1] == [s[j]] && !OccursAt(s, [c], j);
      }
    case Some(i) =>
      assert s[i..i + 1] == [c];
      assert s[i] == c;
      forall j | 0 <= j < i ensures s[..i][j] != c {
        assert s[j..j + 1] == [s[j]] && !OccursAt(s, [c], j);
      }
  }

  /** The pieces joined back together with the separator between them. */
  function Join(pieces: seq<string>, sep: char): string {
    if |pieces| == 0 then ""
    else if |pieces| == 1 then pieces[0]
    else pieces[0] + [sep] + Join(pieces[1..], sep)
  }

  /** str::split on one character: the text between separators, empty pieces kept. */
  function Split(s: string, sep: char): (r: seq<string>)
    ensures |r| >= 1
    ensures forall k :: 0 <= k < |r| ==> sep !in r[k]
    ensures Join(r, sep) == s
  {
    if |s| == 0 then [""]
    else
      var rest := Split(s[1..], sep);
      if s[0] == sep then
        [""] + rest
      else
        assert Join([[s[0]] + rest[0]] + rest[1..], sep) == [s[0]] + Join(rest, sep);
        [[s[0]] + rest[0]] + rest[1..]
  }

  /** The pieces are the only ones that split gives back: no separator inside, joined to s. */
  lemma {:induction false} SplitUnique(s: string, sep: char, r: seq<string>)
    requires |r| >= 1 && (forall k :: 0 <= k < |r| ==> sep !in r[k]) && Join(r, sep) == s
    ensures Split(s, sep) == r
    decreases |s|
  {
    if |s| == 0 {
      // Join of two or more pieces holds a separator, so r is the one empty piece.
    } else if r[0] == "" {
      assert s == [sep] + Join(r[1..], sep);
      assert s[1..] == Join(r[1..], sep);
      assert forall k :: 0 <= k < |r[1..]| ==> r[1..][k] == r[k + 1];
      SplitUnique(s[1..], sep, r[1..]);
      assert r == [""] + r[1..];
    } else {
      var r' := [r[0][1..]] + r[1..];
      assert s[0] == r[0][0] && s[0] != sep;
      if |r| == 1 {
        assert Join(r', sep) == r[0][1..];
      } else {
        assert r'[1..] == r[1..];
        assert Join(r', sep) == r[0][1..] + [sep] + Join(r[1..], sep);
      }
      assert Join(r', sep) == s[1..];
      forall k | 0 <= k < |r'| ensures sep !in r'[k] {
        if k == 0 {
          assert forall c :: c in r[0][1..] ==> c in r[0];
        } else {
          assert r'[k] == r[k];
        }
      }
      SplitUnique(s[1..], sep, r');
      assert [s[0]] + r[0][1..] == r[0];
      assert r == [r[0]] + r[1..];
    }
  }

  /**
   * The characters `char::is_whitespace` accepts, those with the Unicode
   * White_Space property: `str::trim` and `str::split_whitespace` work on these.
   */
  predicate IsWhitespace(c: char) {
    c == '\t' || c == '\n' || c == '\U{000B}' || c == '\U{000C}' || c == '\r' || c == ' ' ||
    c == '\U{0085}' || c == '\U{00A0}' || c == '\U{1680}' || '\U{2000}' <= c <= '\U{200A}' ||
    c == '\U{2028}' || c == '\U{2029}' || c == '\U{202F}' || c == '\U{205F}' || c == '\U{3000}'
  }

  /**
   * The bytes `u8::is_ascii_whitespace` accepts: `str::split_ascii_whitespace`
   * splits at these. The vertical tab is not among them.
   */
  predicate IsAsciiWhitespace(c: char) {
    c == ' ' || c == '\t' || c == '\n' || c == '\U{000C}' || c == '\r'
  }

  /** Which whitespace a string is split at: `split_whitespace` or `split_ascii_whitespace`. */
  datatype Spaces = Unicode | Ascii

  predicate IsSpace(k: Spaces, c: char) {
    match k
    case Unicode => IsWhitespace(c)
    case Ascii => IsAsciiWhitespace(c)
  }

  /** Every character `is_ascii_whitespace` accepts is whitespace to `char::is_whitespace` too. */
  lemma {:induction false} AsciiIsWhitespace(c: char)
    ensures IsAsciiWhitespace(c) ==> IsWhitespace(c)
    ensures IsWhitespace(c) && c < '\U{0080}' ==> IsAsciiWhitespace(c) || c == '\U{000B}'
  {
  }

  /** The leading run of characters that are not whitespace. */
  function Word(k: Spaces, s: string): (w: string)
    ensures |w| <= |s| && w == s[..|w|]
    ensures forall i :: 0 <= i < |w| ==> !IsSpace(k, w[i])
    ensures |w| < |s| ==> IsSpace(k, s[|w|])
  {
    if |s| == 0 || IsSpace(k, s[0]) then "" else [s[0]] + Word(k, s[1..])
  }

  /** No piece is empty or holds whitespace. */
  predicate Solid(k: Spaces, r: seq<string>) {
    forall j :: 0 <= j < |r| ==> |r[j]| > 0 && forall i :: 0 <= i < |r[j]| ==> !IsSpace(k, r[j][i])
  }

  /**
   * s is the pieces of r, in order, each preceded by a run of whitespace
   * (empty only before the first) and each followed by whitespace or the
   * end, with nothing but whitespace after the last.
   */
  ghost predicate Separated(k: Spaces, s: string, r: seq<string>)
    decreases |r|
  {
    var u := s[LeadingWhitespace(k, s)..];
    if |r| == 0 then u == []
    else
      var n := |r[0]|;
      n <= |u| && u[..n] == r[0] && (n == |u| || IsSpace(k, u[n])) && Separated(k, u[n..], r[1..])
  }

  /**
   * str::split_whitespace (Unicode) and str::split_ascii_whitespace
   * (Ascii): the maximal runs of non-whitespace, in order.
   */
  function SplitWhitespace(k: Spaces, s: string): (r: seq<string>)
    ensures Solid(k, r)
    decreases |s|
  {
    if |s| == 0 then []
    else if IsSpace(k, s[0]) then SplitWhitespace(k, s[1..])
    else
      var w := Word(k, s);
      [w] + SplitWhitespace(k, s[|w|..])
  }

  /** The pieces split_whitespace returns are laid out in s separated by whitespace. */
  lemma {:induction false} SplitWhitespaceSeparated(k: Spaces, s: string)
    ensures Separated(k, s, SplitWhitespace(k, s))
    decreases |s|
  {
    if |s| > 0 {
      if IsSpace(k, s[0]) {
        SplitWhitespaceSeparated(k, s[1..]);
        SeparatedSkip(k, s, SplitWhitespace(k, s));
      } else {
        var w := Word(k, s);
        var rest := SplitWhitespace(k, s[|w|..]);
        SplitWhitespaceSeparated(k, s[|w|..]);
        assert ([w] + rest)[1..] == rest;
      }
    }
  }

  /** A leading whitespace character shifts the layout by one. */
  lemma {:induction false} SeparatedSkip(k: Spaces, s: string, r: seq<string>)
    requires |s| > 0 && IsSpace(k, s[0])
    ensures Separated(k, s, r) <==> Separated(k, s[1..], r)
  {
    var i := LeadingWhitespace(k, s[1..]);
    assert LeadingWhitespace(k, s) == i + 1;
    assert s[i + 1..] == s[1..][i..];
  }

  /** A layout of s that starts with a non-whitespace character starts with the first word. */
  lemma {:induction false} SeparatedWord(k: Spaces, s: string, r: seq<string>)
    requires |s| > 0 && !IsSpace(k, s[0]) && Solid(k, r) && Separated(k, s, r)
    ensures |r| > 0 && Word(k, s) == r[0] && Separated(k, s[|r[0]|..], r[1..])
  {
    assert LeadingWhitespace(k, s) == 0;
    assert s[0..] == s;
    var n := |r[0]|;
    assert s[..n] == r[0];
    WordOf(k, s, r[0]);
  }

  /** A prefix without whitespace that ends at whitespace or at the end is the first word. */
  lemma {:induction false} WordOf(k: Spaces, s: string, p: string)
    requires |p| <= |s| && s[..|p|] == p && (|p| == |s| || IsSpace(k, s[|p|]))
    requires forall i :: 0 <= i < |p| ==> !IsSpace(k, p[i])
    ensures Word(k, s) == p
    decreases |p|
  {
    if |p| > 0 {
      assert s[0] == p[0];
      assert s[1..][..|p| - 1] == p[1..];
      WordOf(k, s[1..], p[1..]);
    }
  }

  /** The maximal runs are the only way to lay out s as whitespace-separated pieces. */
  lemma {:induction false} SplitWhitespaceUnique(k: Spaces, s: string, r: seq<string>)
    requires Solid(k, r) && Separated(k, s, r)
    ensures r == SplitWhitespace(k, s)
    decreases |s|
  {
    if |s| == 0 {
      assert LeadingWhitespace(k, s) == 0;
    } else if IsSpace(k, s[0]) {
      SeparatedSkip(k, s, r);
      SplitWhitespaceUnique(k, s[1..], r);
    } else {
      SeparatedWord(k, s, r);
      var n := |r[0]|;
      assert Solid(k, r[1..]) by {
        forall j | 0 <= j < |r[1..]| ensures |r[1..][j]| > 0 {
          assert r[1..][j] == r[j + 1];
        }
      }
      SplitWhitespaceUnique(k, s[n..], r[1..]);
      assert r == [r[0]] + r[1..];
    }
  }

  /** Splitting at whitespace keeps every non-whitespace character, in order. */
  lemma {:induction false} SplitWhitespaceKeeps(k: Spaces, s: string)
    ensures Concat(SplitWhitespace(k, s)) == RemoveWhitespace(k, s)
    decreases |s|
  {
    if |s| > 0 {
      if IsSpace(k, s[0]) {
        SplitWhitespaceKeeps(k, s[1..]);
      } else {
        var w := Word(k, s);
        SplitWhitespaceKeeps(k, s[|w|..]);
        assert s == w + s[|w|..];
        RemoveWhitespaceAppend(k, w, s[|w|..]);
        NoWhitespaceKept(k, w);
      }
    }
  }

  function Concat(pieces: seq<string>): string {
    if |pieces| == 0 then "" else pieces[0] + Concat(pieces[1..])
  }

  function RemoveWhitespace(k: Spaces, s: string): string {
    if |s| == 0 then "" else (if IsSpace(k, s[0]) then "" else [s[0]]) + RemoveWhitespace(k, s[1..])
  }

  lemma {:induction false} RemoveWhitespaceAppend(k: Spaces, s: string, t: string)
    ensures RemoveWhitespace(k, s + t) == RemoveWhitespace(k, s) + RemoveWhitespace(k, t)
  {
    if |s| > 0 {
      assert (s + t)[1..] == s[1..] + t;
      RemoveWhitespaceAppend(k, s[1..], t);
    } else {
      assert s + t == t;
    }
  }

  lemma {:induction false} NoWhitespaceKept(k: Spaces, s: string)
    requires forall i :: 0 <= i < |s| ==> !IsSpace(k, s[i])
    ensures RemoveWhitespace(k, s) == s
  {
    if |s| > 0 {
      NoWhitespaceKept(k, s[1..]);
    }
  }

  /** The length of the leading whitespace run. */
  function LeadingWhitespace(k: Spaces, s: string): (n: nat)
    ensures n <= |s|
    ensures n < |s| ==> !IsSpace(k, s[n])
  {
    if |s| > 0 && IsSpace(k, s[0]) then 1 + LeadingWhitespace(k, s[1..]) else 0
  }

  /** Everything before the end of the leading run is whitespace. */
  lemma {:induction false} LeadingWhitespaceRun(k: Spaces, s: string)
    ensures forall j :: 0 <= j < LeadingWhitespace(k, s) ==> IsSpace(k, s[j])
  {
    if |s| > 0 && IsSpace(k, s[0]) {
      LeadingWhitespaceRun(k, s[1..]);
      assert forall j :: 1 <= j < |s| ==> s[j] == s[1..][j - 1];
    }
  }

  /** Where the trailing run of Unicode whitespace starts. */
  function TrailingWhitespace(s: string): (n: nat)
    ensures n <= |s| && forall j :: n <= j < |s| ==> IsWhitespace(s[j])
    ensures n > 0 ==> !IsWhitespace(s[n - 1])
  {
    if |s| > 0 && IsWhitespace(s[|s| - 1]) then TrailingWhitespace(s[..|s| - 1]) else |s|
  }

  /** r is s with a whitespace run of length i before it and the run after it removed. */
  predicate TrimmedAt(s: string, r: string, i: nat) {
    i + |r| <= |s| && r == s[i..i + |r|] &&
    (forall j :: 0 <= j < i ==> IsWhitespace(s[j])) &&
    (forall j :: i + |r| <= j < |s| ==> IsWhitespace(s[j]))
  }

  /** str::trim: drop the Unicode whitespace at both ends. */
  function Trim(s: string): (r: string)
    ensures TrimmedAt(s, r, LeadingWhitespace(Unicode, s))
    ensures |r| > 0 ==> !IsWhitespace(r[0]) && !IsWhitespace(r[|r| - 1])
  {
    var i := LeadingWhitespace(Unicode, s);
    LeadingWhitespaceRun(Unicode, s);
    var e := TrailingWhitespace(s[i..]);
    assert forall j :: i + e <= j < |s| ==> s[j] == s[i..][j - i];
    s[i..i + e]
  }
}
